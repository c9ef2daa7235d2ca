/** class_data_item as it is written, and that reading gives back what was written. */
module ClassDataWrite {
  import opened Memory
  import opened ClassData

  /** The difference to the last index, in 32 bits. */
  function Delta(last: U4, index: U4): U4 { (index - last) % 0x1_0000_0000 }

  function LastField(fs: seq<Field>): U4 { if fs == [] then 0 else fs[|fs| - 1].fieldIdx }

  function LastMethod(ms: seq<Method>): U4 { if ms == [] then 0 else ms[|ms| - 1].methodIdx }

  /** The numbers of a list of fields: index differences and flags. */
  function FieldNumbers(fs: seq<Field>): (xs: seq<U4>)
    ensures |xs| == 2 * |fs|
  {
    if fs == [] then []
    else
      var rest, f := fs[..|fs| - 1], fs[|fs| - 1];
      FieldNumbers(rest) + [Delta(LastField(rest), f.fieldIdx), f.accessFlags]
  }

  function MethodNumbers(ms: seq<Method>): (xs: seq<U4>)
    ensures |xs| == 3 * |ms|
  {
    if ms == [] then []
    else
      var rest, f := ms[..|ms| - 1], ms[|ms| - 1];
      MethodNumbers(rest) + [Delta(LastMethod(rest), f.methodIdx), f.accessFlags, f.codeOff]
  }

  lemma DeltaAdds(last: U4, index: U4)
    ensures (last as int + Delta(last, index)) % 0x1_0000_0000 == index
  {
  }

  /** The numbers mean these fields, and no others. */
  lemma FieldsMeant(fs: seq<Field>, gs: seq<Field>)
    ensures AreFields(gs, FieldNumbers(fs)) <==> gs == fs
  {
    FieldNumbersMean(fs);
    if AreFields(gs, FieldNumbers(fs)) {
      assert |gs| == |fs|;
      assert forall i | 0 <= i < |gs| :: gs[i] == fs[i];
    }
  }

  lemma {:induction false} FieldNumbersMean(fs: seq<Field>)
    ensures AreFields(fs, FieldNumbers(fs))
  {
    if fs != [] {
      var rest, f := fs[..|fs| - 1], fs[|fs| - 1];
      FieldNumbersMean(rest);
      var last := LastField(rest);
      hide AreFields, Delta;
      DeltaAdds(last, f.fieldIdx);
      NextField(rest, FieldNumbers(rest), [Delta(last, f.fieldIdx), f.accessFlags], last);
      assert rest + [f] == fs;
    }
  }

  lemma MethodsMeant(ms: seq<Method>, gs: seq<Method>)
    ensures AreMethods(gs, MethodNumbers(ms)) <==> gs == ms
  {
    MethodNumbersMean(ms);
    if AreMethods(gs, MethodNumbers(ms)) {
      assert |gs| == |ms|;
      assert forall i | 0 <= i < |gs| :: gs[i] == ms[i];
    }
  }

  lemma {:induction false} MethodNumbersMean(ms: seq<Method>)
    ensures AreMethods(ms, MethodNumbers(ms))
  {
    if ms != [] {
      var rest, f := ms[..|ms| - 1], ms[|ms| - 1];
      MethodNumbersMean(rest);
      var last := LastMethod(rest);
      hide AreMethods, Delta;
      DeltaAdds(last, f.methodIdx);
      NextMethod(rest, MethodNumbers(rest), [Delta(last, f.methodIdx), f.accessFlags, f.codeOff], last);
      assert rest + [f] == ms;
    }
  }

  // ----- The item -----

  /** The members of a class. */
  datatype Members = Members(statics: seq<Field>, instances: seq<Field>, directs: seq<Method>, virtuals: seq<Method>)
  {
    predicate Countable() {
      && |statics| < 0x1_0000_0000 && |instances| < 0x1_0000_0000
      && |directs| < 0x1_0000_0000 && |virtuals| < 0x1_0000_0000
    }

    /** The four sizes, then the four lists. */
    function Pieces(): (pieces: seq<seq<U4>>)
      requires Countable()
      ensures |pieces| == 5
    {
      [[|statics|, |instances|, |directs|, |virtuals|],
       FieldNumbers(statics), FieldNumbers(instances), MethodNumbers(directs), MethodNumbers(virtuals)]
    }

    function Bytes(): seq<Byte>
      requires Countable()
    {
      var s := Pieces();
      Written(s[0]) + (Written(s[1]) + (Written(s[2]) + (Written(s[3]) + Written(s[4]))))
    }

    function Header(): ClassData.Header
      requires Countable()
    {
      ClassData.Header(|statics|, |instances|, |directs|, |virtuals|)
    }
  }

  /** A written piece is a run, and the rest stands behind it. */
  lemma PieceRead(xs: seq<U4>, rest: seq<Byte>, m: seq<Byte>, p: nat, limit: nat)
    requires Readable(m, limit) && StandsAt(m, p, Written(xs) + rest) && p + |Written(xs) + rest| <= limit
    ensures Run(m, p, |xs|, limit) == Some(Numbers(xs, p + |Written(xs)|))
    ensures StandsAt(m, p + |Written(xs)|, rest)
  {
    hide Run, Written;
    StandsInParts(m, p, Written(xs), rest);
    RunOfWritten(xs, m, p, limit);
  }

  /** The five runs of a written item. */
  lemma ItemRead(c: Members, m: seq<Byte>, p: nat, limit: nat)
    requires c.Countable() && Readable(m, limit) && StandsAt(m, p, c.Bytes()) && p + |c.Bytes()| <= limit
    ensures var s := c.Pieces();
      var o := ItemAt(m, p, limit);
      && o.Some? && o.value.header == c.Header() && o.value.virtuals.end == p + |c.Bytes()|
      && o.value.statics.values == s[1] && o.value.instances.values == s[2]
      && o.value.directs.values == s[3] && o.value.virtuals.values == s[4]
  {
    hide Run, Written, FieldNumbers, MethodNumbers, StandsAt;
    var s := c.Pieces();
    var b1, b2, b3, b4 := Written(s[1]), Written(s[2]), Written(s[3]), Written(s[4]);
    PieceRead(s[0], b1 + (b2 + (b3 + b4)), m, p, limit);
    var q := p + |Written(s[0])|;
    PieceRead(s[1], b2 + (b3 + b4), m, q, limit);
    q := q + |b1|;
    PieceRead(s[2], b3 + b4, m, q, limit);
    q := q + |b2|;
    PieceRead(s[3], b4, m, q, limit);
    assert b4 + [] == b4;
    PieceRead(s[4], [], m, q + |b3|, limit);
  }

  /** A class that is written is read back: every member in its own list, with its index, up to the
      byte behind the item. */
  method WrittenIsRead(m: seq<Byte>, p: nat, limit: nat, ghost c: Members) returns (data: DexClassData, next: nat)
    requires c.Countable() && Readable(m, limit) && StandsAt(m, p, c.Bytes()) && p + |c.Bytes()| <= limit
    ensures next == p + |c.Bytes()| && data.header == c.Header()
    ensures data.staticFields[..] == c.statics && data.instanceFields[..] == c.instances
    ensures data.directMethods[..] == c.directs && data.virtualMethods[..] == c.virtuals
  {
    hide AreFields, AreMethods, FieldNumbers, MethodNumbers, ItemAt, Stored, HeaderAt;
    ItemRead(c, m, p, limit);
    var o;
    ghost var stored;
    o, next, stored := ReadAndVerifyClassData(m, Some(p), limit);
    data := o.value;
    FieldsMeant(c.statics, data.staticFields[..]);
    FieldsMeant(c.instances, data.instanceFields[..]);
    MethodsMeant(c.directs, data.directMethods[..]);
    MethodsMeant(c.virtuals, data.virtualMethods[..]);
  }
}
