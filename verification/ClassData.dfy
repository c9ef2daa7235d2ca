/** class_data_item (libdex/DexClass.cpp, libdex/DexClass.h): every piece is verified in one
    pass over its numbers and read in a second one. */
module ClassData {
  import opened Memory
  import Leb128

  // ----- A run of numbers -----

  datatype Numbers = Numbers(values: seq<U4>, end: nat)

  /** The next n numbers, all valid and in front of the limit. */
  function Run(m: seq<Byte>, p: nat, n: nat, limit: nat): (r: Option<Numbers>)
    requires Readable(m, limit) && p <= limit
    ensures r.Some? ==> |r.value.values| == n && p <= r.value.end <= limit
    decreases n
  {
    if n == 0 then Some(Numbers([], p))
    else if !Leb128.Valid(m, p, limit) then None
    else
      match Run(m, p + Leb128.Size(m, p), n - 1, limit)
      case None => None
      case Some(rest) => Some(Numbers([Leb128.Unsigned(m, p)] + rest.values, rest.end))
  }

  /** A run is a run followed by a run. */
  lemma {:induction false} Split(m: seq<Byte>, p: nat, a: nat, b: nat, limit: nat)
    requires Readable(m, limit) && p <= limit
    ensures Run(m, p, a, limit).None? ==> Run(m, p, a + b, limit).None?
    ensures Run(m, p, a, limit).Some? ==>
      var first := Run(m, p, a, limit).value;
      && (Run(m, first.end, b, limit).None? ==> Run(m, p, a + b, limit).None?)
      && (Run(m, first.end, b, limit).Some? ==>
            var second := Run(m, first.end, b, limit).value;
            Run(m, p, a + b, limit) == Some(Numbers(first.values + second.values, second.end)))
    decreases a
  {
    if a == 0 {
      if Run(m, p, b, limit).Some? {
        assert [] + Run(m, p, b, limit).value.values == Run(m, p, b, limit).value.values;
      }
    } else if Leb128.Valid(m, p, limit) {
      var q := p + Leb128.Size(m, p);
      Split(m, q, a - 1, b, limit);
      var rest := Run(m, q, a - 1, limit);
      if rest.Some? && Run(m, rest.value.end, b, limit).Some? {
        var x, y, z := [Leb128.Unsigned(m, p)], rest.value.values, Run(m, rest.value.end, b, limit).value.values;
        assert x + (y + z) == (x + y) + z;
      }
    }
  }

  /** verifyUlebs. */
  method VerifyUlebs(m: seq<Byte>, p: nat, limit: nat, count: nat) returns (okay: bool)
    requires Readable(m, limit) && p <= limit
    ensures okay <==> Run(m, p, count, limit).Some?
  {
    hide Leb128.Unsigned, Leb128.Size;
    okay := true;
    var data: nat, n := p, count;
    while okay && n != 0
      invariant okay ==> data <= limit
      invariant Run(m, p, count, limit).Some? <==> okay && Run(m, data, n, limit).Some?
      decreases n
    {
      var value;
      value, data, okay := Leb128.ReadAndVerifyUnsignedLeb128(m, data, Some(limit), okay);
      n := n - 1;
    }
  }

  // ----- What the numbers mean -----

  datatype Header = Header(staticFieldsSize: U4, instanceFieldsSize: U4, directMethodsSize: U4, virtualMethodsSize: U4)

  datatype Field = Field(fieldIdx: U4, accessFlags: U4)

  datatype Method = Method(methodIdx: U4, accessFlags: U4, codeOff: U4)

  /** The sum of every step-th number, up to number step * i. */
  function Sum(xs: seq<U4>, step: nat, i: nat): nat
    requires step * i < |xs|
  {
    if i == 0 then xs[0]
    else
      Earlier(step, i);
      Sum(xs, step, i - 1) + xs[step * i]
  }

  lemma Earlier(step: nat, i: nat)
    requires i > 0
    ensures step * (i - 1) <= step * i
  {
  }

  /** Indices are sums of differences, in 32 bits. */
  ghost predicate AreFields(fs: seq<Field>, xs: seq<U4>) {
    && |xs| == 2 * |fs|
    && forall i | 0 <= i < |fs| :: fs[i] == Field(Sum(xs, 2, i) % 0x1_0000_0000, xs[2 * i + 1])
  }

  ghost predicate AreMethods(ms: seq<Method>, xs: seq<U4>) {
    && |xs| == 3 * |ms|
    && forall i | 0 <= i < |ms| :: ms[i] == Method(Sum(xs, 3, i) % 0x1_0000_0000, xs[3 * i + 1], xs[3 * i + 2])
  }

  lemma {:induction false} SumOfMore(xs: seq<U4>, ys: seq<U4>, step: nat, i: nat)
    requires step * i < |xs|
    ensures step * i < |xs + ys| && Sum(xs + ys, step, i) == Sum(xs, step, i)
  {
    if i > 0 {
      Earlier(step, i);
      SumOfMore(xs, ys, step, i - 1);
    }
  }

  lemma AddInWord(sum: nat, d: U4)
    ensures (sum % 0x1_0000_0000 + d) % 0x1_0000_0000 == (sum + d) % 0x1_0000_0000
  {
  }

  /** The sum up to the next entry, from the word that holds the sum so far. */
  lemma NextIndex(xs: seq<U4>, ys: seq<U4>, step: nat, i: nat, last: U4)
    requires |xs| == step * i && ys != []
    requires if i == 0 then last == 0 else step > 0 && step * (i - 1) < |xs| && last == Sum(xs, step, i - 1) % 0x1_0000_0000
    ensures step * i < |xs + ys| && (last + ys[0]) % 0x1_0000_0000 == Sum(xs + ys, step, i) % 0x1_0000_0000
  {
    if i > 0 {
      Earlier(step, i);
      SumOfMore(xs, ys, step, i - 1);
      AddInWord(Sum(xs, step, i - 1), ys[0]);
    }
  }

  lemma NextField(fs: seq<Field>, xs: seq<U4>, ys: seq<U4>, last: U4)
    requires AreFields(fs, xs) && |ys| == 2 && last == if fs == [] then 0 else fs[|fs| - 1].fieldIdx
    ensures var index: int := last + ys[0]; AreFields(fs + [Field(index % 0x1_0000_0000, ys[1])], xs + ys)
  {
    NextIndex(xs, ys, 2, |fs|, last);
    forall i | 0 <= i < |fs| ensures 2 * i < |xs| && Sum(xs + ys, 2, i) == Sum(xs, 2, i) {
      SumOfMore(xs, ys, 2, i);
    }
  }

  lemma NextMethod(ms: seq<Method>, xs: seq<U4>, ys: seq<U4>, last: U4)
    requires AreMethods(ms, xs) && |ys| == 3 && last == if ms == [] then 0 else ms[|ms| - 1].methodIdx
    ensures var index: int := last + ys[0]; AreMethods(ms + [Method(index % 0x1_0000_0000, ys[1], ys[2])], xs + ys)
  {
    NextIndex(xs, ys, 3, |ms|, last);
    forall i | 0 <= i < |ms| ensures 3 * i < |xs| && Sum(xs + ys, 3, i) == Sum(xs, 3, i) {
      SumOfMore(xs, ys, 3, i);
    }
  }

  // ----- Reading without verification -----

  /** The first two and three numbers of a run. */
  lemma RunOf(m: seq<Byte>, p: nat, n: nat, limit: nat)
    requires Readable(m, limit) && p <= limit && n > 0 && Run(m, p, n, limit).Some?
    ensures var q := p + Leb128.Size(m, p);
      && q <= limit && Run(m, q, n - 1, limit).Some?
      && Run(m, p, n, limit).value.values[0] == Leb128.Unsigned(m, p)
      && Run(m, p, n, limit).value.values[1..] == Run(m, q, n - 1, limit).value.values
      && Run(m, p, n, limit).value.end == Run(m, q, n - 1, limit).value.end
  {
  }

  method ReadHeader(m: seq<Byte>, p: nat, ghost limit: nat) returns (header: Header, next: nat)
    requires Readable(m, limit) && p <= limit && Run(m, p, 4, limit).Some?
    ensures var r := Run(m, p, 4, limit).value;
      header == Header(r.values[0], r.values[1], r.values[2], r.values[3]) && next == r.end
  {
    hide Leb128.Unsigned, Leb128.Size;
    ghost var xs := Run(m, p, 4, limit).value.values;
    var a, b, c, d;
    RunOf(m, p, 4, limit);
    a, next := Leb128.ReadUnsignedLeb128(m, p);
    RunOf(m, next, 3, limit);
    b, next := Leb128.ReadUnsignedLeb128(m, next);
    RunOf(m, next, 2, limit);
    c, next := Leb128.ReadUnsignedLeb128(m, next);
    RunOf(m, next, 1, limit);
    d, next := Leb128.ReadUnsignedLeb128(m, next);
    assert xs[1..][1..] == xs[2..] && xs[2..][1..] == xs[3..];
    return Header(a, b, c, d), next;
  }

  method ReadField(m: seq<Byte>, p: nat, lastIndex: U4, ghost limit: nat) returns (field: Field, next: nat)
    requires Readable(m, limit) && p <= limit && Run(m, p, 2, limit).Some?
    ensures var r := Run(m, p, 2, limit).value;
      var index: int := lastIndex + r.values[0];
      field == Field(index % 0x1_0000_0000, r.values[1]) && next == r.end
  {
    hide Leb128.Unsigned, Leb128.Size;
    var delta, accessFlags;
    RunOf(m, p, 2, limit);
    delta, next := Leb128.ReadUnsignedLeb128(m, p);
    RunOf(m, next, 1, limit);
    accessFlags, next := Leb128.ReadUnsignedLeb128(m, next);
    var index: int := lastIndex + delta;
    return Field(index % 0x1_0000_0000, accessFlags), next;
  }

  method ReadMethod(m: seq<Byte>, p: nat, lastIndex: U4, ghost limit: nat) returns (r: Method, next: nat)
    requires Readable(m, limit) && p <= limit && Run(m, p, 3, limit).Some?
    ensures var run := Run(m, p, 3, limit).value;
      var index: int := lastIndex + run.values[0];
      r == Method(index % 0x1_0000_0000, run.values[1], run.values[2]) && next == run.end
  {
    hide Leb128.Unsigned, Leb128.Size;
    ghost var xs := Run(m, p, 3, limit).value.values;
    var delta, accessFlags, codeOff;
    RunOf(m, p, 3, limit);
    delta, next := Leb128.ReadUnsignedLeb128(m, p);
    RunOf(m, next, 2, limit);
    accessFlags, next := Leb128.ReadUnsignedLeb128(m, next);
    RunOf(m, next, 1, limit);
    codeOff, next := Leb128.ReadUnsignedLeb128(m, next);
    assert xs[1..][1..] == xs[2..];
    var index: int := lastIndex + delta;
    return Method(index % 0x1_0000_0000, accessFlags, codeOff), next;
  }

  // ----- Verifying and reading -----

  method ReadAndVerifyHeader(m: seq<Byte>, p: nat, limit: nat) returns (header: Option<Header>, next: nat)
    requires Readable(m, limit) && p <= limit
    ensures header == HeaderOf(Run(m, p, 4, limit))
    ensures header.Some? ==> next == Run(m, p, 4, limit).value.end
  {
    hide Run;
    var okay := VerifyUlebs(m, p, limit, 4);
    if !okay {
      return None, p;
    }
    var h;
    h, next := ReadHeader(m, p, limit);
    return Some(h), next;
  }

  function HeaderOf(r: Option<Numbers>): Option<Header>
    requires r.Some? ==> |r.value.values| == 4
  {
    match r
    case None => None
    case Some(n) => Some(Header(n.values[0], n.values[1], n.values[2], n.values[3]))
  }

  /** The entries of k numbers each that are read before the first invalid number. */
  function Whole(m: seq<Byte>, p: nat, k: nat, n: nat, limit: nat): (r: nat)
    requires Readable(m, limit) && p <= limit
    ensures r <= n && (r == n <==> Run(m, p, k * n, limit).Some?)
    decreases n
  {
    if Run(m, p, k * n, limit).Some? || n == 0 then n else Whole(m, p, k, n - 1, limit)
  }

  /** i entries are whole and one more is not. */
  lemma {:induction false} WholeExactly(m: seq<Byte>, p: nat, k: nat, n: nat, i: nat, limit: nat)
    requires Readable(m, limit) && p <= limit && i < n
    requires Run(m, p, k * i, limit).Some? && Run(m, p, k * i + k, limit).None?
    ensures Whole(m, p, k, n, limit) == i
    decreases n
  {
    Distribute(k, i + 1, n - i - 1);
    Distribute(k, i, 1);
    Split(m, p, k * i + k, k * (n - i - 1), limit);
    hide Run;
    if n > i + 1 {
      WholeExactly(m, p, k, n - 1, i, limit);
    }
  }

  /** After i entries: one more, or none. */
  lemma NextEntry(m: seq<Byte>, p: nat, k: nat, n: nat, i: nat, limit: nat)
    requires Readable(m, limit) && p <= limit && i < n && Run(m, p, k * i, limit).Some?
    ensures var first := Run(m, p, k * i, limit).value;
      var entry := Run(m, first.end, k, limit);
      && (entry.None? ==> Run(m, p, k * n, limit).None? && Whole(m, p, k, n, limit) == i)
      && (entry.Some? ==>
            Run(m, p, k * (i + 1), limit) == Some(Numbers(first.values + entry.value.values, entry.value.end)))
  {
    hide Run, Whole;
    var done, rest := k * i, k * (n - i - 1);
    Distribute(k, i, 1);
    Distribute(k, i + 1, n - i - 1);
    Split(m, p, done, k, limit);
    Split(m, p, done + k, rest, limit);
    if Run(m, Run(m, p, k * i, limit).value.end, k, limit).None? {
      WholeExactly(m, p, k, n, i, limit);
    }
  }

  lemma Distribute(k: nat, a: nat, b: nat)
    ensures k * (a + b) == k * a + k * b
  {
  }

  /** A list of fields fills the array; what was verified is what is read. */
  method ReadAndVerifyFields(m: seq<Byte>, p: nat, limit: nat, fields: array<Field>)
    returns (okay: bool, next: nat, ghost stored: nat)
    requires Readable(m, limit) && p <= limit
    modifies fields
    ensures var r := Run(m, p, 2 * fields.Length, limit);
      && (okay <==> r.Some?)
      && (okay ==> next == r.value.end <= limit && AreFields(fields[..], r.value.values))
    ensures stored == Whole(m, p, 2, fields.Length, limit)
  {
    hide Run, AreFields, Whole;
    okay, next := true, p;
    var lastIndex: U4 := 0;
    var i := 0;
    ghost var n := fields.Length;
    stored := 0;
    NoFields(m, p, limit);
    while okay && i < fields.Length
      invariant 0 <= i <= n
      invariant !okay ==> Run(m, p, 2 * n, limit).None? && stored == Whole(m, p, 2, n, limit)
      invariant okay ==> stored == i
      invariant okay ==>
        && p <= next <= limit && Run(m, p, 2 * i, limit).Some? && Run(m, p, 2 * i, limit).value.end == next
        && AreFields(fields[..i], Run(m, p, 2 * i, limit).value.values)
        && lastIndex == if i == 0 then 0 else fields[i - 1].fieldIdx
      decreases n - i
    {
      NextEntry(m, p, 2, n, i, limit);
      okay := VerifyUlebs(m, next, limit, 2);
      if okay {
        ghost var xs, ys := Run(m, p, 2 * i, limit).value.values, Run(m, next, 2, limit).value.values;
        NextField(fields[..i], xs, ys, lastIndex);
        var field;
        field, next := ReadField(m, next, lastIndex, limit);
        ghost var before := fields[..i];
        fields[i] := field;
        stored := stored + 1;
        lastIndex := field.fieldIdx;
        assert fields[..i + 1] == before + [field];
      }
      i := i + 1;
    }
    assert okay ==> fields[..] == fields[..i];
  }

  lemma NoFields(m: seq<Byte>, p: nat, limit: nat)
    requires Readable(m, limit) && p <= limit
    ensures Run(m, p, 0, limit) == Some(Numbers([], p)) && AreFields([], []) && AreMethods([], [])
  {
  }

  method ReadAndVerifyMethods(m: seq<Byte>, p: nat, limit: nat, methods: array<Method>)
    returns (okay: bool, next: nat, ghost stored: nat)
    requires Readable(m, limit) && p <= limit
    modifies methods
    ensures var r := Run(m, p, 3 * methods.Length, limit);
      && (okay <==> r.Some?)
      && (okay ==> next == r.value.end <= limit && AreMethods(methods[..], r.value.values))
    ensures stored == Whole(m, p, 3, methods.Length, limit)
  {
    hide Run, AreMethods, Whole;
    okay, next := true, p;
    var lastIndex: U4 := 0;
    var i := 0;
    ghost var n := methods.Length;
    stored := 0;
    NoFields(m, p, limit);
    while okay && i < methods.Length
      invariant 0 <= i <= n
      invariant !okay ==> Run(m, p, 3 * n, limit).None? && stored == Whole(m, p, 3, n, limit)
      invariant okay ==> stored == i
      invariant okay ==>
        && p <= next <= limit && Run(m, p, 3 * i, limit).Some? && Run(m, p, 3 * i, limit).value.end == next
        && AreMethods(methods[..i], Run(m, p, 3 * i, limit).value.values)
        && lastIndex == if i == 0 then 0 else methods[i - 1].methodIdx
      decreases n - i
    {
      NextEntry(m, p, 3, n, i, limit);
      okay := VerifyUlebs(m, next, limit, 3);
      if okay {
        ghost var xs, ys := Run(m, p, 3 * i, limit).value.values, Run(m, next, 3, limit).value.values;
        NextMethod(methods[..i], xs, ys, lastIndex);
        var r;
        r, next := ReadMethod(m, next, lastIndex, limit);
        ghost var before := methods[..i];
        methods[i] := r;
        stored := stored + 1;
        lastIndex := r.methodIdx;
        assert methods[..i + 1] == before + [r];
      }
      i := i + 1;
    }
    assert okay ==> methods[..] == methods[..i];
  }

  class DexClassData {
    const header: Header
    const staticFields: array<Field>
    const instanceFields: array<Field>
    const directMethods: array<Method>
    const virtualMethods: array<Method>

    ghost predicate Sized() {
      && staticFields.Length == header.staticFieldsSize && instanceFields.Length == header.instanceFieldsSize
      && directMethods.Length == header.directMethodsSize && virtualMethods.Length == header.virtualMethodsSize
    }

    constructor (header: Header)
      ensures this.header == header && fresh(staticFields) && fresh(instanceFields)
      ensures fresh(directMethods) && fresh(virtualMethods)
      ensures Sized()
      ensures staticFields != instanceFields && directMethods != virtualMethods
    {
      this.header := header;
      staticFields := new Field[header.staticFieldsSize](_ => Field(0, 0));
      instanceFields := new Field[header.instanceFieldsSize](_ => Field(0, 0));
      directMethods := new Method[header.directMethodsSize](_ => Method(0, 0, 0));
      virtualMethods := new Method[header.virtualMethodsSize](_ => Method(0, 0, 0));
    }
  }

  /** The five runs of an item, one after the other. */
  datatype Item = Item(header: Header, statics: Numbers, instances: Numbers, directs: Numbers, virtuals: Numbers)

  function ItemAt(m: seq<Byte>, p: nat, limit: nat): (r: Option<Item>)
    requires Readable(m, limit) && p <= limit
    ensures r.Some? ==> r.value.virtuals.end <= limit
  {
    var h := Run(m, p, 4, limit);
    if h.None? then None
    else
      var header := HeaderOf(h).value;
      var s := Run(m, h.value.end, 2 * header.staticFieldsSize as int, limit);
      if s.None? then None
      else
        var i := Run(m, s.value.end, 2 * header.instanceFieldsSize as int, limit);
        if i.None? then None
        else
          var d := Run(m, i.value.end, 3 * header.directMethodsSize as int, limit);
          if d.None? then None
          else
            var v := Run(m, d.value.end, 3 * header.virtualMethodsSize as int, limit);
            if v.None? then None else Some(Item(header, s.value, i.value, d.value, v.value))
  }

  lemma {:induction false} RunIsLong(m: seq<Byte>, p: nat, n: nat, limit: nat)
    requires Readable(m, limit) && p <= limit && Run(m, p, n, limit).Some?
    ensures Run(m, p, n, limit).value.end >= p + n
    decreases n
  {
    if n > 0 {
      RunIsLong(m, p + Leb128.Size(m, p), n - 1, limit);
    }
  }

  /** The bytes that one allocation for the four lists takes, after the structure itself. */
  function ListBytes(h: Header): nat {
    8 * h.staticFieldsSize as int + 8 * h.instanceFieldsSize + 12 * h.directMethodsSize + 12 * h.virtualMethodsSize
  }

  /** What is accepted has lists of no more than four times its own bytes. */
  lemma AcceptedIsSmall(m: seq<Byte>, p: nat, limit: nat)
    requires Readable(m, limit) && p <= limit && ItemAt(m, p, limit).Some?
    ensures ListBytes(ItemAt(m, p, limit).value.header) <= 4 * (ItemAt(m, p, limit).value.virtuals.end - p)
  {
    var h := ItemAt(m, p, limit).value.header;
    var r := Run(m, p, 4, limit).value.end;
    RunIsLong(m, r, 2 * h.staticFieldsSize as int, limit);
    var s := Run(m, r, 2 * h.staticFieldsSize as int, limit).value.end;
    RunIsLong(m, s, 2 * h.instanceFieldsSize as int, limit);
    var i := Run(m, s, 2 * h.instanceFieldsSize as int, limit).value.end;
    RunIsLong(m, i, 3 * h.directMethodsSize as int, limit);
    var d := Run(m, i, 3 * h.directMethodsSize as int, limit).value.end;
    RunIsLong(m, d, 3 * h.virtualMethodsSize as int, limit);
  }

  // ----- The one allocation -----

  const STRUCT_BYTES := 32
  const FIELD_BYTES := 8
  const METHOD_BYTES := 12

  /** A size or a pointer difference has 32 bits. */
  function InWord(x: nat): U4 { x % 0x1_0000_0000 }

  /** What malloc is asked for. */
  function Allocated(h: Header): U4 { InWord(STRUCT_BYTES + ListBytes(h)) }

  /** Something for each of the four lists. */
  datatype PerList = PerList(statics: nat, instances: nat, directs: nat, virtuals: nat)

  /** Where the lists start, as the pointer is advanced. */
  function Starts(h: Header): PerList {
    var i := InWord(STRUCT_BYTES + InWord(FIELD_BYTES * h.staticFieldsSize));
    var d := InWord(i + InWord(FIELD_BYTES * h.instanceFieldsSize));
    PerList(STRUCT_BYTES, i, d, InWord(d + InWord(METHOD_BYTES * h.directMethodsSize)))
  }

  /** Where entry i of a list is stored. */
  function Place(start: nat, size: nat, i: nat): U4 { InWord(start + size * i) }

  predicate EntriesInside(room: nat, start: nat, size: nat, n: nat) {
    forall i | 0 <= i < n :: Place(start, size, i) + size <= room
  }

  /** The structure itself and the entries that are stored lie in the allocation. */
  predicate Inside(h: Header, stored: PerList) {
    var room, starts := Allocated(h), Starts(h);
    && STRUCT_BYTES <= room
    && EntriesInside(room, starts.statics, FIELD_BYTES, stored.statics)
    && EntriesInside(room, starts.instances, FIELD_BYTES, stored.instances)
    && EntriesInside(room, starts.directs, METHOD_BYTES, stored.directs)
    && EntriesInside(room, starts.virtuals, METHOD_BYTES, stored.virtuals)
  }

  function HeaderAt(m: seq<Byte>, p: nat, limit: nat): Option<Header>
    requires Readable(m, limit) && p <= limit
  {
    HeaderOf(Run(m, p, 4, limit))
  }

  /** The entries stored before the first number that is not valid. */
  function Stored(m: seq<Byte>, p: nat, limit: nat): (r: PerList)
    requires Readable(m, limit) && p <= limit && HeaderAt(m, p, limit).Some?
    ensures ListByList(HeaderAt(m, p, limit).value, r)
  {
    var h, q := HeaderAt(m, p, limit).value, Run(m, p, 4, limit).value.end;
    var s := Whole(m, q, 2, h.staticFieldsSize, limit);
    if s < h.staticFieldsSize then PerList(s, 0, 0, 0)
    else
      var q1 := Run(m, q, 2 * s, limit).value.end;
      var i := Whole(m, q1, 2, h.instanceFieldsSize, limit);
      if i < h.instanceFieldsSize then PerList(s, i, 0, 0)
      else
        var q2 := Run(m, q1, 2 * i, limit).value.end;
        var d := Whole(m, q2, 3, h.directMethodsSize, limit);
        if d < h.directMethodsSize then PerList(s, i, d, 0)
        else PerList(s, i, d, Whole(m, Run(m, q2, 3 * d, limit).value.end, 3, h.virtualMethodsSize, limit))
  }

  /** A list is filled before the next one is begun. */
  predicate ListByList(h: Header, r: PerList) {
    && r.statics <= h.staticFieldsSize && r.instances <= h.instanceFieldsSize
    && r.directs <= h.directMethodsSize && r.virtuals <= h.virtualMethodsSize
    && (r.statics < h.staticFieldsSize ==> r.instances == 0)
    && (r.instances < h.instanceFieldsSize || r.statics < h.staticFieldsSize ==> r.directs == 0)
    && (r.directs < h.directMethodsSize || r.instances < h.instanceFieldsSize || r.statics < h.staticFieldsSize
        ==> r.virtuals == 0)
  }

  function StoredBytes(r: PerList): nat {
    FIELD_BYTES * r.statics + FIELD_BYTES * r.instances + METHOD_BYTES * r.directs + METHOD_BYTES * r.virtuals
  }

  lemma WrapOnce(a: nat, b: nat)
    ensures InWord(InWord(a) + b) == InWord(a + b) == InWord(a + InWord(b))
  {
    var x, y := a / 0x1_0000_0000, b / 0x1_0000_0000;
    assert a == InWord(a) + 0x1_0000_0000 * x && b == InWord(b) + 0x1_0000_0000 * y;
  }

  /** Wrapped sums of wrapped products are wrapped sums. */
  lemma StartsInWords(h: Header)
    ensures var starts, s := Starts(h), STRUCT_BYTES + FIELD_BYTES * h.staticFieldsSize;
      && starts.statics == InWord(STRUCT_BYTES) && starts.instances == InWord(s)
      && starts.directs == InWord(s + FIELD_BYTES * h.instanceFieldsSize)
      && starts.virtuals == InWord(s + FIELD_BYTES * h.instanceFieldsSize + METHOD_BYTES * h.directMethodsSize)
  {
    var s := STRUCT_BYTES + FIELD_BYTES * h.staticFieldsSize;
    var i := s + FIELD_BYTES * h.instanceFieldsSize;
    assert InWord(STRUCT_BYTES) == STRUCT_BYTES;
    hide InWord;
    WrapOnce(STRUCT_BYTES, FIELD_BYTES * h.staticFieldsSize);
    WrapOnce(s, InWord(FIELD_BYTES * h.instanceFieldsSize));
    WrapOnce(s, FIELD_BYTES * h.instanceFieldsSize);
    WrapOnce(i, InWord(METHOD_BYTES * h.directMethodsSize));
    WrapOnce(i, METHOD_BYTES * h.directMethodsSize);
  }

  /** A list whose bytes, not wrapped, end within the allocation lies in it; of one that they lead
      across the end of the allocation, the entry that crosses it is outside. */
  lemma ListInside(room: U4, start: nat, size: nat, n: nat)
    requires size == FIELD_BYTES || size == METHOD_BYTES
    ensures start + size * n <= room ==> EntriesInside(room, InWord(start), size, n)
    ensures start <= room < start + size * n ==> !EntriesInside(room, InWord(start), size, n)
  {
    if start + size * n <= room {
      forall i: nat | i < n ensures Place(InWord(start), size, i) + size <= room {
        EndOfEntry(size, i, n);
        PlaceBelow(start, size, i, room);
      }
    } else if start <= room {
      var i := Crossing(room - start, size);
      PlaceBelow(start, size, i, room);
      Monotone(size, n, i);
    }
  }

  lemma EndOfEntry(size: nat, i: nat, n: nat)
    requires i < n
    ensures size * i + size <= size * n
  {
    Distribute(size, i + 1, n - i - 1);
    Distribute(size, i, 1);
  }

  lemma Monotone(size: nat, a: nat, b: nat)
    ensures a <= b ==> size * a <= size * b
  {
    if a <= b {
      Distribute(size, a, b - a);
    }
  }

  lemma PlaceBelow(start: nat, size: nat, i: nat, room: U4)
    requires start + size * i <= room
    ensures Place(InWord(start), size, i) == start + size * i
  {
    WrapOnce(start, size * i);
  }

  /** The entry in which a byte lies. */
  function Crossing(x: nat, size: nat): (i: nat)
    requires size == FIELD_BYTES || size == METHOD_BYTES
    ensures size * i <= x < size * i + size
  {
    x / size
  }

  /** Everything that is stored lies in the allocation exactly if its bytes fit, counted without
      wrapping, in the size that malloc was given. */
  lemma InsideExactly(h: Header, r: PerList)
    requires ListByList(h, r)
    ensures Inside(h, r) <==> STRUCT_BYTES + StoredBytes(r) <= Allocated(h)
  {
    var a, s := Allocated(h), STRUCT_BYTES + FIELD_BYTES * h.staticFieldsSize;
    var i := s + FIELD_BYTES * h.instanceFieldsSize;
    var d := i + METHOD_BYTES * h.directMethodsSize;
    StartsInWords(h);
    ListInside(a, STRUCT_BYTES, FIELD_BYTES, r.statics);
    ListInside(a, s, FIELD_BYTES, r.instances);
    ListInside(a, i, METHOD_BYTES, r.directs);
    ListInside(a, d, METHOD_BYTES, r.virtuals);
    hide EntriesInside, Allocated, Starts, InWord;
    NoEntries(a, InWord(s), FIELD_BYTES);
    NoEntries(a, InWord(i), METHOD_BYTES);
    NoEntries(a, InWord(d), METHOD_BYTES);
  }

  lemma NoEntries(room: nat, start: nat, size: nat)
    ensures EntriesInside(room, start, size, 0)
  {
  }

  /** n zeros are n numbers. */
  lemma {:induction false} RunOfZeros(m: seq<Byte>, p: nat, n: nat, limit: nat)
    requires Readable(m, limit) && p + n <= limit && forall q | p <= q < p + n :: m[q] == 0
    ensures Run(m, p, n, limit).Some? && Run(m, p, n, limit).value.end == p + n
    ensures forall i | 0 <= i < n :: Run(m, p, n, limit).value.values[i] == 0
    decreases n
  {
    if n > 0 {
      assert Leb128.Valid(m, p, limit) && Leb128.Size(m, p) == 1;
      RunOfZeros(m, p + 1, n - 1, limit);
    }
  }

  ghost predicate HasHeader(m: seq<Byte>, p: nat, limit: nat, h: Header) {
    Readable(m, limit) && p <= limit && HeaderAt(m, p, limit) == Some(h)
  }

  function Written(xs: seq<U4>): seq<Byte> {
    if xs == [] then [] else Leb128.Encode(xs[0]) + Written(xs[1..])
  }

  lemma Parts(m: seq<Byte>, p: nat, a: seq<Byte>, b: seq<Byte>)
    requires p + |a + b| <= |m| && m[p..p + |a + b|] == a + b
    ensures m[p..p + |a|] == a && m[p + |a|..p + |a| + |b|] == b
  {
    var ab := m[p..p + |a + b|];
    assert m[p..p + |a|] == ab[..|a|] && m[p + |a|..p + |a| + |b|] == ab[|a|..];
  }

  /** One number more in front of a run. */
  lemma NumberInFront(m: seq<Byte>, p: nat, xs: seq<U4>, end: nat, limit: nat)
    requires Readable(m, limit) && p <= limit && xs != [] && Leb128.Valid(m, p, limit) && Leb128.Unsigned(m, p) == xs[0]
    requires Run(m, p + Leb128.Size(m, p), |xs| - 1, limit) == Some(Numbers(xs[1..], end))
    ensures Run(m, p, |xs|, limit) == Some(Numbers(xs, end))
  {
    hide Leb128.Size, Leb128.Unsigned, Leb128.Valid;
    assert [xs[0]] + xs[1..] == xs;
  }

  /** Numbers that are written are a run. */
  lemma {:induction false} RunOfWritten(xs: seq<U4>, m: seq<Byte>, p: nat, limit: nat)
    requires Readable(m, limit) && p + |Written(xs)| <= limit && m[p..p + |Written(xs)|] == Written(xs)
    ensures Run(m, p, |xs|, limit) == Some(Numbers(xs, p + |Written(xs)|))
  {
    hide Run, Leb128.Size, Leb128.Unsigned, Leb128.Valid, Leb128.Encode;
    if xs == [] {
      NoFields(m, p, limit);
    } else {
      var first, rest := Leb128.Encode(xs[0]), Written(xs[1..]);
      assert Written(xs) == first + rest;
      hide Written;
      Parts(m, p, first, rest);
      Leb128.RoundTrip(xs[0], m, p, limit);
      RunOfWritten(xs[1..], m, p + |first|, limit);
      NumberInFront(m, p, xs, p + |Written(xs)|, limit);
    }
  }

  function Encoded(h: Header): seq<Byte> {
    Written([h.staticFieldsSize, h.instanceFieldsSize, h.directMethodsSize, h.virtualMethodsSize])
  }

  /** The numbers that make four full lists. */
  function NumbersOf(h: Header): nat {
    2 * h.staticFieldsSize as int + 2 * h.instanceFieldsSize + 3 * h.directMethodsSize + 3 * h.virtualMethodsSize
  }

  /** A header and zeros. */
  function FullItem(h: Header): seq<Byte> {
    Encoded(h) + seq(NumbersOf(h) + 16, _ => 0)
  }

  lemma FullHeader(h: Header)
    ensures var limit := |Encoded(h)| + NumbersOf(h);
      && HasHeader(FullItem(h), 0, limit, h) && Run(FullItem(h), 0, 4, limit).value.end == |Encoded(h)|
      && |FullItem(h)| == limit + 16 && FullItem(h)[|Encoded(h)|..] == seq(NumbersOf(h) + 16, _ => 0)
  {
    hide Run, Written, NumbersOf;
    var m, p := FullItem(h), |Encoded(h)|;
    assert m[0..p] == Encoded(h);
    RunOfWritten([h.staticFieldsSize, h.instanceFieldsSize, h.directMethodsSize, h.virtualMethodsSize], m, 0,
                 p + NumbersOf(h));
  }

  /** Four full runs behind the header are four full lists. */
  lemma FullRuns(m: seq<Byte>, p: nat, limit: nat, h: Header)
    requires HasHeader(m, p, limit, h)
    requires var q := Run(m, p, 4, limit).value.end;
      q + NumbersOf(h) <= limit && forall k | q <= k < limit :: m[k] == 0
    ensures Stored(m, p, limit)
      == PerList(h.staticFieldsSize, h.instanceFieldsSize, h.directMethodsSize, h.virtualMethodsSize)
  {
    hide Run, Whole;
    var q: nat := Run(m, p, 4, limit).value.end;
    var q1: nat := q + 2 * h.staticFieldsSize;
    var q2: nat := q1 + 2 * h.instanceFieldsSize;
    var q3: nat := q2 + 3 * h.directMethodsSize;
    RunOfZeros(m, q, 2 * h.staticFieldsSize as int, limit);
    RunOfZeros(m, q1, 2 * h.instanceFieldsSize as int, limit);
    RunOfZeros(m, q2, 3 * h.directMethodsSize as int, limit);
    RunOfZeros(m, q3, 3 * h.virtualMethodsSize as int, limit);
  }

  /** Every list of it is filled. */
  lemma FullIsStored(h: Header)
    ensures var m, limit := FullItem(h), |Encoded(h)| + NumbersOf(h);
      && HasHeader(m, 0, limit, h)
      && Stored(m, 0, limit)
         == PerList(h.staticFieldsSize, h.instanceFieldsSize, h.directMethodsSize, h.virtualMethodsSize)
  {
    hide FullItem, Encoded, HasHeader, Run, Stored, NumbersOf;
    FullHeader(h);
    var m, q := FullItem(h), |Encoded(h)|;
    forall k | q <= k < q + NumbersOf(h) ensures m[k] == 0 {
      assert m[k] == m[q..][k - q];
    }
    FullRuns(m, 0, q + NumbersOf(h), h);
  }

  /** Whatever follows this header, nothing is stored outside the allocation. */
  ghost predicate AlwaysInside(h: Header) {
    forall m, p, limit | HasHeader(m, p, limit, h) :: Inside(h, Stored(m, p, limit))
  }

  /** Which is so exactly if its size does not wrap. */
  lemma HeaderDecides(h: Header)
    ensures AlwaysInside(h) <==> STRUCT_BYTES + ListBytes(h) < 0x1_0000_0000
  {
    if STRUCT_BYTES + ListBytes(h) < 0x1_0000_0000 {
      forall m, p, limit | HasHeader(m, p, limit, h) ensures Inside(h, Stored(m, p, limit)) {
        SmallIsInside(h, m, p, limit);
        hide *;
      }
    } else {
      FullIsOutside(h);
    }
  }

  lemma SmallIsInside(h: Header, m: seq<Byte>, p: nat, limit: nat)
    requires HasHeader(m, p, limit, h) && STRUCT_BYTES + ListBytes(h) < 0x1_0000_0000
    ensures Inside(h, Stored(m, p, limit))
  {
    hide Run, Stored, Inside;
    InsideExactly(h, Stored(m, p, limit));
  }

  lemma FullIsOutside(h: Header)
    requires STRUCT_BYTES + ListBytes(h) >= 0x1_0000_0000
    ensures var m, limit := FullItem(h), |Encoded(h)| + NumbersOf(h);
      HasHeader(m, 0, limit, h) && !Inside(h, Stored(m, 0, limit))
  {
    FullIsStored(h);
    hide Stored, FullItem, Encoded, HasHeader, Inside;
    InsideExactly(h, PerList(h.staticFieldsSize, h.instanceFieldsSize, h.directMethodsSize, h.virtualMethodsSize));
  }

  /** 2^29 static fields are announced and one is there. */
  const WRAPPING_ITEM: seq<Byte> := [0x80, 0x80, 0x80, 0x80, 0x02, 0, 0, 0, 0, 0] + seq(16, _ => 0)

  /** Malloc is asked for the bare structure, and that field is stored behind it. */
  lemma AllocationWraps()
    ensures var h := Header(0x2000_0000, 0, 0, 0);
      && HasHeader(WRAPPING_ITEM, 0, 10, h) && Stored(WRAPPING_ITEM, 0, 10) == PerList(1, 0, 0, 0)
      && Allocated(h) == STRUCT_BYTES && !Inside(h, Stored(WRAPPING_ITEM, 0, 10))
  {
    OneFieldStored();
    hide Run, WRAPPING_ITEM, Stored, Inside, HasHeader;
    InsideExactly(Header(0x2000_0000, 0, 0, 0), PerList(1, 0, 0, 0));
  }

  lemma OneFieldStored()
    ensures HasHeader(WRAPPING_ITEM, 0, 10, Header(0x2000_0000, 0, 0, 0))
    ensures Stored(WRAPPING_ITEM, 0, 10) == PerList(1, 0, 0, 0)
  {
    hide Run, WRAPPING_ITEM, Whole;
    WrappingHeader();
    OneField();
  }

  lemma OneField()
    ensures Whole(WRAPPING_ITEM, 8, 2, 0x2000_0000, 10) == 1
  {
    var m := WRAPPING_ITEM;
    RunOfZeros(m, 8, 2, 10);
    assert Run(m, 10, 2, 10).None?;
    Split(m, 8, 2, 2, 10);
    hide Run, WRAPPING_ITEM;
    WholeExactly(m, 8, 2, 0x2000_0000, 1, 10);
  }

  lemma WrappingHeader()
    ensures HasHeader(WRAPPING_ITEM, 0, 10, Header(0x2000_0000, 0, 0, 0))
    ensures Run(WRAPPING_ITEM, 0, 4, 10).value.end == 8
  {
    var m := WRAPPING_ITEM;
    assert Leb128.Size(m, 0) == 5 && Leb128.Valid(m, 0, 10) && Leb128.Unsigned(m, 0) == 0x2000_0000;
    RunOfZeros(m, 5, 3, 10);
    hide Leb128.Unsigned, Leb128.Size, Leb128.Valid, WRAPPING_ITEM;
    var rest := Run(m, 5, 3, 10).value;
    assert ([0x2000_0000] + rest.values)[1..] == rest.values;
  }

  /** What is accepted fills its lists; nothing is stored outside, up to a size near 2^30. */
  lemma AcceptedIsInside(m: seq<Byte>, p: nat, limit: nat)
    requires Readable(m, limit) && p <= limit && ItemAt(m, p, limit).Some?
    ensures var h := ItemAt(m, p, limit).value.header;
      && HasHeader(m, p, limit, h) && StoredBytes(Stored(m, p, limit)) == ListBytes(h)
      && (Inside(h, Stored(m, p, limit)) <==> STRUCT_BYTES + ListBytes(h) < 0x1_0000_0000)
      && (ItemAt(m, p, limit).value.virtuals.end - p < 0x4000_0000 - 8 ==> Inside(h, Stored(m, p, limit)))
  {
    hide Run, Whole, Inside;
    var h := ItemAt(m, p, limit).value.header;
    AcceptedIsSmall(m, p, limit);
    InsideExactly(h, Stored(m, p, limit));
  }

  /** dexReadAndVerifyClassData; no data gives empty lists. */
  method ReadAndVerifyClassData(m: seq<Byte>, p: Option<nat>, limit: nat)
    returns (data: Option<DexClassData>, next: nat, ghost stored: PerList)
    requires Readable(m, limit) && (p.Some? ==> p.value <= limit)
    ensures p.None? ==> data.Some? && data.value.header == Header(0, 0, 0, 0)
    ensures p.Some? ==> (data.Some? <==> ItemAt(m, p.value, limit).Some?)
    ensures p.Some? && data.Some? ==>
      var item, c := ItemAt(m, p.value, limit).value, data.value;
      && c.header == item.header && next == item.virtuals.end
      && AreFields(c.staticFields[..], item.statics.values) && AreFields(c.instanceFields[..], item.instances.values)
      && AreMethods(c.directMethods[..], item.directs.values) && AreMethods(c.virtualMethods[..], item.virtuals.values)
    ensures data.Some? ==> data.value.Sized()
    ensures p.Some? && HeaderAt(m, p.value, limit).Some? ==> stored == Stored(m, p.value, limit)
  {
    hide Run, AreFields, AreMethods, Whole;
    stored := PerList(0, 0, 0, 0);
    if p.None? {
      var empty := new DexClassData(Header(0, 0, 0, 0));
      return Some(empty), 0, stored;
    }
    var header;
    header, next := ReadAndVerifyHeader(m, p.value, limit);
    if header.None? {
      return None, next, stored;
    }
    var result := new DexClassData(header.value);
    var okay;
    ghost var n;
    okay, next, n := ReadAndVerifyFields(m, next, limit, result.staticFields);
    stored := PerList(n, 0, 0, 0);
    if okay {
      okay, next, n := ReadAndVerifyFields(m, next, limit, result.instanceFields);
      stored := stored.(instances := n);
    }
    if okay {
      okay, next, n := ReadAndVerifyMethods(m, next, limit, result.directMethods);
      stored := stored.(directs := n);
    }
    if okay {
      okay, next, n := ReadAndVerifyMethods(m, next, limit, result.virtualMethods);
      stored := stored.(virtuals := n);
    }
    if !okay {
      return None, next, stored;
    }
    return Some(result), next, stored;
  }
}
