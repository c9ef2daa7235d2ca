/** debug_info_item as it is written, and what the verifier and the decoder read. */
module DebugWrite {
  import opened Memory
  import opened DebugInfoSpec
  import opened DebugInfo
  import opened DebugVerify
  import Leb128

  // ----- Writing -----

  /** One operation of the format, with the numbers it carries; indices may be absent. */
  datatype Inst =
    | End
    | Pc(delta: U4)
    | Line(diff: S4)
    | Start(reg: U2, name: Option<U4>, typeIdx: Option<U4>)
    | StartExtended(reg: U2, name: Option<U4>, typeIdx: Option<U4>, signature: Option<U4>)
    | EndOf(reg: U2)
    | Restart(reg: U2)
    | PrologueEnd
    | EpilogueBegin
    | File(name: Option<U4>)
    | Both(adjusted: nat)
  {
    /** In the file's tables; a special opcode is a byte; a line goes back by no more than 2^27. */
    predicate Legal(stringIdsSize: U4) {
      match this
      case Line(diff) => diff >= -0x800_0000
      case Start(_, name, typeIdx) => Ok(name, stringIdsSize) && Ok(typeIdx, stringIdsSize)
      case StartExtended(_, name, typeIdx, signature) =>
        Ok(name, stringIdsSize) && Ok(typeIdx, stringIdsSize) && Ok(signature, stringIdsSize)
      case File(name) => Ok(name, stringIdsSize)
      case Both(adjusted) => adjusted <= 245
      case _ => true
    }

    function Bytes(): seq<Byte>
      requires Both? ==> adjusted <= 245
    {
      match this
      case End => [0x00]
      case Pc(delta) => [0x01] + Leb128.Encode(delta)
      case Line(diff) => [0x02] + Leb128.EncodeSigned(diff)
      case Start(reg, name, typeIdx) => [0x03] + (Leb128.Encode(reg) + (Plus1(name) + Plus1(typeIdx)))
      case StartExtended(reg, name, typeIdx, signature) =>
        [0x04] + (Leb128.Encode(reg) + (Plus1(name) + (Plus1(typeIdx) + Plus1(signature))))
      case EndOf(reg) => [0x05] + Leb128.Encode(reg)
      case Restart(reg) => [0x06] + Leb128.Encode(reg)
      case PrologueEnd => [0x07]
      case EpilogueBegin => [0x08]
      case File(name) => [0x09] + Plus1(name)
      case Both(adjusted) => [0x0a + adjusted]
    }

    /** What it is for the decoder. */
    function Meaning(): Op {
      match this
      case End => EndSequence
      case Pc(delta) => AdvancePc(delta)
      case Line(diff) => AdvanceLine(diff)
      case Start(reg, name, typeIdx) => StartLocal(reg, AsString(name), AsType(typeIdx), Null)
      case StartExtended(reg, name, typeIdx, signature) =>
        StartLocal(reg, AsString(name), AsType(typeIdx), AsString(signature))
      case EndOf(reg) => EndLocal(reg)
      case Restart(reg) => RestartLocal(reg)
      case PrologueEnd => NoEffect
      case EpilogueBegin => NoEffect
      case File(_) => NoEffect
      case Both(adjusted) => Special(adjusted)
    }
  }

  predicate Ok(idx: Option<U4>, size: U4) { idx.Some? ==> idx.value < size }

  /** An index with 1 added to it, or 0. */
  function Plus1(idx: Option<U4>): (bytes: seq<Byte>) {
    match idx case None => Leb128.Encode(0) case Some(i) => Leb128.Encode(i as int + 1)
  }

  function AsString(idx: Option<U4>): Text {
    match idx case None => Null case Some(i) => StringId(i)
  }

  function AsType(idx: Option<U4>): Text {
    match idx case None => Null case Some(i) => TypeId(i)
  }

  // ----- Reading one operation -----

  /** bytes stand at p, in the file. */
  ghost predicate InFile(m: seq<Byte>, e: Env, p: nat, bytes: seq<Byte>) {
    StandsAt(m, p, bytes) && p + |bytes| <= e.fileEnd && e.fileEnd + LONGEST <= |m|
  }

  lemma FileParts(m: seq<Byte>, e: Env, p: nat, a: seq<Byte>, b: seq<Byte>)
    requires InFile(m, e, p, a + b)
    ensures InFile(m, e, p, a) && InFile(m, e, p + |a|, b)
  {
    StandsInParts(m, p, a, b);
  }

  lemma FirstByte(m: seq<Byte>, e: Env, p: nat, opcode: Byte, rest: seq<Byte>)
    requires InFile(m, e, p, [opcode] + rest)
    ensures p < e.fileEnd && p + LONGEST <= |m| && m[p] == opcode && InFile(m, e, p + 1, rest)
  {
    FileParts(m, e, p, [opcode], rest);
    assert m[p..p + 1][0] == m[p];
  }

  lemma NumberRead(m: seq<Byte>, e: Env, p: nat, v: U4)
    requires InFile(m, e, p, Leb128.Encode(v))
    ensures p + 5 <= |m| && Leb128.Valid(m, p, e.fileEnd) && Leb128.Unsigned(m, p) == v
    ensures Leb128.After(m, p) == p + |Leb128.Encode(v)|
  {
    Leb128.RoundTrip(v, m, p, e.fileEnd);
  }

  lemma IndexRead(m: seq<Byte>, e: Env, p: nat, idx: Option<U4>)
    requires InFile(m, e, p, Plus1(idx)) && Ok(idx, e.stringIdsSize)
    ensures p + 5 <= |m| && IndexOk(m, e, p) && Leb128.After(m, p) == p + |Plus1(idx)|
    ensures StringText(Leb128.Unsigned(m, p)) == AsString(idx) && TypeText(Leb128.Unsigned(m, p)) == AsType(idx)
  {
    NumberRead(m, e, p, match idx case None => 0 case Some(i) => i as int + 1);
    hide Leb128.Unsigned, Leb128.Size, Leb128.Valid, Leb128.Encode;
  }

  lemma RegRead(m: seq<Byte>, e: Env, p: nat, reg: U2)
    requires InFile(m, e, p, Leb128.Encode(reg))
    ensures p + 5 <= |m| && RegOk(m, e, p) && Reg(m, p) == reg && Leb128.After(m, p) == p + |Leb128.Encode(reg)|
  {
    hide Leb128.Unsigned, Leb128.Size, Leb128.Valid, Leb128.Encode, InFile;
    NumberRead(m, e, p, reg);
  }

  /** The verifier accepts what is written, and the decoder reads it, all but the argument of a file. */
  ghost predicate ReadBack(m: seq<Byte>, e: Env, p: nat, i: Inst, n: nat) {
    && p + LONGEST <= |m| && VerifiedEnd(m, e, p) == Some(p + n)
    && OpAt(m, p) == i.Meaning() && (!i.File? ==> OpEnd(m, p) == p + n)
    && (m[p] == DBG_END_SEQUENCE <==> i.End?) && (m[p] == DBG_SET_FILE <==> i.File?)
  }

  lemma PlainRead(m: seq<Byte>, e: Env, p: nat, i: Inst)
    requires i.Legal(e.stringIdsSize) && InFile(m, e, p, i.Bytes())
    requires i.End? || i.PrologueEnd? || i.EpilogueBegin? || i.Both?
    ensures ReadBack(m, e, p, i, |i.Bytes()|)
  {
    assert i.Bytes() == [i.Bytes()[0]] + [];
    FirstByte(m, e, p, i.Bytes()[0], []);
    hide Leb128.Unsigned, Leb128.Size, Leb128.Valid, Leb128.Encode, Leb128.EncodeSigned, Leb128.Signed;
  }

  lemma NumberOpRead(m: seq<Byte>, e: Env, p: nat, i: Inst)
    requires i.Legal(e.stringIdsSize) && InFile(m, e, p, i.Bytes()) && (i.Pc? || i.EndOf? || i.Restart?)
    ensures ReadBack(m, e, p, i, |i.Bytes()|)
  {
    hide Leb128.Unsigned, Leb128.Size, Leb128.Valid, Leb128.Encode, Leb128.EncodeSigned, Leb128.Signed, InFile;
    var v: U4 := if i.Pc? then i.delta else i.reg;
    var opcode: Byte := if i.Pc? then 1 else if i.EndOf? then 5 else 6;
    FirstByte(m, e, p, opcode, Leb128.Encode(v));
    if i.Pc? {
      NumberRead(m, e, p + 1, v);
    } else {
      RegRead(m, e, p + 1, i.reg);
      hide RegOk, Reg;
    }
  }

  lemma SignedRead(m: seq<Byte>, e: Env, p: nat, v: S4)
    requires InFile(m, e, p, Leb128.EncodeSigned(v)) && v >= -0x800_0000
    ensures p + 5 <= |m| && Leb128.Valid(m, p, e.fileEnd) && Leb128.Signed(m, p) == v
    ensures Leb128.After(m, p) == p + |Leb128.EncodeSigned(v)|
  {
    hide Leb128.Unsigned, Leb128.Size, Leb128.Valid, Leb128.EncodeSigned, Leb128.Signed;
    Leb128.SignedRoundTrip(v, m, p, e.fileEnd);
  }

  lemma LineRead(m: seq<Byte>, e: Env, p: nat, i: Inst)
    requires i.Legal(e.stringIdsSize) && InFile(m, e, p, i.Bytes()) && i.Line?
    ensures ReadBack(m, e, p, i, |i.Bytes()|)
  {
    hide Leb128.Unsigned, Leb128.Size, Leb128.Valid, Leb128.Encode, Leb128.EncodeSigned, Leb128.Signed, InFile, Plus1;
    FirstByte(m, e, p, 2, Leb128.EncodeSigned(i.diff));
    SignedRead(m, e, p + 1, i.diff);
  }

  lemma FileRead(m: seq<Byte>, e: Env, p: nat, i: Inst)
    requires i.Legal(e.stringIdsSize) && InFile(m, e, p, i.Bytes()) && i.File?
    ensures ReadBack(m, e, p, i, |i.Bytes()|)
  {
    hide Leb128.Unsigned, Leb128.Size, Leb128.Valid, Leb128.Encode, Leb128.EncodeSigned, Leb128.Signed, Plus1, IndexOk;
    FirstByte(m, e, p, 9, Plus1(i.name));
    IndexRead(m, e, p + 1, i.name);
    hide InFile;
  }

  lemma StartRead(m: seq<Byte>, e: Env, p: nat, i: Inst)
    requires i.Legal(e.stringIdsSize) && InFile(m, e, p, i.Bytes()) && (i.Start? || i.StartExtended?)
    ensures ReadBack(m, e, p, i, |i.Bytes()|)
  {
    hide Leb128.Unsigned, Leb128.Size, Leb128.Valid, Leb128.Encode, Leb128.EncodeSigned, Leb128.Signed, Plus1, IndexOk;
    hide RegOk, InFile, Reg;
    var last: seq<Byte> := if i.Start? then Plus1(i.typeIdx) else Plus1(i.typeIdx) + Plus1(i.signature);
    FirstByte(m, e, p, if i.Start? then 3 else 4, Leb128.Encode(i.reg) + (Plus1(i.name) + last));
    FileParts(m, e, p + 1, Leb128.Encode(i.reg), Plus1(i.name) + last);
    RegRead(m, e, p + 1, i.reg);
    var q := p + 1 + |Leb128.Encode(i.reg)|;
    FileParts(m, e, q, Plus1(i.name), last);
    IndexRead(m, e, q, i.name);
    var r := q + |Plus1(i.name)|;
    if i.StartExtended? {
      FileParts(m, e, r, Plus1(i.typeIdx), Plus1(i.signature));
      IndexRead(m, e, r + |Plus1(i.typeIdx)|, i.signature);
    }
    IndexRead(m, e, r, i.typeIdx);
  }

  lemma InstRead(m: seq<Byte>, e: Env, p: nat, i: Inst)
    requires i.Legal(e.stringIdsSize) && InFile(m, e, p, i.Bytes())
    ensures ReadBack(m, e, p, i, |i.Bytes()|)
  {
    hide ReadBack, InFile;
    match i
    case Pc(_) => NumberOpRead(m, e, p, i);
    case EndOf(_) => NumberOpRead(m, e, p, i);
    case Restart(_) => NumberOpRead(m, e, p, i);
    case Line(_) => LineRead(m, e, p, i);
    case File(_) => FileRead(m, e, p, i);
    case Start(_, _, _) => StartRead(m, e, p, i);
    case StartExtended(_, _, _, _) => StartRead(m, e, p, i);
    case _ => PlainRead(m, e, p, i);
  }

  // ----- Reading a stream -----

  /** Legal, and none of them the end of the sequence. */
  predicate AllLegal(xs: seq<Inst>, stringIdsSize: U4) {
    xs == [] || (xs[0].Legal(stringIdsSize) && !xs[0].End? && AllLegal(xs[1..], stringIdsSize))
  }

  predicate SetsFile(xs: seq<Inst>) {
    xs != [] && (xs[0].File? || SetsFile(xs[1..]))
  }

  /** The operations, and the end of the sequence behind them. */
  function StreamBytes(xs: seq<Inst>, stringIdsSize: U4): seq<Byte>
    requires AllLegal(xs, stringIdsSize)
  {
    if xs == [] then Inst.End.Bytes() else xs[0].Bytes() + StreamBytes(xs[1..], stringIdsSize)
  }

  function Meanings(xs: seq<Inst>): seq<Op> {
    if xs == [] then [EndSequence] else [xs[0].Meaning()] + Meanings(xs[1..])
  }

  lemma OneMoreRead(m: seq<Byte>, e: Env, p: nat, i: Inst, n: nat, end: nat)
    requires ReadBack(m, e, p, i, n) && !i.End? && VerifiedOps(m, e, p + n) == Some(end)
    ensures VerifiedOps(m, e, p) == Some(end)
    ensures NoSetFile(m, e, p) <==> !i.File? && NoSetFile(m, e, p + n)
  {
    hide OpAt, OpEnd, VerifiedEnd, Inst.Meaning;
  }

  lemma OneMoreDecoded(m: seq<Byte>, e: Env, p: nat, i: Inst, n: nat, rest: seq<Op>)
    requires ReadBack(m, e, p, i, n) && !i.End? && !i.File? && Ops(m, p + n) == Some(rest)
    ensures Ops(m, p) == Some([i.Meaning()] + rest)
  {
    assert i.Meaning() != EndSequence;
    hide OpAt, OpEnd, VerifiedEnd, Inst.Meaning;
    OpsStep(m, p, rest, [i.Meaning()] + rest);
  }

  lemma EndRead(m: seq<Byte>, e: Env, p: nat)
    requires InFile(m, e, p, Inst.End.Bytes())
    ensures VerifiedOps(m, e, p) == Some(p + 1) && NoSetFile(m, e, p) && Ops(m, p) == Some([EndSequence])
  {
    InstRead(m, e, p, End);
    hide OpAt, OpEnd, VerifiedEnd;
  }

  lemma OnlyEnd(stringIdsSize: U4)
    ensures |StreamBytes([], stringIdsSize)| == 1
  {
  }

  lemma FirstInst(xs: seq<Inst>, stringIdsSize: U4)
    requires AllLegal(xs, stringIdsSize) && xs != []
    ensures xs[0].Legal(stringIdsSize) && !xs[0].End? && AllLegal(xs[1..], stringIdsSize)
    ensures StreamBytes(xs, stringIdsSize) == xs[0].Bytes() + StreamBytes(xs[1..], stringIdsSize)
  {
    hide Inst.Bytes;
  }

  /** Every written stream is accepted, up to the byte behind its end, and unless it sets a file the
      decoder reads exactly its operations. */
  lemma {:induction false} StreamRead(m: seq<Byte>, e: Env, p: nat, xs: seq<Inst>)
    requires AllLegal(xs, e.stringIdsSize) && InFile(m, e, p, StreamBytes(xs, e.stringIdsSize))
    ensures VerifiedOps(m, e, p) == Some(p + |StreamBytes(xs, e.stringIdsSize)|)
    ensures NoSetFile(m, e, p) <==> !SetsFile(xs)
    ensures !SetsFile(xs) ==> Ops(m, p) == Some(Meanings(xs))
    decreases |xs|
  {
    hide Inst.Bytes, InFile, ReadBack, VerifiedOps, NoSetFile, Ops, Inst.Meaning;
    if xs == [] {
      EndRead(m, e, p);
      OnlyEnd(e.stringIdsSize);
    } else {
      var i, rest := xs[0], xs[1..];
      FirstInst(xs, e.stringIdsSize);
      hide StreamBytes, AllLegal, Inst.Legal;
      var n := |i.Bytes()|;
      FileParts(m, e, p, i.Bytes(), StreamBytes(rest, e.stringIdsSize));
      InstRead(m, e, p, i);
      StreamRead(m, e, p + n, rest);
      OneMoreRead(m, e, p, i, n, p + n + |StreamBytes(rest, e.stringIdsSize)|);
      if !SetsFile(xs) {
        OneMoreDecoded(m, e, p, i, n, Meanings(rest));
      }
    }
  }

  // ----- Reading a whole item -----

  function NamesBytes(names: seq<Option<U4>>): seq<Byte> {
    if names == [] then [] else Plus1(names[0]) + NamesBytes(names[1..])
  }

  predicate AllOk(names: seq<Option<U4>>, size: U4) {
    names == [] || (Ok(names[0], size) && AllOk(names[1..], size))
  }

  datatype Item = Item(line: U4, names: seq<Option<U4>>, insts: seq<Inst>) {
    predicate Legal(stringIdsSize: U4) {
      |names| <= 65536 && AllOk(names, stringIdsSize) && AllLegal(insts, stringIdsSize)
    }

    function Bytes(stringIdsSize: U4): seq<Byte>
      requires Legal(stringIdsSize)
    {
      Leb128.Encode(line) + (Leb128.Encode(|names|) + (NamesBytes(names) + StreamBytes(insts, stringIdsSize)))
    }
  }

  lemma InFileEnd(m: seq<Byte>, e: Env, p: nat, bytes: seq<Byte>)
    requires InFile(m, e, p, bytes)
    ensures Readable(m, e.fileEnd) && p + |bytes| <= e.fileEnd
  {
  }

  lemma NoNames(m: seq<Byte>, e: Env, p: nat)
    requires Readable(m, e.fileEnd) && p <= e.fileEnd
    ensures VerifiedNames(m, e, p, 0) == Some(p)
  {
  }

  lemma NamesStep(m: seq<Byte>, e: Env, p: nat, n: nat)
    requires Readable(m, e.fileEnd) && p <= e.fileEnd && n > 0 && IndexOk(m, e, p)
    ensures Leb128.After(m, p) <= e.fileEnd
    ensures VerifiedNames(m, e, p, n) == VerifiedNames(m, e, Leb128.After(m, p), n - 1)
  {
    hide Leb128.Unsigned, Leb128.Size;
  }

  lemma {:induction false} NamesRead(m: seq<Byte>, e: Env, p: nat, names: seq<Option<U4>>)
    requires InFile(m, e, p, NamesBytes(names)) && AllOk(names, e.stringIdsSize)
    ensures Readable(m, e.fileEnd) && p <= e.fileEnd
    ensures VerifiedNames(m, e, p, |names|) == Some(p + |NamesBytes(names)|)
    decreases |names|
  {
    hide Ok, Plus1, InFile, VerifiedNames, IndexOk, Leb128.Encode, Leb128.Size, Leb128.Unsigned;
    InFileEnd(m, e, p, NamesBytes(names));
    if names == [] {
      NoNames(m, e, p);
    } else {
      var first, rest := Plus1(names[0]), NamesBytes(names[1..]);
      FileParts(m, e, p, first, rest);
      IndexRead(m, e, p, names[0]);
      NamesRead(m, e, p + |first|, names[1..]);
      NamesStep(m, e, p, |names|);
    }
  }

  lemma HeaderIs(m: seq<Byte>, e: Env, p: nat)
    requires Readable(m, e.fileEnd) && p <= e.fileEnd && Leb128.Valid(m, p, e.fileEnd)
    requires Leb128.Valid(m, Leb128.After(m, p), e.fileEnd) && Leb128.Unsigned(m, Leb128.After(m, p)) <= 65536
    ensures var sizeAt := Leb128.After(m, p);
      && Leb128.After(m, sizeAt) <= e.fileEnd
      && VerifiedHeader(m, e, p) == VerifiedNames(m, e, Leb128.After(m, sizeAt), Leb128.Unsigned(m, sizeAt))
  {
    hide Leb128.Unsigned, Leb128.Size;
  }

  /** Where the operations of a written item stand. */
  function StreamAt(p: nat, w: Item): nat {
    p + |Leb128.Encode(w.line)| + |Leb128.Encode(|w.names|)| + |NamesBytes(w.names)|
  }

  lemma HeaderRead(m: seq<Byte>, e: Env, p: nat, w: Item)
    requires w.Legal(e.stringIdsSize) && InFile(m, e, p, w.Bytes(e.stringIdsSize))
    ensures Readable(m, e.fileEnd) && p <= e.fileEnd && p + 5 <= |m| && Leb128.Unsigned(m, p) == w.line
    ensures VerifiedHeader(m, e, p) == Some(StreamAt(p, w))
  {
    hide Item.Bytes, Item.Legal, NamesBytes, Leb128.Encode, VerifiedNames, VerifiedHeader, InFile, Leb128.Size;
    hide AllLegal, AllOk, Leb128.Unsigned, Leb128.Valid, StreamBytes;
    InFileEnd(m, e, p, w.Bytes(e.stringIdsSize));
    ItemParts(m, e, p, w);
    var q: nat := p + |Leb128.Encode(w.line)|;
    var r: nat := q + |Leb128.Encode(|w.names|)|;
    NumberRead(m, e, p, w.line);
    NumberRead(m, e, q, |w.names|);
    HeaderIs(m, e, p);
    NamesRead(m, e, r, w.names);
  }

  /** A legal item is accepted wherever it is written, up to its end; the decoder finds the line, and
      without a file to set, the operations that were written. */
  lemma ItemRead(m: seq<Byte>, e: Env, p: nat, w: Item)
    requires w.Legal(e.stringIdsSize) && InFile(m, e, p, w.Bytes(e.stringIdsSize))
    ensures Readable(m, e.fileEnd) && p <= e.fileEnd && p + 5 <= |m| && Leb128.Unsigned(m, p) == w.line
    ensures VerifiedHeader(m, e, p) == Some(StreamAt(p, w))
    ensures VerifiedOps(m, e, StreamAt(p, w)) == Some(p + |w.Bytes(e.stringIdsSize)|)
    ensures AcceptedStream(m, e, StreamAt(p, w)) <==> !SetsFile(w.insts)
    ensures !SetsFile(w.insts) ==> Ops(m, StreamAt(p, w)) == Some(Meanings(w.insts))
  {
    hide Item.Bytes, NamesBytes, StreamBytes, Leb128.Encode, VerifiedHeader, InFile, AllLegal, AllOk, Readable, Ops;
    hide VerifiedOps, NoSetFile, Meanings, SetsFile, Leb128.Unsigned;
    HeaderRead(m, e, p, w);
    ItemParts(m, e, p, w);
    StreamRead(m, e, StreamAt(p, w), w.insts);
  }

  lemma ItemParts(m: seq<Byte>, e: Env, p: nat, w: Item)
    requires w.Legal(e.stringIdsSize) && InFile(m, e, p, w.Bytes(e.stringIdsSize))
    ensures |w.names| <= 65536 && AllOk(w.names, e.stringIdsSize) && AllLegal(w.insts, e.stringIdsSize)
    ensures InFile(m, e, p, Leb128.Encode(w.line))
    ensures var q := p + |Leb128.Encode(w.line)|;
      var r := q + |Leb128.Encode(|w.names|)|;
      var s := r + |NamesBytes(w.names)|;
      && InFile(m, e, q, Leb128.Encode(|w.names|)) && InFile(m, e, r, NamesBytes(w.names))
      && InFile(m, e, s, StreamBytes(w.insts, e.stringIdsSize))
      && s + |StreamBytes(w.insts, e.stringIdsSize)| == p + |w.Bytes(e.stringIdsSize)|
  {
    var names, stream := NamesBytes(w.names), StreamBytes(w.insts, e.stringIdsSize);
    var a, b := Leb128.Encode(w.line), Leb128.Encode(|w.names|);
    assert w.Bytes(e.stringIdsSize) == a + (b + (names + stream));
    hide InFile, StreamBytes, NamesBytes, Leb128.Encode, AllLegal, AllOk, Item.Bytes;
    FileParts(m, e, p, a, b + (names + stream));
    FileParts(m, e, p + |a|, b, names + stream);
    FileParts(m, e, p + |a| + |b|, names, stream);
  }
}
