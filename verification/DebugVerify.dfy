/** The verifier of debug_info_item (intraVerifyDebugInfoItem in libdex/DexSwapVerify.cpp), and
    what an accepted item is worth to the decoder. */
module DebugVerify {
  import opened Memory
  import opened DebugInfoSpec
  import opened DebugInfo
  import Leb128

  datatype Env = Env(fileEnd: nat, stringIdsSize: U4, typeIdsSize: U4)

  /** An index with 1 added to it, or 0. */
  predicate IndexOk(m: seq<Byte>, e: Env, p: nat)
    requires p + 5 <= |m|
  {
    Leb128.Valid(m, p, e.fileEnd) && (Leb128.Unsigned(m, p) == 0 || Leb128.Unsigned(m, p) - 1 < e.stringIdsSize)
  }

  predicate RegOk(m: seq<Byte>, e: Env, p: nat)
    requires p + 5 <= |m|
  {
    Leb128.Valid(m, p, e.fileEnd) && Leb128.Unsigned(m, p) < 0x1_0000
  }

  /** Where the operation at p ends, if the verifier accepts it. */
  function VerifiedEnd(m: seq<Byte>, e: Env, p: nat): (q: Option<nat>)
    requires p + LONGEST <= |m|
    ensures q.Some? ==> p < q.value <= p + LONGEST
  {
    var opcode: int, a := m[p], p + 1;
    if opcode == DBG_ADVANCE_PC || opcode == DBG_ADVANCE_LINE then
      if Leb128.Valid(m, a, e.fileEnd) then Some(Leb128.After(m, a)) else None
    else if opcode == DBG_START_LOCAL || opcode == DBG_START_LOCAL_EXTENDED then
      var name := Leb128.After(m, a);
      var descriptor := Leb128.After(m, name);
      var signature := Leb128.After(m, descriptor);
      if !RegOk(m, e, a) || !IndexOk(m, e, name) || !IndexOk(m, e, descriptor) then None
      else if opcode == DBG_START_LOCAL then Some(signature)
      else if IndexOk(m, e, signature) then Some(Leb128.After(m, signature)) else None
    else if opcode == DBG_END_LOCAL || opcode == DBG_RESTART_LOCAL then
      if RegOk(m, e, a) then Some(Leb128.After(m, a)) else None
    else if opcode == DBG_SET_FILE then
      if IndexOk(m, e, a) then Some(Leb128.After(m, a)) else None
    else Some(a)
  }

  /** Where the verifier stops: behind DBG_END_SEQUENCE. */
  function VerifiedOps(m: seq<Byte>, e: Env, p: nat): Option<nat>
    decreases |m| - p
  {
    if p + LONGEST > |m| || VerifiedEnd(m, e, p).None? then None
    else if m[p] == DBG_END_SEQUENCE then VerifiedEnd(m, e, p)
    else VerifiedOps(m, e, VerifiedEnd(m, e, p).value)
  }

  /** Opcodes are read without a look at the limit. The walk has to stop in readable memory. */
  predicate StopsInMemory(m: seq<Byte>, e: Env, p: nat)
    decreases |m| - p
  {
    && p + LONGEST <= |m|
    && (VerifiedEnd(m, e, p).None? || m[p] == DBG_END_SEQUENCE || StopsInMemory(m, e, VerifiedEnd(m, e, p).value))
  }

  /** The walk comes to the end of the file without having met the end of the sequence. */
  predicate ReachesEnd(m: seq<Byte>, e: Env, p: nat)
    requires p <= e.fileEnd && e.fileEnd + LONGEST <= |m|
    decreases |m| - p
  {
    p == e.fileEnd ||
    (VerifiedEnd(m, e, p).Some? && m[p] != DBG_END_SEQUENCE &&
     (EndsInFile(m, e, p); ReachesEnd(m, e, VerifiedEnd(m, e, p).value)))
  }

  lemma EndsInFile(m: seq<Byte>, e: Env, p: nat)
    requires p < e.fileEnd && e.fileEnd + LONGEST <= |m| && VerifiedEnd(m, e, p).Some?
    ensures VerifiedEnd(m, e, p).value <= e.fileEnd
  {
    hide Leb128.Size, Leb128.Unsigned;
  }

  /** The same file, whatever stands behind it. */
  ghost predicate SameFile(m: seq<Byte>, m': seq<Byte>, e: Env) {
    e.fileEnd + LONGEST <= |m| == |m'| && m[..e.fileEnd] == m'[..e.fileEnd]
  }

  lemma SameNumber(m: seq<Byte>, m': seq<Byte>, e: Env, p: nat)
    requires SameFile(m, m', e) && p + 5 <= |m|
    ensures Leb128.Valid(m, p, e.fileEnd) == Leb128.Valid(m', p, e.fileEnd)
    ensures Leb128.Valid(m, p, e.fileEnd) ==> Leb128.After(m, p) == Leb128.After(m', p)
    ensures RegOk(m, e, p) == RegOk(m', e, p) && IndexOk(m, e, p) == IndexOk(m', e, p)
    ensures RegOk(m, e, p) || IndexOk(m, e, p) ==> Leb128.After(m, p) == Leb128.After(m', p)
  {
    forall q | 0 <= q < e.fileEnd ensures m[q] == m'[q] {
      assert m[..e.fileEnd][q] == m'[..e.fileEnd][q];
    }
    if Leb128.Valid(m, p, e.fileEnd) || Leb128.Valid(m', p, e.fileEnd) {
      var n := Leb128.Size(m, p);
      assert n == Leb128.Size(m', p);
      hide Leb128.Size;
      SameGroups(m, m', p, n);
    }
  }

  lemma {:induction false} SameGroups(m: seq<Byte>, m': seq<Byte>, p: nat, n: nat)
    requires p + n <= |m| == |m'| && forall q | p <= q < p + n :: m[q] == m'[q]
    ensures Leb128.Groups(m, p, n) == Leb128.Groups(m', p, n)
    decreases n
  {
    if n > 0 {
      SameGroups(m, m', p + 1, n - 1);
    }
  }

  lemma SameVerifiedEnd(m: seq<Byte>, m': seq<Byte>, e: Env, p: nat)
    requires SameFile(m, m', e) && p < e.fileEnd
    ensures m[p] == m'[p] && VerifiedEnd(m, e, p) == VerifiedEnd(m', e, p)
  {
    assert m[..e.fileEnd][p] == m'[..e.fileEnd][p];
    hide Leb128.Unsigned, Leb128.Valid, Leb128.Size, SameFile, RegOk, IndexOk;
    var name := Leb128.After(m, p + 1);
    var descriptor := Leb128.After(m, name);
    SameNumber(m, m', e, p + 1);
    SameNumber(m, m', e, name);
    SameNumber(m, m', e, descriptor);
    SameNumber(m, m', e, Leb128.After(m, descriptor));
  }

  /** A walk that keeps in the file stops in memory, and what is behind does not change its answer. */
  lemma {:induction false} StaysInFile(m: seq<Byte>, m': seq<Byte>, e: Env, p: nat)
    requires p <= e.fileEnd && SameFile(m, m', e) && !ReachesEnd(m, e, p)
    ensures StopsInMemory(m, e, p) && VerifiedOps(m, e, p) == VerifiedOps(m', e, p)
    decreases |m| - p
  {
    SameVerifiedEnd(m, m', e, p);
    hide VerifiedEnd;
    if VerifiedEnd(m, e, p).Some? && m[p] != DBG_END_SEQUENCE {
      EndsInFile(m, e, p);
      StaysInFile(m, m', e, VerifiedEnd(m, e, p).value);
    }
  }

  /** A walk that comes to the end of the file goes on there. */
  lemma {:induction false} GoesOnAtTheEnd(m: seq<Byte>, m': seq<Byte>, e: Env, p: nat)
    requires p <= e.fileEnd && SameFile(m, m', e) && ReachesEnd(m, e, p)
    ensures VerifiedOps(m', e, p) == VerifiedOps(m', e, e.fileEnd)
    decreases |m| - p
  {
    if p < e.fileEnd {
      SameVerifiedEnd(m, m', e, p);
      EndsInFile(m, e, p);
      hide VerifiedEnd;
      GoesOnAtTheEnd(m, m', e, VerifiedEnd(m, e, p).value);
    }
  }

  ghost predicate FileDecides(m: seq<Byte>, e: Env, p: nat) {
    forall m' | SameFile(m, m', e) :: VerifiedOps(m', e, p) == VerifiedOps(m, e, p)
  }

  /** Opcodes are read without a look at the limit. The answer depends on what stands behind the
      file exactly if the walk comes to the end of the file. */
  lemma FileDecidesExactly(m: seq<Byte>, e: Env, p: nat)
    requires p <= e.fileEnd && e.fileEnd + LONGEST <= |m|
    ensures FileDecides(m, e, p) <==> !ReachesEnd(m, e, p)
    ensures !ReachesEnd(m, e, p) ==> StopsInMemory(m, e, p)
  {
    if ReachesEnd(m, e, p) {
      var m0, m1 := m[e.fileEnd := DBG_END_SEQUENCE], m[e.fileEnd := DBG_ADVANCE_PC];
      assert m0[..e.fileEnd] == m[..e.fileEnd] == m1[..e.fileEnd];
      GoesOnAtTheEnd(m, m0, e, p);
      GoesOnAtTheEnd(m, m1, e, p);
      assert VerifiedEnd(m1, e, e.fileEnd).None?;
      assert VerifiedOps(m0, e, e.fileEnd) == Some(e.fileEnd + 1);
      assert VerifiedOps(m1, e, e.fileEnd) == None;
    } else {
      StaysInFile(m, m, e, p);
      forall m' | SameFile(m, m', e) ensures VerifiedOps(m', e, p) == VerifiedOps(m, e, p) {
        StaysInFile(m, m', e, p);
      }
    }
  }

  /** Such a stream: special opcodes up to the end of the file. */
  lemma {:induction false} SpecialsReachTheEnd(m: seq<Byte>, e: Env, p: nat)
    requires p <= e.fileEnd && e.fileEnd + LONGEST <= |m|
    requires forall q | p <= q < e.fileEnd :: m[q] >= DBG_FIRST_SPECIAL
    ensures ReachesEnd(m, e, p) && !FileDecides(m, e, p)
    decreases e.fileEnd - p
  {
    if p < e.fileEnd {
      assert VerifiedEnd(m, e, p) == Some(p + 1);
      SpecialsReachTheEnd(m, e, p + 1);
    }
    FileDecidesExactly(m, e, p);
  }

  /** n parameter names. */
  function VerifiedNames(m: seq<Byte>, e: Env, p: nat, n: nat): (q: Option<nat>)
    requires Readable(m, e.fileEnd) && p <= e.fileEnd
    ensures q.Some? ==> q.value <= e.fileEnd
    decreases n
  {
    if n == 0 then Some(p)
    else if !IndexOk(m, e, p) then None
    else VerifiedNames(m, e, Leb128.After(m, p), n - 1)
  }

  /** The place where the operations start, if everything before them is in order. */
  function VerifiedHeader(m: seq<Byte>, e: Env, p: nat): (q: Option<nat>)
    requires Readable(m, e.fileEnd) && p <= e.fileEnd
    ensures q.Some? ==> q.value <= e.fileEnd
  {
    if !Leb128.Valid(m, p, e.fileEnd) then None
    else
      var sizeAt := Leb128.After(m, p);
      if !Leb128.Valid(m, sizeAt, e.fileEnd) || Leb128.Unsigned(m, sizeAt) > 65536 then None
      else VerifiedNames(m, e, Leb128.After(m, sizeAt), Leb128.Unsigned(m, sizeAt))
  }

  // ----- Where the decoder reads what was verified -----

  predicate NoSetFile(m: seq<Byte>, e: Env, p: nat)
    requires VerifiedOps(m, e, p).Some?
    decreases |m| - p
  {
    m[p] != DBG_SET_FILE && (m[p] == DBG_END_SEQUENCE || NoSetFile(m, e, VerifiedEnd(m, e, p).value))
  }

  ghost predicate AcceptedStream(m: seq<Byte>, e: Env, p: nat) {
    VerifiedOps(m, e, p).Some? && NoSetFile(m, e, p)
  }

  /** Of the operations that are accepted, DBG_SET_FILE alone ends elsewhere for the decoder. */
  lemma EndsAgreeExactly(m: seq<Byte>, e: Env, p: nat)
    requires p + LONGEST <= |m| && VerifiedEnd(m, e, p).Some?
    ensures OpEnd(m, p) == VerifiedEnd(m, e, p).value <==> m[p] != DBG_SET_FILE
    ensures m[p] == DBG_SET_FILE ==> OpEnd(m, p) == p + 1 < VerifiedEnd(m, e, p).value
    ensures OpAt(m, p) == EndSequence <==> m[p] == DBG_END_SEQUENCE
  {
    hide Leb128.Size, Leb128.Unsigned, Leb128.Valid;
    hide IndexOk, RegOk;
  }

  /** The places of the opcodes, for the verifier and for the decoder. */
  function VerifiedStarts(m: seq<Byte>, e: Env, p: nat): seq<nat>
    requires VerifiedOps(m, e, p).Some?
    decreases |m| - p
  {
    [p] + if m[p] == DBG_END_SEQUENCE then [] else VerifiedStarts(m, e, VerifiedEnd(m, e, p).value)
  }

  function DecodedStarts(m: seq<Byte>, p: nat): Option<seq<nat>>
    decreases |m| - p
  {
    if p + LONGEST > |m| then None
    else if OpAt(m, p) == EndSequence then Some([p])
    else match DecodedStarts(m, OpEnd(m, p)) case None => None case Some(rest) => Some([p] + rest)
  }

  /** Where the decoder stops: behind its first DBG_END_SEQUENCE. */
  function DecodedEnd(m: seq<Byte>, p: nat): (q: Option<nat>)
    ensures q.Some? ==> p < q.value
    decreases |m| - p
  {
    if p + LONGEST > |m| then None
    else if OpAt(m, p) == EndSequence then Some(p + 1)
    else DecodedEnd(m, OpEnd(m, p))
  }

  lemma FirstStart(m: seq<Byte>, e: Env, p: nat)
    ensures VerifiedOps(m, e, p).Some? ==> VerifiedStarts(m, e, p)[0] == p
    ensures DecodedStarts(m, p).Some? ==> DecodedStarts(m, p).value != [] && DecodedStarts(m, p).value[0] == p
  {
  }

  /** In an accepted stream the decoder finds the verifier's opcodes, all of them and no others,
      exactly if there is no DBG_SET_FILE. */
  lemma {:induction false} BoundariesAgreeExactly(m: seq<Byte>, e: Env, p: nat)
    requires VerifiedOps(m, e, p).Some?
    ensures DecodedStarts(m, p) == Some(VerifiedStarts(m, e, p)) <==> NoSetFile(m, e, p)
    decreases |m| - p
  {
    EndsAgreeExactly(m, e, p);
    hide OpAt, OpEnd, VerifiedEnd;
    if m[p] == DBG_END_SEQUENCE {
      assert VerifiedStarts(m, e, p) == [p];
    } else {
      var next, next' := VerifiedEnd(m, e, p).value, OpEnd(m, p);
      var rest, rest' := VerifiedStarts(m, e, next), DecodedStarts(m, next');
      assert VerifiedStarts(m, e, p) == [p] + rest;
      assert rest'.Some? ==> DecodedStarts(m, p) == Some([p] + rest'.value);
      if m[p] == DBG_SET_FILE {
        FirstStart(m, e, next);
        FirstStart(m, e, next');
        assert ([p] + rest)[1] == next;
        assert rest'.Some? ==> ([p] + rest'.value)[1] == next';
      } else {
        BoundariesAgreeExactly(m, e, next);
        assert ([p] + rest)[1..] == rest;
        assert rest'.Some? ==> ([p] + rest'.value)[1..] == rest'.value;
      }
    }
  }

  /** The first DBG_SET_FILE of an accepted stream. */
  function FirstSetFile(m: seq<Byte>, e: Env, p: nat): (q: nat)
    requires VerifiedOps(m, e, p).Some? && !NoSetFile(m, e, p)
    ensures q < |m| && m[q] == DBG_SET_FILE && VerifiedOps(m, e, q) == VerifiedOps(m, e, p)
    decreases |m| - p
  {
    if m[p] == DBG_SET_FILE then p else FirstSetFile(m, e, VerifiedEnd(m, e, p).value)
  }

  /** Up to there the decoder follows. */
  lemma {:induction false} SameUpToSetFile(m: seq<Byte>, e: Env, p: nat)
    requires VerifiedOps(m, e, p).Some? && !NoSetFile(m, e, p)
    ensures DecodedEnd(m, p) == DecodedEnd(m, FirstSetFile(m, e, p))
    decreases |m| - p
  {
    EndsAgreeExactly(m, e, p);
    hide OpAt, OpEnd, VerifiedEnd;
    if m[p] != DBG_SET_FILE {
      SameUpToSetFile(m, e, VerifiedEnd(m, e, p).value);
    }
  }

  /** The verifier only ends behind the opcode it ends with. */
  lemma {:induction false} EndsAfter(m: seq<Byte>, e: Env, p: nat)
    requires VerifiedOps(m, e, p).Some?
    ensures p < VerifiedOps(m, e, p).value && VerifiedOps(m, e, p).value - 1 + LONGEST <= |m|
    ensures m[VerifiedOps(m, e, p).value - 1] == DBG_END_SEQUENCE
    decreases |m| - p
  {
    if m[p] != DBG_END_SEQUENCE {
      EndsAfter(m, e, VerifiedEnd(m, e, p).value);
    }
  }

  /** The argument of a DBG_SET_FILE before the end is taken for an opcode: zero ends the stream
      early, an opcode without arguments does no harm to the end, and any other one swallows it. */
  lemma SwallowsTheEndExactly(m: seq<Byte>, e: Env, p: nat, end: nat)
    requires VerifiedOps(m, e, p) == Some(end) && !NoSetFile(m, e, p) && FirstSetFile(m, e, p) == end - 3
    ensures DecodedEnd(m, p) == Some(end) <==> m[end - 2] > DBG_RESTART_LOCAL
    ensures DecodedEnd(m, p) == Some(end - 1) <==> m[end - 2] == DBG_END_SEQUENCE
    ensures DecodedEnd(m, p).None? || DecodedEnd(m, p).value > end <==> DBG_END_SEQUENCE < m[end - 2] <= DBG_RESTART_LOCAL
  {
    EndsAfter(m, e, p);
    SameUpToSetFile(m, e, p);
    hide VerifiedOps, NoSetFile, FirstSetFile, VerifiedEnd, DecodedEnd;
    ArgumentAsOpcode(m, end - 2);
    SetFileIsSkipped(m, end - 3);
  }

  lemma SetFileIsSkipped(m: seq<Byte>, p: nat)
    requires p + LONGEST <= |m| && m[p] == DBG_SET_FILE
    ensures DecodedEnd(m, p) == DecodedEnd(m, p + 1)
  {
  }

  lemma ArgumentAsOpcode(m: seq<Byte>, p: nat)
    requires p + 1 + LONGEST <= |m| && m[p + 1] == DBG_END_SEQUENCE
    ensures m[p] == DBG_END_SEQUENCE ==> DecodedEnd(m, p) == Some(p + 1)
    ensures m[p] > DBG_RESTART_LOCAL ==> DecodedEnd(m, p) == Some(p + 2)
    ensures DBG_END_SEQUENCE < m[p] <= DBG_RESTART_LOCAL ==> DecodedEnd(m, p).None? || DecodedEnd(m, p).value > p + 2
  {
    hide Leb128.Unsigned, Leb128.Signed;
    assert DecodedEnd(m, p + 1) == Some(p + 2);
  }

  /** Such a stream: set file 4, end. The decoder ends local v0 instead and goes on. */
  lemma SetFileIsMisread(e: Env)
    requires e.fileEnd >= 2 && e.stringIdsSize >= 5
    ensures var m: seq<Byte> := [DBG_SET_FILE, DBG_END_LOCAL, DBG_END_SEQUENCE] + seq(32, _ => 0);
      && VerifiedOps(m, e, 0) == Some(3)
      && Ops(m, 0) == Some([NoEffect, EndLocal(0), EndSequence]) && DecodedEnd(m, 0) == Some(4)
  {
    var m: seq<Byte> := [DBG_SET_FILE, DBG_END_LOCAL, DBG_END_SEQUENCE] + seq(32, _ => 0);
    assert VerifiedEnd(m, e, 0) == Some(2) && VerifiedEnd(m, e, 2) == Some(3);
    assert VerifiedOps(m, e, 2) == Some(3);
    assert OpAt(m, 0) == NoEffect && OpEnd(m, 0) == 1;
    assert OpAt(m, 1) == EndLocal(0) && OpEnd(m, 1) == 3;
    assert OpAt(m, 3) == EndSequence;
    OpsStep(m, 1, [EndSequence], [EndLocal(0), EndSequence]);
    OpsStep(m, 0, [EndLocal(0), EndSequence], [NoEffect, EndLocal(0), EndSequence]);
    hide OpAt, OpEnd, VerifiedEnd;
    assert DecodedEnd(m, 3) == Some(4) && DecodedEnd(m, 1) == Some(4);
  }

  // ----- What an accepted item is worth -----

  predicate TextOk(text: Text, limit: U4) {
    match text
    case Null => true
    case StringId(idx) => idx < limit
    case TypeId(idx) => idx < limit
    case _ => false
  }

  /** Types, too, have been compared with the number of strings. */
  predicate TextsOk(op: Op, limit: U4) {
    op.StartLocal? ==> TextOk(op.name, limit) && TextOk(op.descriptor, limit) && TextOk(op.signature, limit)
  }

  /** Apart from DBG_SET_FILE the decoder reads an operation as the verifier did. */
  lemma SameReading(m: seq<Byte>, e: Env, p: nat)
    requires p + LONGEST <= |m| && m[p] != DBG_SET_FILE && VerifiedEnd(m, e, p).Some?
    ensures OpEnd(m, p) == VerifiedEnd(m, e, p).value && TextsOk(OpAt(m, p), e.stringIdsSize)
    ensures OpAt(m, p) == EndSequence <==> m[p] == DBG_END_SEQUENCE
    ensures OpAt(m, p).StartLocal? || OpAt(m, p).EndLocal? || OpAt(m, p).RestartLocal? ==>
      OpAt(m, p).reg == Leb128.Unsigned(m, p + 1)
  {
    hide Leb128.Size, Leb128.Unsigned, Leb128.Valid;
  }

  lemma {:induction false} AcceptedOps(m: seq<Byte>, e: Env, p: nat)
    requires VerifiedOps(m, e, p).Some? && NoSetFile(m, e, p)
    ensures Ops(m, p).Some? && forall i | 0 <= i < |Ops(m, p).value| :: TextsOk(Ops(m, p).value[i], e.stringIdsSize)
    decreases |m| - p
  {
    SameReading(m, e, p);
    hide OpAt, OpEnd, VerifiedEnd, TextsOk;
    if m[p] != DBG_END_SEQUENCE {
      AcceptedOps(m, e, VerifiedEnd(m, e, p).value);
    }
  }

  /** The decoder stops at the names that the verifier read, or earlier and for good. */
  lemma {:induction false} AcceptedNames(m: seq<Byte>, e: Env, code: Code, p: nat, n: nat, k: nat, argReg: U2, s: State)
    requires Readable(m, e.fileEnd) && p <= e.fileEnd
    requires VerifiedNames(m, e, p, n).Some? && |s.regs| == code.registersSize
    ensures var r := Parameters(m, code, p, n, k, argReg, s);
      !r.Unreadable? && (r.Ready? ==> r.p == VerifiedNames(m, e, p, n).value)
    decreases n
  {
    hide Leb128.Size, Leb128.Unsigned;
    if n > 0 && argReg < code.registersSize && k < |code.params| {
      var name, param := StringText(Leb128.Unsigned(m, p)), code.params[k];
      var s' := if name == Null then s else Begin(s, argReg, name, TypeId(param.typeIdx), Null);
      AcceptedNames(m, e, code, Leb128.After(m, p), n - 1, k + 1, NextArg(argReg, param), s');
    }
  }

  /** An accepted item without DBG_SET_FILE is one the decoder can read, whatever the code. It meets
      the decoder's precondition exactly if what is executed stays in the table of registers. */
  lemma AcceptedIsDecodable(m: seq<Byte>, e: Env, p: nat, code: Code, done: Done)
    requires Readable(m, e.fileEnd) && p <= e.fileEnd && ArgumentsFit(code)
    requires VerifiedHeader(m, e, p).Some? && AcceptedStream(m, e, VerifiedHeader(m, e, p).value)
    ensures !Start(m, p, code).Unreadable?
    ensures var q, r := VerifiedHeader(m, e, p).value, Start(m, p, code);
      && Ops(m, q).Some? && (r.Ready? ==> r.p == q)
      && (forall i | 0 <= i < |Ops(m, q).value| :: TextsOk(Ops(m, q).value[i], e.stringIdsSize))
      && (WellFormed(m, p, code, done) <==> (r.Ready? ==> StaysInTable(r.s, Ops(m, q).value, done)))
      && (AllInRange(Ops(m, q).value, code.registersSize) ==> WellFormed(m, p, code, done))
  {
    var q, r := VerifiedHeader(m, e, p).value, Start(m, p, code);
    AcceptedOps(m, e, q);
    hide Ops, Executed, OpAt, TextsOk, Parameters, VerifiedOps, VerifiedNames, NoSetFile, Leb128.Unsigned, StaysInTable;
    var sizeAt := Leb128.After(m, p);
    AcceptedNames(m, e, code, Leb128.After(m, sizeAt), Leb128.Unsigned(m, sizeAt), 0, FirstArg(code),
                  WithThis(code, Leb128.Unsigned(m, p)));
    StartRegs(m, p, code);
    if r.Ready? {
      ExecutedExactly(m, q, r.s, done);
      if AllInRange(Ops(m, q).value, code.registersSize) {
        InRangeStays(r.s, Ops(m, q).value, done);
      }
    }
  }

  /** A callback that never ends the decoding. */
  const NEVER: Done := _ => false

  lemma {:induction false} NeverGoesFurthest(s: State, ops: seq<Op>, done: Done)
    requires StaysInTable(s, ops, NEVER)
    ensures StaysInTable(s, ops, done)
    decreases |ops|
  {
    if ops != [] {
      var (s', stop) := Step(s, ops[0], done);
      if !stop {
        assert Step(s, ops[0], NEVER) == (s', false);
        hide Step;
        NeverGoesFurthest(s', ops[1..], done);
      }
    }
  }

  /** Whether an accepted item keeps to the table whatever the callback wants is settled by the
      callback that wants nothing. */
  lemma NeverDecides(m: seq<Byte>, e: Env, p: nat, code: Code)
    requires Readable(m, e.fileEnd) && p <= e.fileEnd && ArgumentsFit(code)
    requires VerifiedHeader(m, e, p).Some? && AcceptedStream(m, e, VerifiedHeader(m, e, p).value)
    ensures WellFormed(m, p, code, NEVER) <==> forall done :: WellFormed(m, p, code, done)
  {
    AcceptedIsDecodable(m, e, p, code, NEVER);
    forall done | WellFormed(m, p, code, NEVER) ensures WellFormed(m, p, code, done) {
      AcceptedIsDecodable(m, e, p, code, done);
      hide WellFormed, VerifiedHeader, AcceptedStream, Ops, StaysInTable;
      if Start(m, p, code).Ready? {
        NeverGoesFurthest(Start(m, p, code).s, Ops(m, VerifiedHeader(m, e, p).value).value, done);
      }
    }
  }

  /** No line, no names, end a local, end. */
  function RegItem(reg: nat, fileEnd: nat): seq<Byte> {
    [0, 0, DBG_END_LOCAL] + Leb128.Encode(reg) + seq(1 + fileEnd + LONGEST, _ => 0)
  }

  lemma RegItemAt(e: Env, reg: U2)
    requires e.fileEnd >= 6
    ensures var m, end := RegItem(reg, e.fileEnd), 3 + |Leb128.Encode(reg)|;
      && end + LONGEST <= |m| && Readable(m, e.fileEnd) && m[0] == m[1] == 0 && m[end] == DBG_END_SEQUENCE
      && m[2] == DBG_END_LOCAL && VerifiedEnd(m, e, 2) == Some(end)
      && OpAt(m, 2) == EndLocal(reg) && OpEnd(m, 2) == end
  {
    hide Leb128.Encode, Leb128.Unsigned, Leb128.Size, Leb128.Valid;
    var m, enc := RegItem(reg, e.fileEnd), Leb128.Encode(reg);
    Leb128.EncodeLength(reg);
    Between([0, 0, DBG_END_LOCAL], enc, seq(1 + e.fileEnd + LONGEST, _ => 0));
    hide RegItem;
    Leb128.RoundTrip(reg, m, 3, e.fileEnd);
    EndLocalAt(m, e, reg, |enc|);
  }

  lemma Between(a: seq<Byte>, b: seq<Byte>, c: seq<Byte>)
    requires |a| >= 3 && c != []
    ensures var m := a + b + c;
      && |m| == |a| + |b| + |c| && m[0] == a[0] && m[1] == a[1] && m[2] == a[2]
      && m[|a|..|a| + |b|] == b && m[|a| + |b|] == c[0]
  {
  }

  /** end a local, by its parts. */
  lemma EndLocalAt(m: seq<Byte>, e: Env, reg: U2, n: nat)
    requires 2 + LONGEST <= |m| && m[2] == DBG_END_LOCAL
    requires Leb128.Unsigned(m, 3) == reg && Leb128.Size(m, 3) == n && Leb128.Valid(m, 3, e.fileEnd)
    ensures VerifiedEnd(m, e, 2) == Some(3 + n) && OpAt(m, 2) == EndLocal(reg) && OpEnd(m, 2) == 3 + n
  {
    hide Leb128.Unsigned, Leb128.Size, Leb128.Valid;
  }

  /** The verifier accepts it for every register. */
  lemma RegItemAccepted(e: Env, reg: U2)
    requires e.fileEnd >= 6
    ensures Readable(RegItem(reg, e.fileEnd), e.fileEnd)
    ensures VerifiedHeader(RegItem(reg, e.fileEnd), e, 0) == Some(2) && AcceptedStream(RegItem(reg, e.fileEnd), e, 2)
    ensures Ops(RegItem(reg, e.fileEnd), 2) == Some([EndLocal(reg), EndSequence])
  {
    RegItemAt(e, reg);
    var m, end := RegItem(reg, e.fileEnd), 3 + |Leb128.Encode(reg)|;
    hide RegItem, Leb128.Encode;
    ZeroAt(m, 0, e.fileEnd);
    ZeroAt(m, 1, e.fileEnd);
    assert VerifiedEnd(m, e, end) == Some(end + 1) && OpAt(m, end) == EndSequence;
    hide VerifiedEnd, OpAt, OpEnd, Leb128.Unsigned, Leb128.Size, Leb128.Valid;
    assert VerifiedOps(m, e, end) == Some(end + 1) && NoSetFile(m, e, end);
    assert VerifiedOps(m, e, 2) == Some(end + 1) && NoSetFile(m, e, 2);
    assert Ops(m, end) == Some([EndSequence]);
    OpsStep(m, 2, [EndSequence], [OpAt(m, 2), EndSequence]);
  }

  /** So acceptance is enough for no method at all: with the number of registers for the register,
      the decoder's comparison lets it through. */
  lemma AcceptedLeavesTheTable(e: Env, code: Code, done: Done)
    requires e.fileEnd >= 6 && ArgumentsFit(code)
    ensures var m := RegItem(code.registersSize, e.fileEnd);
      && Readable(m, e.fileEnd) && VerifiedHeader(m, e, 0) == Some(2) && AcceptedStream(m, e, 2)
      && !WellFormed(m, 0, code, done)
  {
    RegItemAt(e, code.registersSize);
    RegItemAccepted(e, code.registersSize);
    var m := RegItem(code.registersSize, e.fileEnd);
    hide RegItem, Leb128.Encode, Ops, AcceptedStream, VerifiedHeader, OpAt, OpEnd, VerifiedEnd;
    ZeroAt(m, 0, e.fileEnd);
    ZeroAt(m, 1, e.fileEnd);
    StartRegs(m, 0, code);
    assert Start(m, 0, code) == Ready(WithThis(code, 0), 2);
  }

  // ----- Types of locals -----

  predicate TypeOk(op: Op, typeIdsSize: U4) {
    op.StartLocal? && op.descriptor.TypeId? ==> op.descriptor.idx < typeIdsSize
  }

  ghost predicate TypesOk(m: seq<Byte>, p: nat, typeIdsSize: U4) {
    Ops(m, p).Some? && forall i | 0 <= i < |Ops(m, p).value| :: TypeOk(Ops(m, p).value[i], typeIdsSize)
  }

  /** start local v0 of a given type, end. */
  function TypedStream(typeIdx: nat): seq<Byte> {
    [DBG_START_LOCAL, 0, 0] + Leb128.Encode(typeIdx + 1) + [DBG_END_SEQUENCE] + seq(64, _ => 0)
  }

  lemma TypedStreamAt(e: Env, typeIdx: U4)
    requires e.fileEnd >= 8 && typeIdx < e.stringIdsSize
    ensures var m, end := TypedStream(typeIdx), 3 + |Leb128.Encode(typeIdx + 1)|;
      && end + LONGEST <= |m| && m[0] == DBG_START_LOCAL && m[end] == DBG_END_SEQUENCE
      && VerifiedEnd(m, e, 0) == Some(end) && OpEnd(m, 0) == end
      && OpAt(m, 0) == StartLocal(0, Null, TypeId(typeIdx), Null)
  {
    var m, enc := TypedStream(typeIdx), Leb128.Encode(typeIdx + 1);
    Leb128.EncodeLength(typeIdx + 1);
    assert m[3..3 + |enc|] == enc;
    Leb128.RoundTrip(typeIdx + 1, m, 3, e.fileEnd);
    ZeroAt(m, 1, e.fileEnd);
    ZeroAt(m, 2, e.fileEnd);
    assert m[3 + |enc|] == DBG_END_SEQUENCE;
    assert 3 + |enc| + LONGEST <= |m| && m[0] == DBG_START_LOCAL;
    hide TypedStream, Leb128.Encode, Leb128.Unsigned, Leb128.Size, Leb128.Valid;
    StartLocalAt(m, e, typeIdx, |enc|);
  }

  /** start local v0 without a name, by its parts. */
  lemma StartLocalAt(m: seq<Byte>, e: Env, typeIdx: U4, n: nat)
    requires LONGEST <= |m| && m[0] == DBG_START_LOCAL && typeIdx < e.stringIdsSize
    requires Leb128.Unsigned(m, 1) == 0 && Leb128.Size(m, 1) == 1 && Leb128.Valid(m, 1, e.fileEnd)
    requires Leb128.Unsigned(m, 2) == 0 && Leb128.Size(m, 2) == 1 && Leb128.Valid(m, 2, e.fileEnd)
    requires Leb128.Unsigned(m, 3) == typeIdx + 1 && Leb128.Size(m, 3) == n && Leb128.Valid(m, 3, e.fileEnd)
    ensures VerifiedEnd(m, e, 0) == Some(3 + n) && OpEnd(m, 0) == 3 + n
    ensures OpAt(m, 0) == StartLocal(0, Null, TypeId(typeIdx), Null)
  {
    hide Leb128.Unsigned, Leb128.Size, Leb128.Valid;
  }

  lemma TypedStreamAccepted(e: Env, typeIdx: U4)
    requires e.fileEnd >= 8 && typeIdx < e.stringIdsSize
    ensures AcceptedStream(TypedStream(typeIdx), e, 0)
    ensures Ops(TypedStream(typeIdx), 0) == Some([StartLocal(0, Null, TypeId(typeIdx), Null), EndSequence])
  {
    TypedStreamAt(e, typeIdx);
    var m, end := TypedStream(typeIdx), 3 + |Leb128.Encode(typeIdx + 1)|;
    hide TypedStream, Leb128.Encode;
    assert VerifiedEnd(m, e, end) == Some(end + 1) && OpAt(m, end) == EndSequence;
    hide VerifiedEnd, OpAt, OpEnd;
    assert VerifiedOps(m, e, end) == Some(end + 1) && NoSetFile(m, e, end);
    assert VerifiedOps(m, e, 0) == Some(end + 1) && NoSetFile(m, e, 0);
    assert Ops(m, end) == Some([EndSequence]);
    OpsStep(m, 0, [EndSequence], [OpAt(m, 0), EndSequence]);
  }

  lemma ZeroAt(m: seq<Byte>, p: nat, limit: nat)
    requires p + 5 <= |m| && m[p] == 0 && p + 1 <= limit
    ensures Leb128.Unsigned(m, p) == 0 && Leb128.Size(m, p) == 1 && Leb128.Valid(m, p, limit)
  {
  }

  /** Every accepted stream has its types in range exactly in a file that has no more strings than
      types: the verifier asks about strings. */
  lemma TypesInRangeExactly(e: Env)
    requires e.fileEnd >= 8
    ensures (forall m, p | AcceptedStream(m, e, p) :: TypesOk(m, p, e.typeIdsSize)) <==> e.stringIdsSize <= e.typeIdsSize
  {
    if e.stringIdsSize <= e.typeIdsSize {
      forall m, p | AcceptedStream(m, e, p) ensures TypesOk(m, p, e.typeIdsSize) {
        AcceptedOps(m, e, p);
        forall i | 0 <= i < |Ops(m, p).value| ensures TypeOk(Ops(m, p).value[i], e.typeIdsSize) {
          assert TextsOk(Ops(m, p).value[i], e.stringIdsSize);
        }
      }
    } else {
      TypedStreamAccepted(e, e.typeIdsSize);
      hide Ops, TypedStream, AcceptedStream;
      assert !TypeOk(Ops(TypedStream(e.typeIdsSize), 0).value[0], e.typeIdsSize);
    }
  }

  // ----- The verifier -----

  method VerifyIndex(m: seq<Byte>, e: Env, p: nat) returns (ok: bool, next: nat)
    requires p + 5 <= |m|
    ensures ok == IndexOk(m, e, p) && next == Leb128.After(m, p)
  {
    var idx;
    idx, next, ok := Leb128.ReadAndVerifyUnsignedLeb128(m, p, Some(e.fileEnd), true);
    if ok && idx != 0 {
      ok := idx - 1 < e.stringIdsSize;
    }
  }

  method VerifyReg(m: seq<Byte>, e: Env, p: nat) returns (ok: bool, next: nat)
    requires p + 5 <= |m|
    ensures ok == RegOk(m, e, p) && next == Leb128.After(m, p)
  {
    var regNum;
    regNum, next, ok := Leb128.ReadAndVerifyUnsignedLeb128(m, p, Some(e.fileEnd), true);
    if ok && regNum >= 65536 {
      ok := false;
    }
  }

  /** The switch over the opcodes. */
  method VerifyOp(m: seq<Byte>, e: Env, p: nat) returns (end: Option<nat>)
    requires p + LONGEST <= |m|
    ensures end == VerifiedEnd(m, e, p)
  {
    hide Leb128.Unsigned, Leb128.Valid, IndexOk, RegOk;
    var opcode: int, next: nat := m[p], p + 1;
    var ok := true;
    if opcode == DBG_ADVANCE_PC {
      var delta;
      delta, next, ok := Leb128.ReadAndVerifyUnsignedLeb128(m, next, Some(e.fileEnd), ok);
    } else if opcode == DBG_ADVANCE_LINE {
      var diff;
      diff, next, ok := Leb128.ReadAndVerifySignedLeb128(m, next, Some(e.fileEnd), ok);
    } else if opcode == DBG_START_LOCAL || opcode == DBG_START_LOCAL_EXTENDED {
      ok, next := VerifyReg(m, e, next);
      if ok {
        ok, next := VerifyIndex(m, e, next);
      }
      if ok {
        ok, next := VerifyIndex(m, e, next);
      }
      if ok && opcode == DBG_START_LOCAL_EXTENDED {
        ok, next := VerifyIndex(m, e, next);
      }
    } else if opcode == DBG_END_LOCAL || opcode == DBG_RESTART_LOCAL {
      ok, next := VerifyReg(m, e, next);
    } else if opcode == DBG_SET_FILE {
      ok, next := VerifyIndex(m, e, next);
    }
    return if ok then Some(next) else None;
  }

  method IntraVerifyDebugInfoItem(m: seq<Byte>, e: Env, p: nat) returns (end: Option<nat>)
    requires Readable(m, e.fileEnd) && p <= e.fileEnd
    requires VerifiedHeader(m, e, p).Some? ==> StopsInMemory(m, e, VerifiedHeader(m, e, p).value)
    ensures end == match VerifiedHeader(m, e, p) case None => None case Some(q) => VerifiedOps(m, e, q)
  {
    hide Leb128.Unsigned, Leb128.Size, VerifiedEnd;
    var value, data: nat, okay := 0, p, true;
    value, data, okay := Leb128.ReadAndVerifyUnsignedLeb128(m, data, Some(e.fileEnd), okay);
    if !okay {
      return None;
    }
    value, data, okay := Leb128.ReadAndVerifyUnsignedLeb128(m, data, Some(e.fileEnd), okay);
    if !okay {
      return None;
    }
    var parametersSize := value;
    if parametersSize > 65536 {
      return None;
    }
    for i := 0 to parametersSize
      invariant data <= e.fileEnd && VerifiedHeader(m, e, p) == VerifiedNames(m, e, data, parametersSize - i)
    {
      okay, data := VerifyIndex(m, e, data);
      if !okay {
        return None;
      }
    }
    ghost var start := data;
    var done := false;
    while !done
      invariant !done ==> StopsInMemory(m, e, data) && VerifiedOps(m, e, start) == VerifiedOps(m, e, data)
      invariant done ==> VerifiedOps(m, e, start) == Some(data)
      decreases !done, |m| - data
    {
      var next := VerifyOp(m, e, data);
      if next.None? {
        return None;
      }
      done := m[data] == DBG_END_SEQUENCE;
      data := next.value;
    }
    return Some(data);
  }
}
