/** The debug-info state machine as transitions on values, and what every run of it keeps. */
module DebugInfoSpec {
  import opened Memory

  /** A name or descriptor: nothing, or where it comes from. */
  datatype Text = Null | This | ClassDescriptor | StringId(idx: U4) | TypeId(idx: U4)

  datatype Local = Local(name: Text, descriptor: Text, signature: Text, start: nat, live: bool)

  datatype Position = Position(address: U4, line: U4)

  /** A call of the locals callback: reg held the local from start up to end. */
  datatype Entry = Entry(reg: nat, start: nat, end: nat, name: Text, descriptor: Text, signature: Text)

  datatype Op =
    | EndSequence
    | AdvancePc(delta: U4)
    | AdvanceLine(diff: int)
    | StartLocal(reg: U2, name: Text, descriptor: Text, signature: Text)
    | EndLocal(reg: U2)
    | RestartLocal(reg: U2)
    | NoEffect
    | Special(adjusted: nat)

  /** births collects a register and an address whenever a local begins. */
  datatype State = State(address: U4, line: U4, regs: seq<Local>, positions: seq<Position>, entries: seq<Entry>,
                         births: multiset<(nat, nat)>)

  const LINE_BASE := -4
  const LINE_RANGE := 15
  const UNUSED := Local(Null, Null, Null, 0, false)

  // ----- Transitions -----

  /** emitLocalCbIfLive; the register is free afterwards. */
  function Emit(s: State, reg: nat): State
    requires reg < |s.regs|
  {
    var l := s.regs[reg];
    if !l.live then s
    else
      s.(entries := s.entries + [Entry(reg, l.start, s.address, l.name, l.descriptor, l.signature)],
         regs := s.regs[reg := l.(live := false)])
  }

  function Begin(s: State, reg: nat, name: Text, descriptor: Text, signature: Text): State
    requires reg < |s.regs|
  {
    s.(regs := s.regs[reg := Local(name, descriptor, signature, s.address, true)],
       births := s.births + multiset{(reg, s.address)})
  }

  function Advance(s: State, delta: nat): State {
    var sum: int := s.address + delta; s.(address := sum % 0x1_0000_0000)
  }

  function AddLine(s: State, diff: int): State {
    var sum: int := s.line + diff; s.(line := sum % 0x1_0000_0000)
  }

  function Record(s: State): State {
    s.(positions := s.positions + [Position(s.address, s.line)])
  }

  /** The register of an operation may be one too large for the check that the decoder makes. */
  predicate InRange(op: Op, registersSize: nat) {
    op.StartLocal? || op.EndLocal? || op.RestartLocal? ==> op.reg != registersSize
  }

  type Done = Position -> bool

  /** One operation, and whether decoding stops with it. */
  function Step(s: State, op: Op, done: Done): (State, bool)
    requires InRange(op, |s.regs|)
  {
    match op
    case EndSequence => (s, true)
    case AdvancePc(delta) => (Advance(s, delta), false)
    case AdvanceLine(diff) => (AddLine(s, diff), false)
    case StartLocal(reg, name, descriptor, signature) =>
      if reg > |s.regs| then (s, true)
      else (Begin(Emit(s, reg), reg, name, descriptor, signature), false)
    case EndLocal(reg) => if reg > |s.regs| then (s, true) else (Emit(s, reg), false)
    case RestartLocal(reg) =>
      if reg > |s.regs| then (s, true)
      else
        var l := s.regs[reg];
        if l.name == Null || l.descriptor == Null then (s, true)
        else if l.live then (s, false)
        else (Begin(s, reg, l.name, l.descriptor, l.signature), false)
    case NoEffect => (s, false)
    case Special(adjusted) =>
      var s' := Record(AddLine(Advance(s, adjusted / LINE_RANGE), LINE_BASE + adjusted % LINE_RANGE));
      (s', done(Position(s'.address, s'.line)))
  }

  predicate AllInRange(ops: seq<Op>, registersSize: nat) {
    forall i | 0 <= i < |ops| :: InRange(ops[i], registersSize)
  }

  /** Run up to the end, an error, or the callback's wish. */
  function Run(s: State, ops: seq<Op>, done: Done): (r: State)
    requires AllInRange(ops, |s.regs|)
    ensures |r.regs| == |s.regs|
    decreases |ops|
  {
    if ops == [] then s
    else
      var (s', stop) := Step(s, ops[0], done);
      if stop then s' else Run(s', ops[1..], done)
  }

  /** The loop at the end of dexDecodeDebugInfo. */
  function EmitFrom(s: State, reg: nat): State
    requires reg <= |s.regs|
    decreases |s.regs| - reg
  {
    if reg == |s.regs| then s else EmitFrom(Emit(s, reg), reg + 1)
  }

  function Finish(s: State, insnsSize: U4): State {
    EmitFrom(s.(address := insnsSize), 0)
  }

  // ----- What all of them keep -----

  ghost predicate PositionsInOrder(ps: seq<Position>) {
    forall i, j | 0 <= i < j < |ps| :: ps[i].address <= ps[j].address
  }

  ghost predicate EntriesInOrder(es: seq<Entry>) {
    forall i, j | 0 <= i < j < |es| :: es[i].end <= es[j].end
  }

  ghost predicate NoOverlap(es: seq<Entry>) {
    forall i, j | 0 <= i < j < |es| && es[i].reg == es[j].reg :: es[i].end <= es[j].start
  }

  ghost predicate Within(es: seq<Entry>, limit: nat) {
    forall i | 0 <= i < |es| :: es[i].start <= es[i].end <= limit
  }

  function Reported(es: seq<Entry>): multiset<(nat, nat)> {
    if es == [] then multiset{} else Reported(es[..|es| - 1]) + multiset{(es[|es| - 1].reg, es[|es| - 1].start)}
  }

  function One(l: Local, reg: nat): multiset<(nat, nat)> {
    if l.live then multiset{(reg, l.start)} else multiset{}
  }

  /** The locals that live in the first n registers. */
  function Living(regs: seq<Local>, n: nat): multiset<(nat, nat)>
    requires n <= |regs|
  {
    if n == 0 then multiset{} else Living(regs, n - 1) + One(regs[n - 1], n - 1)
  }

  /** The local in reg, if any, began after what was reported for reg before. */
  ghost predicate Later(s: State, reg: nat)
    requires reg < |s.regs|
  {
    s.regs[reg].live ==>
      && s.regs[reg].start <= s.address
      && forall i | 0 <= i < |s.entries| && s.entries[i].reg == reg :: s.entries[i].end <= s.regs[reg].start
  }

  ghost predicate Good(s: State) {
    && PositionsInOrder(s.positions) && (forall i | 0 <= i < |s.positions| :: s.positions[i].address <= s.address)
    && EntriesInOrder(s.entries) && Within(s.entries, s.address) && NoOverlap(s.entries)
    && (forall reg | 0 <= reg < |s.regs| :: Later(s, reg))
    && s.births == Reported(s.entries) + Living(s.regs, |s.regs|)
  }

  type Births = multiset<(nat, nat)>

  lemma AddToBoth(a: Births, a': Births, x: Births, before: Births, after: Births)
    requires a' + before == a + after
    ensures (a' + x) + before == (a + x) + after
  {
    assert (a' + x) + before == (a' + before) + x;
  }

  lemma MoveOver(births: Births, reported: Births, living: Births, living': Births, one: Births)
    requires births == reported + living && living' + one == living + multiset{}
    ensures births == (reported + one) + living'
  {
    assert (reported + one) + living' == reported + (living' + one);
  }

  lemma {:induction false} LivingElsewhere(regs: seq<Local>, n: nat, reg: nat, l: Local)
    requires n <= reg < |regs|
    ensures Living(regs[reg := l], n) == Living(regs, n)
  {
    if n > 0 {
      LivingElsewhere(regs, n - 1, reg, l);
    }
  }

  lemma LivingStep(regs: seq<Local>, n: nat)
    requires 0 < n <= |regs|
    ensures Living(regs, n) == Living(regs, n - 1) + One(regs[n - 1], n - 1)
  {
  }

  lemma {:induction false} LivingUpdate(regs: seq<Local>, n: nat, reg: nat, l: Local)
    requires reg < n <= |regs|
    ensures Living(regs[reg := l], n) + One(regs[reg], reg) == Living(regs, n) + One(l, reg)
  {
    hide Living, One;
    var regs' := regs[reg := l];
    LivingStep(regs, n);
    LivingStep(regs', n);
    if reg == n - 1 {
      LivingElsewhere(regs, n - 1, reg, l);
      Commute(Living(regs, n - 1), One(l, reg), One(regs[reg], reg));
    } else {
      LivingUpdate(regs, n - 1, reg, l);
      AddToBoth(Living(regs, n - 1), Living(regs', n - 1), One(regs[n - 1], n - 1), One(regs[reg], reg), One(l, reg));
    }
  }

  lemma Commute(a: Births, x: Births, y: Births)
    ensures (a + x) + y == (a + y) + x
  {
  }

  lemma EmitConserves(s: State, reg: nat)
    requires reg < |s.regs| && s.regs[reg].live && s.births == Reported(s.entries) + Living(s.regs, |s.regs|)
    ensures var s' := Emit(s, reg); s'.births == Reported(s'.entries) + Living(s'.regs, |s'.regs|)
  {
    var s' := Emit(s, reg);
    assert s'.entries[..|s'.entries| - 1] == s.entries;
    LivingUpdate(s.regs, |s.regs|, reg, s'.regs[reg]);
    hide Living;
    MoveOver(s.births, Reported(s.entries), Living(s.regs, |s.regs|), Living(s'.regs, |s.regs|), One(s.regs[reg], reg));
  }

  lemma BeginConserves(s: State, reg: nat, l: Local)
    requires reg < |s.regs| && !s.regs[reg].live && l.live
    requires s.births == Reported(s.entries) + Living(s.regs, |s.regs|)
    ensures s.births + One(l, reg) == Reported(s.entries) + Living(s.regs[reg := l], |s.regs|)
  {
    LivingUpdate(s.regs, |s.regs|, reg, l);
    hide Living, Reported;
    var living' := Living(s.regs[reg := l], |s.regs|);
    assert living' == Living(s.regs, |s.regs|) + One(l, reg) by {
      assert living' + multiset{} == living';
    }
  }

  lemma EmitKeeps(s: State, reg: nat)
    requires Good(s) && reg < |s.regs|
    ensures Good(Emit(s, reg)) && !Emit(s, reg).regs[reg].live
    ensures Emit(s, reg).address == s.address && |Emit(s, reg).regs| == |s.regs|
    ensures Emit(s, reg).positions == s.positions && Emit(s, reg).births == s.births
  {
    if s.regs[reg].live {
      EmitConserves(s, reg);
      EmitInOrder(s, reg);
      hide Reported, Living, PositionsInOrder, EntriesInOrder, NoOverlap, Within;
      forall r | 0 <= r < |s.regs| ensures Later(Emit(s, reg), r) {
        assert Later(s, r);
      }
    }
  }

  lemma EmitInOrder(s: State, reg: nat)
    requires reg < |s.regs| && s.regs[reg].live && Later(s, reg)
    requires EntriesInOrder(s.entries) && Within(s.entries, s.address) && NoOverlap(s.entries)
    ensures EntriesInOrder(Emit(s, reg).entries) && Within(Emit(s, reg).entries, s.address)
    ensures NoOverlap(Emit(s, reg).entries)
  {
  }

  lemma BeginKeeps(s: State, reg: nat, name: Text, descriptor: Text, signature: Text)
    requires Good(s) && reg < |s.regs| && !s.regs[reg].live
    ensures Good(Begin(s, reg, name, descriptor, signature))
  {
    var s' := Begin(s, reg, name, descriptor, signature);
    BeginConserves(s, reg, s'.regs[reg]);
    hide Reported, Living;
    forall r | 0 <= r < |s.regs| ensures Later(s', r) {
      assert Later(s, r);
    }
  }

  /** Time goes on. */
  lemma LaterKeeps(s: State, s': State)
    requires Good(s) && s.address <= s'.address && s' == s.(address := s'.address, line := s'.line)
    ensures Good(s')
  {
    forall r | 0 <= r < |s.regs| ensures Later(s', r) {
      assert Later(s, r);
    }
  }

  lemma RecordKeeps(s: State)
    requires Good(s)
    ensures Good(Record(s))
  {
    forall r | 0 <= r < |s.regs| ensures Later(Record(s), r) {
      assert Later(s, r);
    }
  }

  function Delta(op: Op): nat {
    match op
    case AdvancePc(delta) => delta
    case Special(adjusted) => adjusted / LINE_RANGE
    case _ => 0
  }

  function Total(ops: seq<Op>): nat {
    if ops == [] then 0 else Delta(ops[0]) + Total(ops[1..])
  }

  lemma StepKeeps(s: State, op: Op, done: Done)
    requires Good(s) && InRange(op, |s.regs|) && s.address + Delta(op) < 0x1_0000_0000
    ensures Good(Step(s, op, done).0) && Step(s, op, done).0.address == s.address + Delta(op)
    ensures |Step(s, op, done).0.regs| == |s.regs|
  {
    hide Good;
    match op
    case StartLocal(reg, name, descriptor, signature) =>
      if reg < |s.regs| {
        EmitKeeps(s, reg);
        BeginKeeps(Emit(s, reg), reg, name, descriptor, signature);
      }
    case EndLocal(reg) =>
      if reg < |s.regs| {
        EmitKeeps(s, reg);
      }
    case RestartLocal(reg) =>
      if reg < |s.regs| && !s.regs[reg].live {
        var l := s.regs[reg];
        BeginKeeps(s, reg, l.name, l.descriptor, l.signature);
      }
    case AdvancePc(delta) => LaterKeeps(s, Advance(s, delta));
    case AdvanceLine(diff) => LaterKeeps(s, AddLine(s, diff));
    case Special(adjusted) =>
      var s' := AddLine(Advance(s, adjusted / LINE_RANGE), LINE_BASE + adjusted % LINE_RANGE);
      LaterKeeps(s, s');
      RecordKeeps(s');
    case _ =>
  }

  lemma {:induction false} RunKeeps(s: State, ops: seq<Op>, done: Done, limit: U4)
    requires Good(s) && AllInRange(ops, |s.regs|) && s.address + Total(ops) <= limit
    ensures Good(Run(s, ops, done)) && Run(s, ops, done).address <= limit
    decreases |ops|
  {
    if ops != [] {
      StepKeeps(s, ops[0], done);
      hide Good;
      var (s', stop) := Step(s, ops[0], done);
      if !stop {
        RunKeeps(s', ops[1..], done, limit);
      }
    }
  }

  ghost predicate Quiet(regs: seq<Local>, n: nat)
    requires n <= |regs|
  {
    forall r | 0 <= r < n :: !regs[r].live
  }

  lemma EmitQuiets(s: State, reg: nat)
    requires reg < |s.regs| && Quiet(s.regs, reg)
    ensures Quiet(Emit(s, reg).regs, reg + 1)
  {
  }

  lemma {:induction false} EmitFromKeeps(s: State, reg: nat)
    requires Good(s) && reg <= |s.regs| && Quiet(s.regs, reg)
    ensures var s' := EmitFrom(s, reg);
      && Good(s') && s'.address == s.address && s'.positions == s.positions && s'.births == s.births
      && |s'.regs| == |s.regs| && Quiet(s'.regs, |s.regs|)
    decreases |s.regs| - reg
  {
    hide Good, Emit, Quiet;
    if reg < |s.regs| {
      EmitKeeps(s, reg);
      EmitQuiets(s, reg);
      EmitFromKeeps(Emit(s, reg), reg + 1);
    }
  }

  lemma {:induction false} NothingLiving(regs: seq<Local>, n: nat)
    requires n <= |regs| && Quiet(regs, n)
    ensures Living(regs, n) == multiset{}
  {
    if n > 0 {
      NothingLiving(regs, n - 1);
    }
  }

  /** What the callbacks have seen when the decoder returns. */
  ghost predicate Delivered(s: State, insnsSize: U4) {
    && PositionsInOrder(s.positions) && (forall i | 0 <= i < |s.positions| :: s.positions[i].address <= insnsSize)
    && EntriesInOrder(s.entries) && Within(s.entries, insnsSize) && NoOverlap(s.entries)
    && Reported(s.entries) == s.births
  }

  /** Positions come in ascending order, locals by ascending end, the times of a register do
      not overlap, and every beginning is reported exactly once, however decoding ended. */
  lemma FinishedInOrder(s: State, insnsSize: U4)
    requires Good(s) && s.address <= insnsSize
    ensures Delivered(Finish(s, insnsSize), insnsSize) && Finish(s, insnsSize).births == s.births
  {
    LaterKeeps(s, s.(address := insnsSize));
    EmitFromKeeps(s.(address := insnsSize), 0);
    NothingLiving(Finish(s, insnsSize).regs, |s.regs|);
  }
}

/** dexDecodeDebugInfo (libdex/DexDebugInfo.cpp): the byte stream, the table of registers, and
    the callbacks. */
module DebugInfo {
  import opened Memory
  import opened DebugInfoSpec
  import Leb128

  // ----- The stream -----

  const DBG_END_SEQUENCE := 0x00
  const DBG_ADVANCE_PC := 0x01
  const DBG_ADVANCE_LINE := 0x02
  const DBG_START_LOCAL := 0x03
  const DBG_START_LOCAL_EXTENDED := 0x04
  const DBG_END_LOCAL := 0x05
  const DBG_RESTART_LOCAL := 0x06
  const DBG_SET_FILE := 0x09
  const DBG_FIRST_SPECIAL := 0x0a

  /** Room for the longest operation: an opcode and four numbers. */
  const LONGEST := 21

  /** Encoded indices have 1 added to them. */
  function StringText(idx: U4): Text { if idx == 0 then Null else StringId(idx - 1) }

  function TypeText(idx: U4): Text { if idx == 0 then Null else TypeId(idx - 1) }

  function Reg(m: seq<Byte>, p: nat): U2
    requires p + 5 <= |m|
  {
    Leb128.Unsigned(m, p) % 0x1_0000
  }

  /** The operation at p, as the decoder reads it: DBG_SET_FILE leaves its argument behind. */
  function OpAt(m: seq<Byte>, p: nat): Op
    requires p + LONGEST <= |m|
  {
    var opcode: int, a := m[p], p + 1;
    if opcode == DBG_END_SEQUENCE then EndSequence
    else if opcode == DBG_ADVANCE_PC then AdvancePc(Leb128.Unsigned(m, a))
    else if opcode == DBG_ADVANCE_LINE then AdvanceLine(Leb128.Signed(m, a))
    else if opcode == DBG_START_LOCAL || opcode == DBG_START_LOCAL_EXTENDED then
      var name := Leb128.After(m, a);
      var descriptor := Leb128.After(m, name);
      var signature := Leb128.After(m, descriptor);
      StartLocal(Reg(m, a), StringText(Leb128.Unsigned(m, name)), TypeText(Leb128.Unsigned(m, descriptor)),
                 if opcode == DBG_START_LOCAL then Null else StringText(Leb128.Unsigned(m, signature)))
    else if opcode == DBG_END_LOCAL then EndLocal(Reg(m, a))
    else if opcode == DBG_RESTART_LOCAL then RestartLocal(Reg(m, a))
    else if opcode <= DBG_SET_FILE then NoEffect
    else Special(opcode - DBG_FIRST_SPECIAL)
  }

  function OpEnd(m: seq<Byte>, p: nat): (q: nat)
    requires p + LONGEST <= |m|
    ensures p < q
  {
    var opcode: int, a := m[p], p + 1;
    if opcode == DBG_ADVANCE_PC || opcode == DBG_ADVANCE_LINE || opcode == DBG_END_LOCAL || opcode == DBG_RESTART_LOCAL
    then Leb128.After(m, a)
    else if opcode == DBG_START_LOCAL then Leb128.After(m, Leb128.After(m, Leb128.After(m, a)))
    else if opcode == DBG_START_LOCAL_EXTENDED then Leb128.After(m, Leb128.After(m, Leb128.After(m, Leb128.After(m, a))))
    else a
  }

  /** The operations up to the first DBG_END_SEQUENCE. */
  function Ops(m: seq<Byte>, p: nat): Option<seq<Op>>
    decreases |m| - p
  {
    if p + LONGEST > |m| then None
    else if OpAt(m, p) == EndSequence then Some([EndSequence])
    else match Ops(m, OpEnd(m, p)) case None => None case Some(rest) => Some([OpAt(m, p)] + rest)
  }

  /** The operations up to the one that stops the decoder: the end, an invalid register or the
      wish of the callback. What follows is never looked at. */
  function Executed(m: seq<Byte>, p: nat, s: State, done: Done): (r: Option<seq<Op>>)
    ensures r.Some? ==> AllInRange(r.value, |s.regs|)
    decreases |m| - p
  {
    if p + LONGEST > |m| || !InRange(OpAt(m, p), |s.regs|) then None
    else
      var (s', stop) := Step(s, OpAt(m, p), done);
      if stop then Some([OpAt(m, p)])
      else match Executed(m, OpEnd(m, p), s', done) case None => None case Some(rest) => Some([OpAt(m, p)] + rest)
  }

  /** No operation names the register behind the table, up to the one that stops the decoder. */
  predicate StaysInTable(s: State, ops: seq<Op>, done: Done)
    decreases |ops|
  {
    ops == [] ||
    (InRange(ops[0], |s.regs|) && var (s', stop) := Step(s, ops[0], done); stop || StaysInTable(s', ops[1..], done))
  }

  lemma {:induction false} InRangeStays(s: State, ops: seq<Op>, done: Done)
    requires AllInRange(ops, |s.regs|)
    ensures StaysInTable(s, ops, done)
    decreases |ops|
  {
    if ops != [] {
      RunStep(s, ops, done);
      hide Step;
      var (s', stop) := Step(s, ops[0], done);
      if !stop {
        InRangeStays(s', ops[1..], done);
      }
    }
  }

  /** Of a stream that is readable to its end the decoder executes a part that stays in the table,
      or it leaves the table. */
  lemma {:induction false} ExecutedExactly(m: seq<Byte>, p: nat, s: State, done: Done)
    requires Ops(m, p).Some?
    ensures Executed(m, p, s, done).Some? <==> StaysInTable(s, Ops(m, p).value, done)
    ensures Executed(m, p, s, done).Some? ==> Executed(m, p, s, done).value <= Ops(m, p).value
    decreases |m| - p
  {
    var ops := Ops(m, p).value;
    if InRange(ops[0], |s.regs|) {
      var (s', stop) := Step(s, ops[0], done);
      EndStops(s, ops[0], done);
      hide OpAt, OpEnd, Step;
      if !stop {
        assert ops[1..] == Ops(m, OpEnd(m, p)).value;
        ExecutedExactly(m, OpEnd(m, p), s', done);
      }
    }
  }

  lemma EndStops(s: State, op: Op, done: Done)
    requires InRange(op, |s.regs|)
    ensures op == EndSequence ==> Step(s, op, done).1
  {
  }

  // ----- What decoding means -----

  datatype Param = Param(typeIdx: U4, wide: bool)

  datatype Code = Code(registersSize: U2, insSize: U2, insnsSize: U4, isStatic: bool, params: seq<Param>)

  function Words(params: seq<Param>): nat {
    if params == [] then 0 else Words(params[1..]) + if params[0].wide then 2 else 1
  }

  /** What the decoder asserts about arguments, and the verifier about registers. */
  predicate ArgumentsFit(code: Code) {
    code.insSize == Words(code.params) + (if code.isStatic then 0 else 1) && code.insSize <= code.registersSize
  }

  datatype Started = Unreadable | Invalid(s: State) | Ready(s: State, p: nat)

  /** n encoded names for the parameters from number k on. */
  function Parameters(m: seq<Byte>, code: Code, p: nat, n: nat, k: nat, argReg: U2, s: State): Started
    requires |s.regs| == code.registersSize
    decreases n
  {
    if n == 0 then Ready(s, p)
    else if argReg >= code.registersSize || k >= |code.params| then Invalid(s)
    else if p + 5 > |m| then Unreadable
    else
      var name, param := StringText(Leb128.Unsigned(m, p)), code.params[k];
      var s' := if name == Null then s else Begin(s, argReg, name, TypeId(param.typeIdx), Null);
      Parameters(m, code, Leb128.After(m, p), n - 1, k + 1, NextArg(argReg, param), s')
  }

  function NextArg(argReg: U2, param: Param): U2 {
    var next: int := argReg + (if param.wide then 2 else 1); next % 0x1_0000
  }

  function Blank(code: Code, line: U4): State {
    State(0, line, seq(code.registersSize, _ => UNUSED), [], [], multiset{})
  }

  function FirstArg(code: Code): U2
    requires ArgumentsFit(code)
  {
    code.registersSize - code.insSize + if code.isStatic then 0 else 1
  }

  /** With "this" in its register. */
  function WithThis(code: Code, line: U4): State
    requires ArgumentsFit(code)
  {
    if code.isStatic then Blank(code, line)
    else Begin(Blank(code, line), code.registersSize - code.insSize, This, ClassDescriptor, Null)
  }

  function Start(m: seq<Byte>, p: nat, code: Code): Started
    requires ArgumentsFit(code)
  {
    if p + 10 > |m| then Unreadable
    else
      var q := Leb128.After(m, p);
      Parameters(m, code, Leb128.After(m, q), Leb128.Unsigned(m, q), 0, FirstArg(code), WithThis(code, Leb128.Unsigned(m, p)))
  }

  /** What the decoder executes can be read and stays within the table of registers. */
  predicate WellFormed(m: seq<Byte>, p: nat, code: Code, done: Done)
    requires ArgumentsFit(code)
  {
    match Start(m, p, code)
    case Unreadable => false
    case Invalid(_) => true
    case Ready(s, q) => Executed(m, q, s, done).Some?
  }

  /** Addresses stay within the method, and within 32 bits. */
  predicate AddressesFit(m: seq<Byte>, p: nat, code: Code, done: Done)
    requires ArgumentsFit(code) && WellFormed(m, p, code, done)
  {
    match Start(m, p, code)
    case Invalid(_) => true
    case Ready(s, q) => Total(Executed(m, q, s, done).value) <= code.insnsSize
  }

  lemma {:induction false} ParametersRegs(m: seq<Byte>, code: Code, p: nat, n: nat, k: nat, argReg: U2, s: State)
    requires |s.regs| == code.registersSize
    ensures var r := Parameters(m, code, p, n, k, argReg, s); r.Unreadable? || |r.s.regs| == code.registersSize
    decreases n
  {
    if n > 0 && argReg < code.registersSize && k < |code.params| && p + 5 <= |m| {
      var name, param := StringText(Leb128.Unsigned(m, p)), code.params[k];
      var s' := if name == Null then s else Begin(s, argReg, name, TypeId(param.typeIdx), Null);
      ParametersRegs(m, code, Leb128.After(m, p), n - 1, k + 1, NextArg(argReg, param), s');
    }
  }

  /** Everything the callbacks get to see. */
  function Decoded(m: seq<Byte>, p: nat, code: Code, done: Done): State
    requires ArgumentsFit(code) && WellFormed(m, p, code, done)
  {
    StartRegs(m, p, code);
    match Start(m, p, code)
    case Invalid(s) => Finish(s, code.insnsSize)
    case Ready(s, q) => Finish(Run(s, Executed(m, q, s, done).value, done), code.insnsSize)
  }

  lemma StartRegs(m: seq<Byte>, p: nat, code: Code)
    requires ArgumentsFit(code)
    ensures var r := Start(m, p, code); r.Unreadable? || |r.s.regs| == code.registersSize
  {
    if p + 10 <= |m| {
      var q := Leb128.After(m, p);
      ParametersRegs(m, code, Leb128.After(m, q), Leb128.Unsigned(m, q), 0, FirstArg(code),
                     WithThis(code, Leb128.Unsigned(m, p)));
    }
  }

  // ----- Main result -----

  lemma {:induction false} ParametersKeep(m: seq<Byte>, code: Code, p: nat, n: nat, k: nat, argReg: U2, s: State)
    requires |s.regs| == code.registersSize && k <= |code.params|
    requires argReg + Words(code.params[k..]) <= code.registersSize
    requires Good(s) && s.address == 0 && forall r | argReg <= r < code.registersSize :: !s.regs[r].live
    ensures var r := Parameters(m, code, p, n, k, argReg, s);
      r.Unreadable? || (Good(r.s) && r.s.address == 0)
    decreases n
  {
    hide Good;
    if n > 0 && argReg < code.registersSize && k < |code.params| && p + 5 <= |m| {
      var name, param := StringText(Leb128.Unsigned(m, p)), code.params[k];
      var s' := if name == Null then s else Begin(s, argReg, name, TypeId(param.typeIdx), Null);
      if name != Null {
        BeginKeeps(s, argReg, name, TypeId(param.typeIdx), Null);
      }
      assert code.params[k..][1..] == code.params[k + 1..];
      ParametersKeep(m, code, Leb128.After(m, p), n - 1, k + 1, NextArg(argReg, param), s');
    }
  }

  lemma BlankIsGood(code: Code, line: U4)
    ensures Good(Blank(code, line))
  {
    NothingLiving(Blank(code, line).regs, code.registersSize);
    hide Living;
  }

  lemma WithThisKeeps(code: Code, line: U4)
    requires ArgumentsFit(code)
    ensures var s := WithThis(code, line);
      && |s.regs| == code.registersSize && Good(s) && s.address == 0
      && forall r | FirstArg(code) <= r < code.registersSize :: !s.regs[r].live
  {
    var blank := Blank(code, line);
    BlankIsGood(code, line);
    hide Good;
    if !code.isStatic {
      BeginKeeps(blank, code.registersSize - code.insSize, This, ClassDescriptor, Null);
    }
  }

  lemma StartIsGood(m: seq<Byte>, p: nat, code: Code)
    requires ArgumentsFit(code) && !Start(m, p, code).Unreadable?
    ensures Good(Start(m, p, code).s) && Start(m, p, code).s.address == 0
  {
    var line, q := Leb128.Unsigned(m, p), Leb128.After(m, p);
    WithThisKeeps(code, line);
    assert code.params[0..] == code.params;
    hide Good, Parameters, Leb128.Unsigned, Leb128.Size;
    ParametersKeep(m, code, Leb128.After(m, q), Leb128.Unsigned(m, q), 0, FirstArg(code), WithThis(code, line));
  }

  /** The promise in libdex/DexDebugInfo.h, and more, for every well-formed stream whose
      addresses stay within the method. */
  lemma DecodedInOrder(m: seq<Byte>, p: nat, code: Code, done: Done)
    requires ArgumentsFit(code) && WellFormed(m, p, code, done) && AddressesFit(m, p, code, done)
    ensures Delivered(Decoded(m, p, code, done), code.insnsSize)
  {
    StartIsGood(m, p, code);
    StartRegs(m, p, code);
    hide Good, Delivered, Finish, Parameters, Executed, Leb128.Unsigned;
    match Start(m, p, code)
    case Invalid(s) =>
      FinishedInOrder(s, code.insnsSize);
    case Ready(s, at) =>
      RunKeeps(s, Executed(m, at, s, done).value, done, code.insnsSize);
      FinishedInOrder(Run(s, Executed(m, at, s, done).value, done), code.insnsSize);
  }

  // ----- Addresses in 16 bits -----

  /** What the locals callback is called with: LocalInfo keeps a start address in a u2. */
  datatype LocalCall = LocalCall(reg: nat, startAddress: U2, endAddress: nat, name: Text, descriptor: Text,
                                 signature: Text)

  function Call(e: Entry): LocalCall {
    LocalCall(e.reg, e.start % 0x1_0000, e.end, e.name, e.descriptor, e.signature)
  }

  function Calls(es: seq<Entry>): (cs: seq<LocalCall>)
    ensures |cs| == |es| && forall i | 0 <= i < |es| :: cs[i] == Call(es[i])
  {
    seq(|es|, i requires 0 <= i < |es| => Call(es[i]))
  }

  ghost predicate CallsApart(cs: seq<LocalCall>) {
    forall i, j | 0 <= i < j < |cs| && cs[i].reg == cs[j].reg :: cs[i].endAddress <= cs[j].startAddress
  }

  /** What may go wrong with one stream in a method of this size. */
  ghost predicate Overlaps(m: seq<Byte>, p: nat, code: Code, done: Done)
    requires ArgumentsFit(code)
  {
    && WellFormed(m, p, code, done) && AddressesFit(m, p, code, done)
    && !CallsApart(Calls(Decoded(m, p, code, done).entries))
  }

  /** Intervals as reported do not overlap as long as the method is shorter than 65536 code units. */
  lemma ShortMethodsAreApart(m: seq<Byte>, p: nat, code: Code, done: Done)
    requires ArgumentsFit(code) && WellFormed(m, p, code, done) && AddressesFit(m, p, code, done)
    requires code.insnsSize < 0x1_0000
    ensures CallsApart(Calls(Decoded(m, p, code, done).entries))
  {
    DecodedInOrder(m, p, code, done);
    var es := Decoded(m, p, code, done).entries;
    assert Within(es, code.insnsSize) && NoOverlap(es) by {
      hide Decoded, Within, NoOverlap, WellFormed, AddressesFit;
    }
    hide Decoded, Delivered, WellFormed, AddressesFit;
    ShortCallsAreApart(es, code.insnsSize);
  }

  lemma ShortCallsAreApart(es: seq<Entry>, insnsSize: U4)
    requires Within(es, insnsSize) && NoOverlap(es) && insnsSize < 0x1_0000
    ensures CallsApart(Calls(es))
  {
    forall i | 0 <= i < |es| ensures Call(es[i]).startAddress == es[i].start {
      assert es[i].start <= es[i].end <= insnsSize;
    }
  }

  /** start local v0, advance by 65536, start local v0, end. */
  const LONG_STREAM: seq<Byte> :=
    [0, 0, DBG_START_LOCAL, 0, 1, 1, DBG_ADVANCE_PC, 0x80, 0x80, 0x04, DBG_START_LOCAL, 0, 1, 1, DBG_END_SEQUENCE]
    + seq(32, _ => 0)

  function LongCode(insnsSize: U4): Code { Code(1, 0, insnsSize, true, []) }

  lemma LongStreamAt()
    ensures OpAt(LONG_STREAM, 2) == V0 && OpEnd(LONG_STREAM, 2) == 6
    ensures OpAt(LONG_STREAM, 6) == AdvancePc(0x1_0000) && OpEnd(LONG_STREAM, 6) == 10
    ensures OpAt(LONG_STREAM, 10) == V0 && OpEnd(LONG_STREAM, 10) == 14
    ensures OpAt(LONG_STREAM, 14) == EndSequence
  {
  }

  lemma OpsStep(m: seq<Byte>, p: nat, rest: seq<Op>, ops: seq<Op>)
    requires p + LONGEST <= |m| && OpAt(m, p) != EndSequence && Ops(m, OpEnd(m, p)) == Some(rest)
    requires ops == [OpAt(m, p)] + rest
    ensures Ops(m, p) == Some(ops)
  {
  }

  lemma LongStreamStart(insnsSize: U4)
    ensures Start(LONG_STREAM, 0, LongCode(insnsSize)) == Ready(Blank(LongCode(insnsSize), 0), 2)
  {
  }

  lemma LongStreamOps()
    ensures Ops(LONG_STREAM, 2) == Some([V0, AdvancePc(0x1_0000), V0, EndSequence])
  {
    var m := LONG_STREAM;
    LongStreamAt();
    assert Ops(m, 14) == Some([EndSequence]);
    hide Ops, OpAt, OpEnd;
    OpsStep(m, 10, [EndSequence], [V0, EndSequence]);
    OpsStep(m, 6, [V0, EndSequence], [AdvancePc(0x1_0000), V0, EndSequence]);
    OpsStep(m, 2, [AdvancePc(0x1_0000), V0, EndSequence], [V0, AdvancePc(0x1_0000), V0, EndSequence]);
  }

  /** Operations that stop no decoder. */
  predicate GoesOn(op: Op, registersSize: nat) {
    op.AdvancePc? || (op.StartLocal? && op.reg < registersSize)
  }

  lemma {:induction false} ExecutedInFull(m: seq<Byte>, p: nat, s: State, done: Done)
    requires Ops(m, p).Some? && AllInRange(Ops(m, p).value, |s.regs|)
    requires forall i | 0 <= i < |Ops(m, p).value| - 1 :: GoesOn(Ops(m, p).value[i], |s.regs|)
    ensures Executed(m, p, s, done) == Ops(m, p)
    decreases |m| - p
  {
    var ops := Ops(m, p).value;
    if ops[0] != EndSequence {
      RunStep(s, ops, done);
      var (s', stop) := Step(s, ops[0], done);
      assert !stop;
      hide OpAt, OpEnd, Step;
      assert ops[1..] == Ops(m, OpEnd(m, p)).value;
      assert forall i | 0 <= i < |ops| - 2 :: GoesOn(ops[1..][i], |s.regs|) by {
        assert forall i | 0 <= i < |ops| - 2 :: ops[1..][i] == ops[i + 1];
      }
      ExecutedInFull(m, OpEnd(m, p), s', done);
    }
  }

  const V0 := StartLocal(0, StringId(0), TypeId(0), Null)

  lemma RunTwoStarts(s: State, done: Done)
    requires |s.regs| == 1 && !s.regs[0].live && s.address == 0 && s.entries == []
    ensures AllInRange([V0, AdvancePc(0x1_0000), V0, EndSequence], 1)
    ensures var r := Run(s, [V0, AdvancePc(0x1_0000), V0, EndSequence], done);
      && |r.entries| == 1 && r.entries[0].reg == 0 && r.entries[0].end == 0x1_0000
      && |r.regs| == 1 && r.regs[0].live && r.regs[0].start == 0x1_0000
  {
    var s1 := Step(s, V0, done).0;
    var s2 := Step(s1, AdvancePc(0x1_0000), done).0;
    var s3 := Step(s2, V0, done).0;
    RunStep(s, [V0, AdvancePc(0x1_0000), V0, EndSequence], done);
    RunStep(s1, [AdvancePc(0x1_0000), V0, EndSequence], done);
    RunStep(s2, [V0, EndSequence], done);
    RunStep(s3, [EndSequence], done);
    hide Run;
  }

  /** Whatever the state, the two starts leave two intervals in the end. */
  lemma TwoStarts(s: State, done: Done, insnsSize: U4)
    requires |s.regs| == 1 && !s.regs[0].live && s.address == 0 && s.entries == []
    ensures var r := Finish(Run(s, [V0, AdvancePc(0x1_0000), V0, EndSequence], done), insnsSize);
      && |r.entries| == 2 && r.entries[0].reg == r.entries[1].reg == 0
      && r.entries[0].end == 0x1_0000 == r.entries[1].start
  {
    RunTwoStarts(s, done);
    hide Run, Step, V0;
    var s4 := Run(s, [V0, AdvancePc(0x1_0000), V0, EndSequence], done).(address := insnsSize);
    assert EmitFrom(s4, 0) == EmitFrom(Emit(s4, 0), 1) == Emit(s4, 0);
  }

  lemma LongMethodsOverlap(insnsSize: U4, done: Done)
    requires insnsSize >= 0x1_0000
    ensures Overlaps(LONG_STREAM, 0, LongCode(insnsSize), done)
  {
    var code := LongCode(insnsSize);
    LongStreamStart(insnsSize);
    LongStreamOps();
    LongTotal();
    ExecutedInFull(LONG_STREAM, 2, Blank(code, 0), done);
    hide OpAt, OpEnd, Start, Ops, Executed, Run, Finish, LONG_STREAM, V0;
    TwoStarts(Blank(code, 0), done, insnsSize);
    var es := Decoded(LONG_STREAM, 0, code, done).entries;
    assert Calls(es)[0] == Call(es[0]) && Calls(es)[1] == Call(es[1]);
  }

  lemma LongTotal()
    ensures Total([V0, AdvancePc(0x1_0000), V0, EndSequence]) == 0x1_0000
    ensures AllInRange([V0, AdvancePc(0x1_0000), V0, EndSequence], 1)
  {
    assert Total([EndSequence]) == 0;
    assert Total([V0, EndSequence]) == 0;
    assert Total([AdvancePc(0x1_0000), V0, EndSequence]) == 0x1_0000;
  }

  /** Exactly below 65536 code units no stream makes the reported intervals of a register overlap. */
  lemma ReportedApartExactly(insnsSize: U4)
    ensures insnsSize < 0x1_0000 <==>
      forall m, p, code: Code, done | code.insnsSize == insnsSize && ArgumentsFit(code) :: !Overlaps(m, p, code, done)
  {
    if insnsSize >= 0x1_0000 {
      LongMethodsOverlap(insnsSize, _ => false);
    } else {
      forall m, p, code: Code, done | code.insnsSize == insnsSize && ArgumentsFit(code)
        ensures !Overlaps(m, p, code, done)
      {
        if Overlaps(m, p, code, done) {
          ShortMethodsAreApart(m, p, code, done);
        }
      }
    }
  }

  // ----- The decoder -----

  datatype LocalInfo = LocalInfo(name: Text, descriptor: Text, signature: Text, startAddress: U2, live: bool)

  /** What the callbacks are given, in order. */
  class Callbacks {
    var positions: seq<Position>
    var locals: seq<LocalCall>

    constructor ()
      ensures positions == [] && locals == []
    {
      positions, locals := [], [];
    }
  }

  ghost predicate Same(l: LocalInfo, s: Local) {
    l == LocalInfo(s.name, s.descriptor, s.signature, s.start % 0x1_0000, s.live)
  }

  ghost predicate SameFrom(ls: seq<LocalInfo>, s: State, reg: nat) {
    |ls| == |s.regs| && forall r | reg <= r < |ls| :: Same(ls[r], s.regs[r])
  }

  /** The table and the calls so far are those of the abstract state. */
  ghost predicate Shows(ls: seq<LocalInfo>, cnxt: Callbacks, s: State)
    reads cnxt
  {
    SameFrom(ls, s, 0) && cnxt.positions == s.positions && cnxt.locals == Calls(s.entries)
  }

  lemma CallsGrow(es: seq<Entry>, e: Entry)
    ensures Calls(es + [e]) == Calls(es) + [Call(e)]
  {
  }

  method EmitLocalCbIfLive(cnxt: Callbacks, reg: nat, endAddress: U4, localInReg: array<LocalInfo>, ghost s: State)
    requires reg < localInReg.Length == |s.regs| && Same(localInReg[reg], s.regs[reg]) && s.address == endAddress
    requires cnxt.locals == Calls(s.entries)
    modifies cnxt
    ensures cnxt.positions == old(cnxt.positions) && cnxt.locals == Calls(Emit(s, reg).entries)
  {
    if localInReg[reg].live {
      var l := localInReg[reg];
      cnxt.locals := cnxt.locals + [LocalCall(reg, l.startAddress, endAddress, l.name, l.descriptor, l.signature)];
      CallsGrow(s.entries, Emit(s, reg).entries[|s.entries|]);
    }
  }

  /** One turn of the decoding loop, after its arguments have been read. */
  method Execute(op: Op, cnxt: Callbacks, localInReg: array<LocalInfo>, address: U4, line: U4, done: Done, ghost s: State)
    returns (address': U4, line': U4, stop: bool)
    requires InRange(op, |s.regs|) && Shows(localInReg[..], cnxt, s) && address == s.address && line == s.line
    modifies cnxt, localInReg
    ensures var (s', stop') := Step(s, op, done);
      Shows(localInReg[..], cnxt, s') && address' == s'.address && line' == s'.line && stop == stop'
  {
    hide Calls;
    address', line', stop := address, line, false;
    match op
    case EndSequence => stop := true;
    case AdvancePc(delta) => address' := (address + delta) % 0x1_0000_0000;
    case AdvanceLine(diff) => line' := (line + diff) % 0x1_0000_0000;
    case StartLocal(reg, name, descriptor, signature) =>
      if reg > localInReg.Length {
        return address, line, true;
      }
      EmitLocalCbIfLive(cnxt, reg, address, localInReg, s);
      localInReg[reg] := LocalInfo(name, descriptor, signature, address % 0x1_0000, true);
    case EndLocal(reg) =>
      if reg > localInReg.Length {
        return address, line, true;
      }
      EmitLocalCbIfLive(cnxt, reg, address, localInReg, s);
      localInReg[reg] := localInReg[reg].(live := false);
    case RestartLocal(reg) =>
      if reg > localInReg.Length {
        return address, line, true;
      }
      if localInReg[reg].name == Null || localInReg[reg].descriptor == Null {
        return address, line, true;
      }
      if !localInReg[reg].live {
        localInReg[reg] := localInReg[reg].(startAddress := address % 0x1_0000, live := true);
      }
    case NoEffect =>
    case Special(adjusted) =>
      address' := (address + adjusted / LINE_RANGE) % 0x1_0000_0000;
      line' := (line + (LINE_BASE + adjusted % LINE_RANGE)) % 0x1_0000_0000;
      cnxt.positions := cnxt.positions + [Position(address', line')];
      stop := done(Position(address', line'));
  }

  method ReadStringIdx(m: seq<Byte>, p: nat) returns (text: Text, next: nat)
    requires p + 5 <= |m|
    ensures text == StringText(Leb128.Unsigned(m, p)) && next == Leb128.After(m, p)
  {
    var stringIdx;
    stringIdx, next := Leb128.ReadUnsignedLeb128(m, p);
    return if stringIdx == 0 then Null else StringId(stringIdx - 1), next;
  }

  method ReadTypeIdx(m: seq<Byte>, p: nat) returns (text: Text, next: nat)
    requires p + 5 <= |m|
    ensures text == TypeText(Leb128.Unsigned(m, p)) && next == Leb128.After(m, p)
  {
    var typeIdx;
    typeIdx, next := Leb128.ReadUnsignedLeb128(m, p);
    return if typeIdx == 0 then Null else TypeId(typeIdx - 1), next;
  }

  /** The opcode and its arguments. */
  method ReadOp(m: seq<Byte>, p: nat) returns (op: Op, next: nat)
    requires p + LONGEST <= |m|
    ensures op == OpAt(m, p) && next == OpEnd(m, p)
  {
    hide Leb128.Unsigned, Leb128.Signed, Leb128.Size;
    var opcode: int := m[p];
    next := p + 1;
    if opcode == DBG_END_SEQUENCE {
      op := EndSequence;
    } else if opcode == DBG_ADVANCE_PC {
      var delta;
      delta, next := Leb128.ReadUnsignedLeb128(m, next);
      op := AdvancePc(delta);
    } else if opcode == DBG_ADVANCE_LINE {
      var diff;
      diff, next := Leb128.ReadSignedLeb128(m, next);
      op := AdvanceLine(diff);
    } else if opcode == DBG_START_LOCAL || opcode == DBG_START_LOCAL_EXTENDED {
      var reg, name, descriptor, signature;
      reg, next := Leb128.ReadUnsignedLeb128(m, next);
      name, next := ReadStringIdx(m, next);
      descriptor, next := ReadTypeIdx(m, next);
      if opcode == DBG_START_LOCAL_EXTENDED {
        signature, next := ReadStringIdx(m, next);
      } else {
        signature := Null;
      }
      op := StartLocal(reg % 0x1_0000, name, descriptor, signature);
    } else if opcode == DBG_END_LOCAL {
      var reg;
      reg, next := Leb128.ReadUnsignedLeb128(m, next);
      op := EndLocal(reg % 0x1_0000);
    } else if opcode == DBG_RESTART_LOCAL {
      var reg;
      reg, next := Leb128.ReadUnsignedLeb128(m, next);
      op := RestartLocal(reg % 0x1_0000);
    } else if opcode <= DBG_SET_FILE {
      op := NoEffect;
    } else {
      op := Special(opcode - DBG_FIRST_SPECIAL);
    }
  }

  /** "this" and the named parameters; ok is false for an invalid stream. */
  method DecodeParameters(m: seq<Byte>, p: nat, code: Code, cnxt: Callbacks, localInReg: array<LocalInfo>)
    returns (next: nat, line: U4, ok: bool)
    requires ArgumentsFit(code) && !Start(m, p, code).Unreadable?
    requires localInReg.Length == code.registersSize && Shows(localInReg[..], cnxt, Blank(code, 0))
    modifies localInReg
    ensures var r := Start(m, p, code);
      && Shows(localInReg[..], cnxt, r.s) && r.s.address == 0 && r.s.line == line
      && ok == r.Ready? && (ok ==> next == r.p)
  {
    hide Leb128.Unsigned, Leb128.Size, Calls, Parameters;
    var parametersSize;
    line, next := Leb128.ReadUnsignedLeb128(m, p);
    parametersSize, next := Leb128.ReadUnsignedLeb128(m, next);
    var argReg: U2 := code.registersSize - code.insSize;
    if !code.isStatic {
      localInReg[argReg] := LocalInfo(This, ClassDescriptor, Null, 0, true);
      argReg := argReg + 1;
    }
    next, ok := DecodeNames(m, next, parametersSize, argReg, code, cnxt, localInReg, WithThis(code, line));
  }

  /** The loop over the parameters. */
  method DecodeNames(m: seq<Byte>, p: nat, parametersSize: U4, firstArg: U2, code: Code, cnxt: Callbacks,
                     localInReg: array<LocalInfo>, ghost s0: State)
    returns (next: nat, ok: bool)
    requires |s0.regs| == code.registersSize == localInReg.Length && Shows(localInReg[..], cnxt, s0) && s0.address == 0
    requires !Parameters(m, code, p, parametersSize, 0, firstArg, s0).Unreadable?
    modifies localInReg
    ensures var r := Parameters(m, code, p, parametersSize, 0, firstArg, s0);
      && Shows(localInReg[..], cnxt, r.s) && r.s.address == 0 && r.s.line == s0.line
      && ok == r.Ready? && (ok ==> next == r.p)
  {
    hide Leb128.Unsigned, Leb128.Size, Calls;
    ghost var s, r := s0, Parameters(m, code, p, parametersSize, 0, firstArg, s0);
    var k, n: int, argReg: U2 := 0, parametersSize, firstArg;
    next := p;
    while n != 0
      invariant n >= 0 && |s.regs| == code.registersSize && s.address == 0 && s.line == s0.line
      invariant Shows(localInReg[..], cnxt, s)
      invariant r == Parameters(m, code, next, n, k, argReg, s)
    {
      n := n - 1;
      if argReg >= code.registersSize || k >= |code.params| {
        return next, false;
      }
      var name;
      name, next := ReadStringIdx(m, next);
      var reg := argReg;
      argReg := (argReg + (if code.params[k].wide then 2 else 1)) % 0x1_0000;
      if name != Null {
        localInReg[reg] := LocalInfo(name, TypeId(code.params[k].typeIdx), Null, 0, true);
        s := Begin(s, reg, name, TypeId(code.params[k].typeIdx), Null);
      }
      k := k + 1;
    }
    ok := true;
  }

  /** dexDecodeDebugInfo0. The result says, for the proof, where decoding stopped. */
  method DecodeDebugInfo0(m: seq<Byte>, p: nat, code: Code, done: Done, cnxt: Callbacks, localInReg: array<LocalInfo>)
    returns (ghost s: State)
    requires ArgumentsFit(code) && WellFormed(m, p, code, done)
    requires localInReg.Length == code.registersSize && Shows(localInReg[..], cnxt, Blank(code, 0))
    modifies cnxt, localInReg
    ensures |s.regs| == code.registersSize && Shows(localInReg[..], cnxt, s)
    ensures Decoded(m, p, code, done) == Finish(s, code.insnsSize)
  {
    StartRegs(m, p, code);
    hide Finish, Parameters, Shows, Leb128.Unsigned, Leb128.Size;
    s := Start(m, p, code).s;
    var next, line, ok := DecodeParameters(m, p, code, cnxt, localInReg);
    if !ok {
      return;
    }
    var address: U4 := 0;
    ghost var rest := Executed(m, next, s, done).value;
    ghost var total := Run(s, rest, done);
    var stop := false;
    while !stop
      invariant |s.regs| == code.registersSize == localInReg.Length && Shows(localInReg[..], cnxt, s)
      invariant address == s.address && line == s.line
      invariant stop ==> total == s
      invariant !stop ==> AllInRange(rest, |s.regs|) && Run(s, rest, done) == total
      invariant !stop ==> Executed(m, next, s, done) == Some(rest)
      decreases !stop, |m| - next
    {
      var op;
      ExecutedAre(m, next, s, rest, done);
      RunStep(s, rest, done);
      hide Executed, Run, Step, OpAt, OpEnd;
      ghost var s' := Step(s, rest[0], done).0;
      op, next := ReadOp(m, next);
      address, line, stop := Execute(op, cnxt, localInReg, address, line, done, s);
      s, rest := s', rest[1..];
    }
  }

  lemma ExecutedAre(m: seq<Byte>, p: nat, s: State, ops: seq<Op>, done: Done)
    requires Executed(m, p, s, done) == Some(ops)
    ensures p + LONGEST <= |m| && ops != [] && ops[0] == OpAt(m, p) && InRange(ops[0], |s.regs|)
    ensures var (s', stop) := Step(s, ops[0], done); !stop ==> Executed(m, OpEnd(m, p), s', done) == Some(ops[1..])
  {
  }

  lemma RunStep(s: State, ops: seq<Op>, done: Done)
    requires AllInRange(ops, |s.regs|) && ops != []
    ensures var (s', stop) := Step(s, ops[0], done);
      && |s'.regs| == |s.regs| && Run(s, ops, done) == (if stop then s' else Run(s', ops[1..], done))
      && (ops[0] == EndSequence ==> stop)
  {
  }

  lemma SameAfterEmit(ls: seq<LocalInfo>, s: State, reg: nat)
    requires reg < |s.regs| && SameFrom(ls, s, reg)
    ensures Same(ls[reg], s.regs[reg]) && SameFrom(ls, Emit(s, reg), reg + 1)
    ensures Emit(s, reg).address == s.address && Emit(s, reg).positions == s.positions
    ensures s.entries == [] && !s.regs[reg].live ==> Emit(s, reg) == s
  {
  }

  /** dexDecodeDebugInfo; no stream stands for a zero debugInfoOff. */
  method DecodeDebugInfo(m: seq<Byte>, stream: Option<nat>, code: Code, done: Done)
    returns (positions: seq<Position>, locals: seq<LocalCall>)
    requires ArgumentsFit(code) && (stream.Some? ==> WellFormed(m, stream.value, code, done))
    ensures stream.None? ==> positions == [] && locals == []
    ensures stream.Some? ==>
      var s := Decoded(m, stream.value, code, done); positions == s.positions && locals == Calls(s.entries)
  {
    var cnxt := new Callbacks();
    var localInReg := new LocalInfo[code.registersSize](_ => LocalInfo(Null, Null, Null, 0, false));
    ghost var s := Blank(code, 0);
    if stream.Some? {
      s := DecodeDebugInfo0(m, stream.value, code, done, cnxt, localInReg);
    }
    s := s.(address := code.insnsSize);
    ghost var total := EmitFrom(s, 0);
    for reg := 0 to code.registersSize
      invariant |s.regs| == code.registersSize == localInReg.Length && SameFrom(localInReg[..], s, reg)
      invariant total == EmitFrom(s, reg) && s.address == code.insnsSize
      invariant cnxt.positions == s.positions && cnxt.locals == Calls(s.entries)
      invariant stream.None? ==> s == Blank(code, 0).(address := code.insnsSize)
    {
      EmitLocalCbIfLive(cnxt, reg, code.insnsSize, localInReg, s);
      SameAfterEmit(localInReg[..], s, reg);
      hide Emit, Calls, Same;
      s := Emit(s, reg);
    }
    return cnxt.positions, cnxt.locals;
  }
}
