/** What the callbacks of dexDecodeDebugInfo (libdex/DexDebugInfo.cpp) are given, read off the list of
    executed operations by looking back in it, without a table of registers. */
module DebugHistory {
  import opened Memory
  import opened DebugInfoSpec
  import opened DebugInfo
  import Leb128

  // ----- Looking back from operation n -----

  /** The address that the operations before n have advanced to. */
  function AddressAt(ops: seq<Op>, n: nat): nat
    requires n <= |ops|
  {
    if n == 0 then 0
    else
      AddressAt(ops, n - 1) + match ops[n - 1] case AdvancePc(delta) => delta case Special(adjusted) => adjusted / 15 case _ => 0
  }

  /** The line, before it is cut to 32 bits. */
  function LineAt(line: U4, ops: seq<Op>, n: nat): int
    requires n <= |ops|
  {
    if n == 0 then line
    else
      LineAt(line, ops, n - 1)
      + match ops[n - 1] case AdvanceLine(diff) => diff case Special(adjusted) => adjusted % 15 - 4 case _ => 0
  }

  /** The last start of the register before n, or -1. */
  function LastStart(ops: seq<Op>, n: nat, r: nat): (i: int)
    requires n <= |ops|
    ensures -1 <= i < n && (i >= 0 ==> ops[i].StartLocal? && ops[i].reg == r)
    ensures forall k | i < k < n :: !(ops[k].StartLocal? && ops[k].reg == r)
  {
    if n == 0 then -1
    else if ops[n - 1].StartLocal? && ops[n - 1].reg == r then n - 1
    else LastStart(ops, n - 1, r)
  }

  datatype Texts = Texts(name: Text, descriptor: Text, signature: Text)

  /** What the register is called: by its last start, or at first. */
  function CalledAt(first: Local, ops: seq<Op>, n: nat, r: nat): Texts
    requires n <= |ops|
  {
    var i := LastStart(ops, n, r);
    if i < 0 then Texts(first.name, first.descriptor, first.signature)
    else Texts(ops[i].name, ops[i].descriptor, ops[i].signature)
  }

  /** Operation i restarts the register; one without name and type is invalid and the last to be
      executed. */
  predicate Restarts(first: Local, ops: seq<Op>, i: nat, r: nat)
    requires i < |ops|
  {
    && ops[i].RestartLocal? && ops[i].reg == r
    && CalledAt(first, ops, i, r).name != Null && CalledAt(first, ops, i, r).descriptor != Null
  }

  predicate Acts(first: Local, ops: seq<Op>, i: nat, r: nat)
    requires i < |ops|
  {
    || (ops[i].StartLocal? && ops[i].reg == r) || (ops[i].EndLocal? && ops[i].reg == r)
    || Restarts(first, ops, i, r)
  }

  /** The last operation on the register before n, or -1. */
  function LastAct(first: Local, ops: seq<Op>, n: nat, r: nat): (i: int)
    requires n <= |ops|
    ensures -1 <= i < n && (i >= 0 ==> Acts(first, ops, i, r))
    ensures forall k | i < k < n :: !Acts(first, ops, k, r)
  {
    if n == 0 then -1 else if Acts(first, ops, n - 1, r) then n - 1 else LastAct(first, ops, n - 1, r)
  }

  /** The register lives unless the last operation on it was its end. */
  predicate LivesAt(first: Local, ops: seq<Op>, n: nat, r: nat)
    requires n <= |ops|
  {
    var i := LastAct(first, ops, n, r);
    if i < 0 then first.live else !ops[i].EndLocal?
  }

  /** A local begins with every start, and with a restart after an end. */
  predicate Begins(first: Local, ops: seq<Op>, i: nat, r: nat)
    requires i < |ops|
  {
    (ops[i].StartLocal? && ops[i].reg == r) || (Restarts(first, ops, i, r) && !LivesAt(first, ops, i, r))
  }

  function LastBegin(first: Local, ops: seq<Op>, n: nat, r: nat): (i: int)
    requires n <= |ops|
    ensures -1 <= i < n && (i >= 0 ==> Begins(first, ops, i, r))
    ensures forall k | i < k < n :: !Begins(first, ops, k, r)
  {
    if n == 0 then -1 else if Begins(first, ops, n - 1, r) then n - 1 else LastBegin(first, ops, n - 1, r)
  }

  function StartedAt(first: Local, ops: seq<Op>, n: nat, r: nat): nat
    requires n <= |ops|
  {
    var i := LastBegin(first, ops, n, r);
    if i < 0 then first.start else AddressAt(ops, i)
  }

  function EntryOf(first: Local, ops: seq<Op>, n: nat, r: nat, end: nat): Entry
    requires n <= |ops|
  {
    var t := CalledAt(first, ops, n, r);
    Entry(r, StartedAt(first, ops, n, r), end, t.name, t.descriptor, t.signature)
  }

  /** A start or an end closes the interval of a register that lives. */
  predicate Closes(regs: seq<Local>, ops: seq<Op>, i: nat)
    requires i < |ops|
  {
    (ops[i].StartLocal? || ops[i].EndLocal?) && ops[i].reg < |regs| && LivesAt(regs[ops[i].reg], ops, i, ops[i].reg)
  }

  /** The intervals closed by the operations before n. */
  function Closed(regs: seq<Local>, ops: seq<Op>, n: nat): seq<Entry>
    requires n <= |ops|
  {
    if n == 0 then []
    else if Closes(regs, ops, n - 1) then
      Closed(regs, ops, n - 1) + [EntryOf(regs[ops[n - 1].reg], ops, n - 1, ops[n - 1].reg, AddressAt(ops, n - 1))]
    else Closed(regs, ops, n - 1)
  }

  /** The intervals of the registers from r on that are still open at the end. */
  function StillOpen(regs: seq<Local>, ops: seq<Op>, r: nat, end: nat): seq<Entry>
    requires r <= |regs|
    decreases |regs| - r
  {
    if r == |regs| then []
    else (if LivesAt(regs[r], ops, |ops|, r) then [EntryOf(regs[r], ops, |ops|, r, end)] else []) + StillOpen(regs, ops, r + 1, end)
  }

  /** The beginnings among the operations before n, as pairs of a register and an address. */
  function Begun(regs: seq<Local>, ops: seq<Op>, n: nat): multiset<(nat, nat)>
    requires n <= |ops|
  {
    if n == 0 then multiset{}
    else Begun(regs, ops, n - 1) + BegunBy(regs, ops, n - 1)
  }

  function BegunBy(regs: seq<Local>, ops: seq<Op>, i: nat): multiset<(nat, nat)>
    requires i < |ops|
  {
    if (ops[i].StartLocal? || ops[i].RestartLocal?) && ops[i].reg < |regs| && Begins(regs[ops[i].reg], ops, i, ops[i].reg)
    then multiset{(ops[i].reg, AddressAt(ops, i))} else multiset{}
  }

  /** One position for every special opcode, behind it. */
  function Passed(line: U4, ops: seq<Op>, n: nat): seq<Position>
    requires n <= |ops| && AddressAt(ops, n) < 0x1_0000_0000
  {
    if n == 0 then []
    else if ops[n - 1].Special? then
      Passed(line, ops, n - 1) + [Position(AddressAt(ops, n), LineAt(line, ops, n) % 0x1_0000_0000)]
    else Passed(line, ops, n - 1)
  }

  // ----- The table of registers keeps exactly this -----

  ghost predicate RegisterKept(first: Local, l: Local, ops: seq<Op>, n: nat, r: nat)
    requires n <= |ops|
  {
    var t := CalledAt(first, ops, n, r);
    l == Local(t.name, t.descriptor, t.signature, StartedAt(first, ops, n, r), LivesAt(first, ops, n, r))
  }

  ghost predicate TableKept(regs0: seq<Local>, regs: seq<Local>, ops: seq<Op>, n: nat)
    requires n <= |ops|
  {
    |regs| == |regs0| && forall r | 0 <= r < |regs0| :: RegisterKept(regs0[r], regs[r], ops, n, r)
  }

  /** s is the state that began as s0, after n operations. */
  ghost predicate Kept(s0: State, s: State, ops: seq<Op>, n: nat)
    requires n <= |ops|
  {
    && AddressAt(ops, n) < 0x1_0000_0000
    && s.address == AddressAt(ops, n) && s.line == LineAt(s0.line, ops, n) % 0x1_0000_0000
    && TableKept(s0.regs, s.regs, ops, n)
    && s.entries == s0.entries + Closed(s0.regs, ops, n) && s.positions == s0.positions + Passed(s0.line, ops, n)
    && s.births == s0.births + Begun(s0.regs, ops, n)
  }

  lemma KeptAtFirst(s: State, ops: seq<Op>)
    requires s.address == 0
    ensures Kept(s, s, ops, 0)
  {
  }

  /** An operation that does not act on a register leaves it. */
  lemma RegisterLeft(first: Local, l: Local, ops: seq<Op>, n: nat, r: nat)
    requires n < |ops| && RegisterKept(first, l, ops, n, r) && !Acts(first, ops, n, r)
    ensures RegisterKept(first, l, ops, n + 1, r)
  {
  }

  lemma RegisterStarted(first: Local, ops: seq<Op>, n: nat, r: nat)
    requires n < |ops| && ops[n].StartLocal? && ops[n].reg == r
    ensures RegisterKept(first, Local(ops[n].name, ops[n].descriptor, ops[n].signature, AddressAt(ops, n), true), ops, n + 1, r)
  {
  }

  lemma RegisterEnded(first: Local, l: Local, ops: seq<Op>, n: nat, r: nat)
    requires n < |ops| && RegisterKept(first, l, ops, n, r) && ops[n].EndLocal? && ops[n].reg == r
    ensures RegisterKept(first, l.(live := false), ops, n + 1, r)
  {
  }

  lemma RegisterRestarted(first: Local, l: Local, ops: seq<Op>, n: nat, r: nat)
    requires n < |ops| && RegisterKept(first, l, ops, n, r) && ops[n].RestartLocal? && ops[n].reg == r
    requires l.name != Null && l.descriptor != Null
    ensures RegisterKept(first, if l.live then l else l.(start := AddressAt(ops, n), live := true), ops, n + 1, r)
    ensures l.live <==> !Begins(first, ops, n, r)
  {
  }

  /** Only the register of the operation changes. */
  lemma TableStep(regs0: seq<Local>, regs: seq<Local>, ops: seq<Op>, n: nat, reg: nat, l: Local)
    requires n < |ops| && TableKept(regs0, regs, ops, n) && reg < |regs|
    requires forall r | 0 <= r < |regs0| && r != reg :: !Acts(regs0[r], ops, n, r)
    requires RegisterKept(regs0[reg], l, ops, n + 1, reg)
    ensures TableKept(regs0, regs[reg := l], ops, n + 1)
  {
    hide RegisterKept, Acts;
    forall r | 0 <= r < |regs0| ensures RegisterKept(regs0[r], regs[reg := l][r], ops, n + 1, r) {
      if r != reg {
        RegisterLeft(regs0[r], regs[r], ops, n, r);
      }
    }
  }

  lemma TableLeft(regs0: seq<Local>, regs: seq<Local>, ops: seq<Op>, n: nat)
    requires n < |ops| && TableKept(regs0, regs, ops, n)
    requires forall r | 0 <= r < |regs0| :: !Acts(regs0[r], ops, n, r)
    ensures TableKept(regs0, regs, ops, n + 1)
  {
    hide RegisterKept, Acts;
    forall r | 0 <= r < |regs0| ensures RegisterKept(regs0[r], regs[r], ops, n + 1, r) {
      RegisterLeft(regs0[r], regs[r], ops, n, r);
    }
  }

  /** An operation that is invalid, or not about registers, changes the address and line at most. */
  lemma QuietStep(s0: State, s: State, ops: seq<Op>, n: nat, s': State)
    requires n < |ops| && Kept(s0, s, ops, n) && AddressAt(ops, n + 1) < 0x1_0000_0000
    requires forall r | 0 <= r < |s0.regs| :: !Acts(s0.regs[r], ops, n, r)
    requires s'.address == AddressAt(ops, n + 1) && s'.line == LineAt(s0.line, ops, n + 1) % 0x1_0000_0000
    requires s'.regs == s.regs && s'.entries == s.entries && s'.births == s.births
    requires s'.positions == s.positions + if ops[n].Special? then [Position(s'.address, s'.line)] else []
    ensures Kept(s0, s', ops, n + 1)
  {
    TableLeft(s0.regs, s.regs, ops, n);
    hide TableKept, AddressAt, LineAt, LivesAt;
    if ops[n].StartLocal? || ops[n].EndLocal? || ops[n].RestartLocal? {
      var r := ops[n].reg;
      assert r < |s0.regs| ==> !Acts(s0.regs[r], ops, n, r);
    }
  }

  /** An operation on one register of the table. */
  lemma ActStep(s0: State, s: State, ops: seq<Op>, n: nat, reg: nat, l: Local, s': State)
    requires n < |ops| && Kept(s0, s, ops, n) && reg < |s.regs|
    requires ops[n].StartLocal? || ops[n].EndLocal? || ops[n].RestartLocal?
    requires ops[n].reg == reg && RegisterKept(s0.regs[reg], l, ops, n + 1, reg)
    requires s' == s.(regs := s.regs[reg := l],
                      entries := s.entries + EntriesBy(s0.regs, ops, n), births := s.births + BegunBy(s0.regs, ops, n))
    ensures Kept(s0, s', ops, n + 1)
  {
    TableStep(s0.regs, s.regs, ops, n, reg, l);
    ActFacts(s0.regs, s0.line, ops, n);
    hide *;
    KeptFrom(s0, s, ops, n, s');
  }

  lemma ActFacts(regs: seq<Local>, line: U4, ops: seq<Op>, n: nat)
    requires n < |ops| && AddressAt(ops, n) < 0x1_0000_0000
    requires ops[n].StartLocal? || ops[n].EndLocal? || ops[n].RestartLocal?
    ensures AddressAt(ops, n + 1) == AddressAt(ops, n) && LineAt(line, ops, n + 1) == LineAt(line, ops, n)
    ensures Closed(regs, ops, n + 1) == Closed(regs, ops, n) + EntriesBy(regs, ops, n)
    ensures Passed(line, ops, n + 1) == Passed(line, ops, n)
    ensures Begun(regs, ops, n + 1) == Begun(regs, ops, n) + BegunBy(regs, ops, n)
  {
    hide Closes, EntryOf;
  }

  function EntriesBy(regs: seq<Local>, ops: seq<Op>, i: nat): seq<Entry>
    requires i < |ops|
  {
    if Closes(regs, ops, i) then [EntryOf(regs[ops[i].reg], ops, i, ops[i].reg, AddressAt(ops, i))] else []
  }

  lemma KeptFrom(s0: State, s: State, ops: seq<Op>, n: nat, s': State)
    requires n < |ops| && Kept(s0, s, ops, n) && TableKept(s0.regs, s'.regs, ops, n + 1)
    requires AddressAt(ops, n + 1) == AddressAt(ops, n) && LineAt(s0.line, ops, n + 1) == LineAt(s0.line, ops, n)
    requires Closed(s0.regs, ops, n + 1) == Closed(s0.regs, ops, n) + EntriesBy(s0.regs, ops, n)
    requires Passed(s0.line, ops, n + 1) == Passed(s0.line, ops, n)
    requires Begun(s0.regs, ops, n + 1) == Begun(s0.regs, ops, n) + BegunBy(s0.regs, ops, n)
    requires s' == s.(regs := s'.regs,
                      entries := s.entries + EntriesBy(s0.regs, ops, n), births := s.births + BegunBy(s0.regs, ops, n))
    ensures Kept(s0, s', ops, n + 1)
  {
    hide Closed, Passed, Begun, AddressAt, LineAt, TableKept, EntriesBy, BegunBy;
    var e, c, x := s0.entries, Closed(s0.regs, ops, n), EntriesBy(s0.regs, ops, n);
    assert (e + c) + x == e + (c + x);
    var b, d, y := s0.births, Begun(s0.regs, ops, n), BegunBy(s0.regs, ops, n);
    assert (b + d) + y == b + (d + y);
  }

  /** Start a local: the one before ends, if there is one. */
  lemma StartStep(s0: State, s: State, ops: seq<Op>, n: nat)
    requires n < |ops| && Kept(s0, s, ops, n)
    requires ops[n].StartLocal? && ops[n].reg < |s.regs|
    ensures var o := ops[n]; Kept(s0, Begin(Emit(s, o.reg), o.reg, o.name, o.descriptor, o.signature), ops, n + 1)
  {
    var o := ops[n];
    var l := Local(o.name, o.descriptor, o.signature, s.address, true);
    assert RegisterKept(s0.regs[o.reg], s.regs[o.reg], ops, n, o.reg);
    RegisterStarted(s0.regs[o.reg], ops, n, o.reg);
    hide TableKept, AddressAt, LineAt, LivesAt, CalledAt, StartedAt;
    var s' := Begin(Emit(s, o.reg), o.reg, o.name, o.descriptor, o.signature);
    assert s'.regs == s.regs[o.reg := l];
    ActStep(s0, s, ops, n, o.reg, l, s');
  }

  lemma EndStep(s0: State, s: State, ops: seq<Op>, n: nat)
    requires n < |ops| && Kept(s0, s, ops, n)
    requires ops[n].EndLocal? && ops[n].reg < |s.regs|
    ensures Kept(s0, Emit(s, ops[n].reg), ops, n + 1)
  {
    var reg := ops[n].reg;
    var l := s.regs[reg].(live := false);
    assert RegisterKept(s0.regs[reg], s.regs[reg], ops, n, reg);
    RegisterEnded(s0.regs[reg], s.regs[reg], ops, n, reg);
    hide TableKept, AddressAt, LineAt, LivesAt, CalledAt, StartedAt;
    var s' := Emit(s, reg);
    assert s'.regs == s.regs[reg := l];
    ActStep(s0, s, ops, n, reg, l, s');
  }

  lemma RestartStep(s0: State, s: State, ops: seq<Op>, n: nat)
    requires n < |ops| && Kept(s0, s, ops, n)
    requires ops[n].RestartLocal? && ops[n].reg < |s.regs|
    requires s.regs[ops[n].reg].name != Null && s.regs[ops[n].reg].descriptor != Null
    ensures var l := s.regs[ops[n].reg];
      Kept(s0, if l.live then s else Begin(s, ops[n].reg, l.name, l.descriptor, l.signature), ops, n + 1)
  {
    var reg := ops[n].reg;
    var l := s.regs[reg];
    var s' := if l.live then s else Begin(s, reg, l.name, l.descriptor, l.signature);
    assert RegisterKept(s0.regs[reg], l, ops, n, reg);
    RegisterRestarted(s0.regs[reg], l, ops, n, reg);
    hide TableKept, AddressAt, LineAt, LivesAt, CalledAt, StartedAt, Begins;
    assert s'.regs == s.regs[reg := s'.regs[reg]];
    assert s.entries + [] == s.entries && s.births + multiset{} == s.births;
    ActStep(s0, s, ops, n, reg, s'.regs[reg], s');
  }

  lemma OtherStep(s0: State, s: State, ops: seq<Op>, n: nat, done: Done)
    requires n < |ops| && Kept(s0, s, ops, n) && AddressAt(ops, n + 1) < 0x1_0000_0000
    requires ops[n].EndSequence? || ops[n].AdvancePc? || ops[n].AdvanceLine? || ops[n].NoEffect? || ops[n].Special?
    ensures Kept(s0, Step(s, ops[n], done).0, ops, n + 1)
  {
    var s' := Step(s, ops[n], done).0;
    AddressAndLine(s0, s, ops, n, done);
    hide Kept, AddressAt, LineAt;
    QuietStep(s0, s, ops, n, s');
  }

  lemma AddressAndLine(s0: State, s: State, ops: seq<Op>, n: nat, done: Done)
    requires n < |ops| && Kept(s0, s, ops, n) && AddressAt(ops, n + 1) < 0x1_0000_0000
    requires ops[n].EndSequence? || ops[n].AdvancePc? || ops[n].AdvanceLine? || ops[n].NoEffect? || ops[n].Special?
    ensures var s' := Step(s, ops[n], done).0;
      && s'.address == AddressAt(ops, n + 1) && s'.line == LineAt(s0.line, ops, n + 1) % 0x1_0000_0000
      && s'.positions == s.positions + if ops[n].Special? then [Position(s'.address, s'.line)] else []
  {
    hide TableKept, Closed, Passed, Begun;
    var line := LineAt(s0.line, ops, n);
    match ops[n]
    case AdvanceLine(diff) => LineWraps(line, diff);
    case Special(adjusted) => LineWraps(line, adjusted % 15 - 4);
    case _ =>
  }

  lemma LineWraps(line: int, diff: int)
    ensures (line % 0x1_0000_0000 + diff) % 0x1_0000_0000 == (line + diff) % 0x1_0000_0000
  {
    var q := line / 0x1_0000_0000;
    assert line + diff == 0x1_0000_0000 * q + (line % 0x1_0000_0000 + diff);
  }

  /** A register behind the table, or a restart of one without name or type: nothing changes. */
  lemma InvalidStep(s0: State, s: State, ops: seq<Op>, n: nat)
    requires n < |ops| && Kept(s0, s, ops, n)
    requires ops[n].StartLocal? || ops[n].EndLocal? || ops[n].RestartLocal?
    requires ops[n].reg >= |s.regs| || (ops[n].RestartLocal? &&
      (s.regs[ops[n].reg].name == Null || s.regs[ops[n].reg].descriptor == Null))
    ensures Kept(s0, s, ops, n + 1)
  {
    var reg := ops[n].reg;
    if reg < |s.regs| {
      assert RegisterKept(s0.regs[reg], s.regs[reg], ops, n, reg);
    }
    assert AddressAt(ops, n + 1) == AddressAt(ops, n) && LineAt(s0.line, ops, n + 1) == LineAt(s0.line, ops, n);
    hide AddressAt, LineAt, LivesAt, StartedAt, Closed, Passed, Begun;
    QuietStep(s0, s, ops, n, s);
  }

  lemma StepKept(s0: State, s: State, ops: seq<Op>, n: nat, done: Done)
    requires n < |ops| && Kept(s0, s, ops, n) && AddressAt(ops, n + 1) < 0x1_0000_0000 && InRange(ops[n], |s.regs|)
    ensures Kept(s0, Step(s, ops[n], done).0, ops, n + 1)
  {
    hide Kept, AddressAt, Emit, Begin, Advance, AddLine, Record;
    match ops[n]
    case StartLocal(reg, _, _, _) =>
      if reg < |s.regs| {
        StartStep(s0, s, ops, n);
      } else {
        InvalidStep(s0, s, ops, n);
      }
    case EndLocal(reg) =>
      if reg < |s.regs| {
        EndStep(s0, s, ops, n);
      } else {
        InvalidStep(s0, s, ops, n);
      }
    case RestartLocal(reg) =>
      if reg < |s.regs| && s.regs[reg].name != Null && s.regs[reg].descriptor != Null {
        RestartStep(s0, s, ops, n);
      } else {
        InvalidStep(s0, s, ops, n);
      }
    case _ => OtherStep(s0, s, ops, n, done);
  }

  // ----- Over a whole stream -----

  lemma {:induction false} AddressesGrow(ops: seq<Op>, n: nat, k: nat)
    requires n <= k <= |ops|
    ensures AddressAt(ops, n) <= AddressAt(ops, k)
  {
    if n < k {
      AddressesGrow(ops, n, k - 1);
    }
  }

  /** What the decoder executes from operation n on leads to the state after all of them. */
  lemma {:induction false} ExecutedKept(m: seq<Byte>, p: nat, s0: State, s: State, ops: seq<Op>, n: nat, done: Done)
    requires n < |ops| && Executed(m, p, s, done) == Some(ops[n..]) && Kept(s0, s, ops, n)
    requires AddressAt(ops, |ops|) < 0x1_0000_0000
    ensures AllInRange(ops[n..], |s.regs|) && Kept(s0, Run(s, ops[n..], done), ops, |ops|)
    decreases |ops| - n
  {
    var rest := ops[n..];
    ExecutedAre(m, p, s, rest, done);
    assert rest[0] == ops[n] && rest[1..] == ops[n + 1..];
    StopsLast(m, p, s, rest, done);
    hide Executed, Step, Kept, AddressAt, OpAt, OpEnd;
    AddressesGrow(ops, n + 1, |ops|);
    StepKept(s0, s, ops, n, done);
    RunStep(s, rest, done);
    var (s', stop) := Step(s, ops[n], done);
    if !stop {
      ExecutedKept(m, OpEnd(m, p), s0, s', ops, n + 1, done);
    }
  }

  /** The operation that stops is the last one that is executed. */
  lemma StopsLast(m: seq<Byte>, p: nat, s: State, ops: seq<Op>, done: Done)
    requires Executed(m, p, s, done) == Some(ops)
    ensures ops != [] && InRange(ops[0], |s.regs|)
    ensures if Step(s, ops[0], done).1 then |ops| == 1 else |ops| > 1
  {
    hide Step;
    var (s', stop) := Step(s, OpAt(m, p), done);
    if !stop {
      var rest := Executed(m, OpEnd(m, p), s', done);
      ExecutedAre(m, OpEnd(m, p), s', rest.value, done);
    }
  }

  ghost predicate KeptFromOn(regs0: seq<Local>, regs: seq<Local>, ops: seq<Op>, r0: nat) {
    |regs| == |regs0| && forall r | r0 <= r < |regs0| :: RegisterKept(regs0[r], regs[r], ops, |ops|, r)
  }

  /** The last loop reports the registers that still live. */
  lemma {:induction false} FinishKept(regs0: seq<Local>, s: State, ops: seq<Op>, r: nat, end: nat)
    requires KeptFromOn(regs0, s.regs, ops, r) && r <= |s.regs| && s.address == end
    ensures EmitFrom(s, r).entries == s.entries + StillOpen(regs0, ops, r, end)
    ensures EmitFrom(s, r).positions == s.positions
    decreases |s.regs| - r
  {
    if r < |s.regs| {
      assert RegisterKept(regs0[r], s.regs[r], ops, |ops|, r);
      FinishKept(regs0, Emit(s, r), ops, r + 1, end);
      hide KeptFromOn, LivesAt, CalledAt, StartedAt;
      var one := if LivesAt(regs0[r], ops, |ops|, r) then [EntryOf(regs0[r], ops, |ops|, r, end)] else [];
      var rest := StillOpen(regs0, ops, r + 1, end);
      assert Emit(s, r).entries == s.entries + one;
      assert (s.entries + one) + rest == s.entries + (one + rest);
    }
  }

  // ----- The first locals -----

  /** The register of parameter k. */
  function ParamReg(code: Code, k: nat): nat
    requires k <= |code.params| && code.insSize <= code.registersSize
  {
    code.registersSize - code.insSize + (if code.isStatic then 0 else 1) + Words(code.params[..k])
  }

  /** The registers with "this" and the first n parameters that have a name. */
  function FirstRegs(code: Code, names: seq<Text>, n: nat): (regs: seq<Local>)
    requires ArgumentsFit(code) && n <= |names| && n <= |code.params|
    ensures |regs| == code.registersSize
  {
    if n == 0 then
      var none := seq(code.registersSize, _ => Local(Null, Null, Null, 0, false));
      if code.isStatic then none
      else none[code.registersSize - code.insSize := Local(This, ClassDescriptor, Null, 0, true)]
    else
      ParamFits(code, n - 1);
      var before := FirstRegs(code, names, n - 1);
      if names[n - 1] == Null then before
      else before[ParamReg(code, n - 1) := Local(names[n - 1], TypeId(code.params[n - 1].typeIdx), Null, 0, true)]
  }

  lemma {:induction false} WordsSplit(params: seq<Param>, k: nat)
    requires k <= |params|
    ensures Words(params) == Words(params[..k]) + Words(params[k..])
  {
    if k == 0 {
      assert params[..0] == [] && params[0..] == params;
    } else {
      WordsSplit(params[1..], k - 1);
      assert params[1..][..k - 1] == params[..k][1..] && params[1..][k - 1..] == params[k..];
    }
  }

  lemma ParamFits(code: Code, k: nat)
    requires ArgumentsFit(code) && k < |code.params|
    ensures ParamReg(code, k) < code.registersSize
    ensures ParamReg(code, k + 1) == ParamReg(code, k) + (if code.params[k].wide then 2 else 1) <= code.registersSize
  {
    WordsSplit(code.params, k);
    WordsSplit(code.params[k..], 1);
    assert code.params[k..][1..] == code.params[k + 1..];
    WordsSplit(code.params, k + 1);
  }

  lemma AllParams(code: Code)
    requires ArgumentsFit(code)
    ensures ParamReg(code, |code.params|) == code.registersSize
  {
    assert code.params[..|code.params|] == code.params;
  }

  /** n encoded names from p on. */
  function NamesAt(m: seq<Byte>, p: nat, n: nat): Option<seq<Text>>
    decreases n
  {
    if n == 0 then Some([])
    else if p + 5 > |m| then None
    else
      match NamesAt(m, Leb128.After(m, p), n - 1)
      case None => None
      case Some(rest) => Some([if Leb128.Unsigned(m, p) == 0 then Null else StringId(Leb128.Unsigned(m, p) - 1)] + rest)
  }

  function Min(a: nat, b: nat): nat { if a < b then a else b }

  /** Where the parameters can be read so can their names. */
  lemma {:induction false} NamesReadable(m: seq<Byte>, code: Code, p: nat, n: nat, k: nat, argReg: U2, s: State)
    requires ArgumentsFit(code) && |s.regs| == code.registersSize && k <= |code.params| && argReg == ParamReg(code, k)
    requires !Parameters(m, code, p, n, k, argReg, s).Unreadable?
    ensures NamesAt(m, p, Min(n, |code.params| - k)).Some?
    ensures |NamesAt(m, p, Min(n, |code.params| - k)).value| == Min(n, |code.params| - k)
    decreases n
  {
    if n > 0 && k < |code.params| {
      ParamFits(code, k);
      hide ParamReg, Leb128.Size, Leb128.Unsigned;
      var name, param := StringText(Leb128.Unsigned(m, p)), code.params[k];
      var s' := if name == Null then s else Begin(s, argReg, name, TypeId(param.typeIdx), Null);
      NamesReadable(m, code, Leb128.After(m, p), n - 1, k + 1, NextArg(argReg, param), s');
    }
  }

  /** The table with the first k parameters begun, and nothing reported. */
  ghost predicate NamedUpTo(code: Code, names: seq<Text>, k: nat, s: State)
    requires ArgumentsFit(code) && k <= |names| <= |code.params|
  {
    s.regs == FirstRegs(code, names, k) && s.address == 0 && s.entries == [] && s.positions == []
  }

  lemma NameOneMore(code: Code, names: seq<Text>, k: nat, s: State)
    requires ArgumentsFit(code) && k < |names| <= |code.params| && NamedUpTo(code, names, k, s)
    ensures var param := code.params[k];
      && ParamReg(code, k) < |s.regs|
      && NamedUpTo(code, names, k + 1,
                   if names[k] == Null then s else Begin(s, ParamReg(code, k), names[k], TypeId(param.typeIdx), Null))
  {
    ParamFits(code, k);
    hide ParamReg;
  }

  /** The parameters are named as the list says, as far as there are parameters. */
  lemma {:induction false} ParametersAre(m: seq<Byte>, code: Code, p: nat, n: nat, k: nat, argReg: U2, s: State,
                                         names: seq<Text>)
    requires ArgumentsFit(code) && k <= |names| <= |code.params| && argReg == ParamReg(code, k)
    requires |names| - k == Min(n, |code.params| - k) && NamesAt(m, p, |names| - k) == Some(names[k..])
    requires NamedUpTo(code, names, k, s)
    ensures var r := Parameters(m, code, p, n, k, argReg, s);
      && !r.Unreadable? && NamedUpTo(code, names, |names|, r.s) && r.s.line == s.line && (r.Ready? <==> n == |names| - k)
    decreases n
  {
    AllParams(code);
    if n > 0 && k < |code.params| {
      ParamFits(code, k);
      NameOneMore(code, names, k, s);
      FirstName(m, p, names[k..]);
      assert names[k..][1..] == names[k + 1..];
      ParametersStep(m, code, p, n, k, argReg, s, names[k]);
      hide ParamReg, NamedUpTo, Leb128.Size, Leb128.Unsigned, NamesAt, Parameters, Begin;
      var name, param := names[k], code.params[k];
      var s' := if name == Null then s else Begin(s, argReg, name, TypeId(param.typeIdx), Null);
      ParametersAre(m, code, Leb128.After(m, p), n - 1, k + 1, NextArg(argReg, param), s', names);
    }
  }

  lemma ParametersStep(m: seq<Byte>, code: Code, p: nat, n: nat, k: nat, argReg: U2, s: State, name: Text)
    requires |s.regs| == code.registersSize > argReg && k < |code.params| && n > 0
    requires p + 5 <= |m| && StringText(Leb128.Unsigned(m, p)) == name
    ensures var param := code.params[k];
      var s' := if name == Null then s else Begin(s, argReg, name, TypeId(param.typeIdx), Null);
      Parameters(m, code, p, n, k, argReg, s) == Parameters(m, code, Leb128.After(m, p), n - 1, k + 1, NextArg(argReg, param), s')
  {
    hide Leb128.Size, Leb128.Unsigned;
  }

  lemma FirstName(m: seq<Byte>, p: nat, names: seq<Text>)
    requires names != [] && NamesAt(m, p, |names|) == Some(names)
    ensures p + 5 <= |m| && StringText(Leb128.Unsigned(m, p)) == names[0]
    ensures NamesAt(m, Leb128.After(m, p), |names| - 1) == Some(names[1..])
  {
    hide Leb128.Size, Leb128.Unsigned;
  }

  // ----- Main result -----

  /** The names that the decoder reads for the parameters of the method. */
  function NamesOf(m: seq<Byte>, p: nat, code: Code): Option<seq<Text>> {
    if p + 10 > |m| then None
    else
      var sizeAt := Leb128.After(m, p);
      NamesAt(m, Leb128.After(m, sizeAt), Min(Leb128.Unsigned(m, sizeAt), |code.params|))
  }

  /** The table at the start of the operations. */
  lemma StartIs(m: seq<Byte>, p: nat, code: Code)
    requires ArgumentsFit(code) && !Start(m, p, code).Unreadable?
    ensures NamesOf(m, p, code).Some? && |NamesOf(m, p, code).value| <= |code.params|
    ensures var s, names := Start(m, p, code).s, NamesOf(m, p, code).value;
      && s.regs == FirstRegs(code, names, |names|) && s.address == 0 && s.line == Leb128.Unsigned(m, p)
      && s.entries == [] && s.positions == []
  {
    hide Leb128.Unsigned, Leb128.Size, Parameters, NamesAt;
    var sizeAt := Leb128.After(m, p);
    var q, n := Leb128.After(m, sizeAt), Leb128.Unsigned(m, sizeAt);
    var s := WithThis(code, Leb128.Unsigned(m, p));
    assert code.params[..0] == [];
    NamesReadable(m, code, q, n, 0, FirstArg(code), s);
    var names := NamesOf(m, p, code).value;
    assert names[0..] == names;
    ThisFirst(code, names, Leb128.Unsigned(m, p));
    ParametersAre(m, code, q, n, 0, FirstArg(code), s, names);
  }

  lemma ThisFirst(code: Code, names: seq<Text>, line: U4)
    requires ArgumentsFit(code)
    ensures WithThis(code, line).regs == FirstRegs(code, names, 0)
  {
    assert Blank(code, line).regs == seq(code.registersSize, _ => Local(Null, Null, Null, 0, false));
  }

  lemma {:induction false} TotalIs(ops: seq<Op>, n: nat)
    requires n <= |ops|
    ensures AddressAt(ops, n) + Total(ops[n..]) == Total(ops)
  {
    if n == 0 {
      assert ops[0..] == ops;
    } else {
      TotalIs(ops, n - 1);
      assert ops[n - 1..][1..] == ops[n..] && ops[n - 1..][0] == ops[n - 1];
    }
  }

  /** What has been executed: nothing for an invalid list of parameters. */
  function ExecutedOf(m: seq<Byte>, p: nat, code: Code, done: Done): seq<Op>
    requires ArgumentsFit(code) && WellFormed(m, p, code, done)
  {
    match Start(m, p, code)
    case Invalid(_) => []
    case Ready(s, q) => Executed(m, q, s, done).value
  }

  /** Everything the callbacks are given, read off the first table and the executed operations. */
  ghost predicate AsHistorySays(r: State, regs: seq<Local>, line: U4, ops: seq<Op>, insnsSize: nat) {
    && AddressAt(ops, |ops|) < 0x1_0000_0000
    && r.entries == Closed(regs, ops, |ops|) + StillOpen(regs, ops, 0, insnsSize)
    && r.positions == Passed(line, ops, |ops|)
  }

  /** For every stream: the locals callback gets the intervals that the executed operations close, in
      their order, and then the ones still open, each with the address where it began and the texts of
      the start before it; the position callback gets a position for every special opcode. */
  lemma DecodedIsHistory(m: seq<Byte>, p: nat, code: Code, done: Done)
    requires ArgumentsFit(code) && WellFormed(m, p, code, done) && AddressesFit(m, p, code, done)
    ensures NamesOf(m, p, code).Some? && |NamesOf(m, p, code).value| <= |code.params|
    ensures p + 5 <= |m|
    ensures var names := NamesOf(m, p, code).value;
      AsHistorySays(Decoded(m, p, code, done), FirstRegs(code, names, |names|), Leb128.Unsigned(m, p),
                    ExecutedOf(m, p, code, done), code.insnsSize)
  {
    StartIs(m, p, code);
    var s0, ops := Start(m, p, code).s, ExecutedOf(m, p, code, done);
    LastState(m, p, code, done);
    hide Start, Executed, Run, NamesOf, FirstRegs, AddressAt, Leb128.Unsigned, Total, EmitFrom, TableKept, Closed, Passed, StillOpen;
    StartRegs(m, p, code);
    var s := Stopped(m, p, code, done);
    KeptToTheEnd(s0.regs, s.regs, ops);
    FinishKept(s0.regs, s.(address := code.insnsSize), ops, 0, code.insnsSize);
    assert [] + Closed(s0.regs, ops, |ops|) == Closed(s0.regs, ops, |ops|);
    assert [] + Passed(s0.line, ops, |ops|) == Passed(s0.line, ops, |ops|);
  }

  /** The state in which decoding stops. */
  function Stopped(m: seq<Byte>, p: nat, code: Code, done: Done): State
    requires ArgumentsFit(code) && WellFormed(m, p, code, done)
  {
    StartRegs(m, p, code);
    match Start(m, p, code)
    case Invalid(s) => s
    case Ready(s, q) => Run(s, Executed(m, q, s, done).value, done)
  }

  lemma KeptToTheEnd(regs0: seq<Local>, regs: seq<Local>, ops: seq<Op>)
    requires TableKept(regs0, regs, ops, |ops|)
    ensures KeptFromOn(regs0, regs, ops, 0)
  {
    hide RegisterKept;
  }

  lemma LastState(m: seq<Byte>, p: nat, code: Code, done: Done)
    requires ArgumentsFit(code) && WellFormed(m, p, code, done) && AddressesFit(m, p, code, done)
    ensures Kept(Start(m, p, code).s, Stopped(m, p, code, done), ExecutedOf(m, p, code, done), |ExecutedOf(m, p, code, done)|)
    ensures Decoded(m, p, code, done) == Finish(Stopped(m, p, code, done), code.insnsSize)
    ensures AddressAt(ExecutedOf(m, p, code, done), |ExecutedOf(m, p, code, done)|) <= code.insnsSize
  {
    StartIs(m, p, code);
    StartRegs(m, p, code);
    var s0, ops := Start(m, p, code).s, ExecutedOf(m, p, code, done);
    KeptAtFirst(s0, ops);
    TotalIs(ops, |ops|);
    assert ops[|ops|..] == [];
    hide Executed, Run, Total, Kept, AddressAt, Finish;
    if Start(m, p, code).Ready? {
      var q := Start(m, p, code).p;
      StopsLast(m, q, s0, ops, done);
      assert ops[0..] == ops;
      hide Start;
      ExecutedKept(m, q, s0, s0, ops, 0, done);
    }
  }

  /** Each beginning is reported exactly once: the pairs of a register and a start address in the calls
      are "this" and the named parameters at address 0, one pair for each start of a local at its
      address, and one for each restart of a register that did not live. */
  lemma BeginningsReported(m: seq<Byte>, p: nat, code: Code, done: Done)
    requires ArgumentsFit(code) && WellFormed(m, p, code, done) && AddressesFit(m, p, code, done)
    ensures NamesOf(m, p, code).Some? && |NamesOf(m, p, code).value| <= |code.params|
    ensures var names, ops := NamesOf(m, p, code).value, ExecutedOf(m, p, code, done);
      var regs := FirstRegs(code, names, |names|);
      Reported(Decoded(m, p, code, done).entries) == Living(regs, |regs|) + Begun(regs, ops, |ops|)
  {
    StartIs(m, p, code);
    StartIsGood(m, p, code);
    var s0, ops := Start(m, p, code).s, ExecutedOf(m, p, code, done);
    BirthsAtFirst(s0);
    LastState(m, p, code, done);
    StoppedIsGood(m, p, code, done);
    hide Start, Stopped, NamesOf, FirstRegs, AddressAt, Reported, Living, Begun, Good, ExecutedOf, Finish;
    FinishedInOrder(Stopped(m, p, code, done), code.insnsSize);
  }

  lemma BirthsAtFirst(s: State)
    requires Good(s) && s.entries == []
    ensures s.births == Living(s.regs, |s.regs|)
  {
    hide Living;
    assert Reported(s.entries) == multiset{};
  }

  lemma StoppedIsGood(m: seq<Byte>, p: nat, code: Code, done: Done)
    requires ArgumentsFit(code) && WellFormed(m, p, code, done) && AddressesFit(m, p, code, done)
    ensures Good(Stopped(m, p, code, done)) && Stopped(m, p, code, done).address <= code.insnsSize
  {
    StartIsGood(m, p, code);
    StartRegs(m, p, code);
    hide Good, Start, Executed, Run, Total;
    match Start(m, p, code)
    case Invalid(s) =>
    case Ready(s, q) => RunKeeps(s, Executed(m, q, s, done).value, done, code.insnsSize);
  }

  /** The delta of a special opcode is the pair that it was made for. */
  lemma SpecialIsDelta(addressDelta: nat, lineDelta: int)
    requires -4 <= lineDelta <= 10
    ensures var adjusted := lineDelta + 4 + 15 * addressDelta;
      && AddressAt([Special(adjusted)], 1) == addressDelta
      && forall line: U4 :: LineAt(line, [Special(adjusted)], 1) == line + lineDelta
  {
    var adjusted := lineDelta + 4 + 15 * addressDelta;
    assert adjusted / 15 == addressDelta && adjusted % 15 == lineDelta + 4;
    assert AddressAt([Special(adjusted)], 0) == 0;
    forall line: U4 ensures LineAt(line, [Special(adjusted)], 1) == line + lineDelta {
      assert LineAt(line, [Special(adjusted)], 0) == line;
    }
  }
}
