/** What the quasi-atomic operations of vm/Atomic.h promise: operations on one
    address take effect one at a time, in an order that fits real time. */
module QuasiAtomicSpec {

  /** A 64-bit value as the two words a 32-bit machine loads and stores. */
  datatype Value = Value(low: int, high: int)

  datatype Op = Swap(value: Value) | Cas(expected: Value, value: Value) | Load

  datatype Ret = Old(value: Value) | Status(failed: bool)

  /** One operation alone: what it returns and what it leaves in memory. */
  function Alone(op: Op, v: Value): (Ret, Value) {
    match op
    case Swap(w) => (Old(v), w)
    case Cas(expected, w) => if v == expected then (Status(false), w) else (Status(true), v)
    case Load => (Old(v), v)
  }

  /** The event of one call; no two calls share one. */
  datatype Event = Event(thread: nat, op: Op, ret: Ret)

  /** The value after a sequence of operations, one after the other. */
  function Replay(v: Value, log: seq<Event>): Value {
    if log == [] then v else Alone(log[|log| - 1].op, Replay(v, log[..|log| - 1])).1
  }

  /** Every operation returned what it returns alone after the ones before it. */
  ghost predicate Legal(v: Value, log: seq<Event>) {
    forall i | 0 <= i < |log| :: log[i].ret == Alone(log[i].op, Replay(v, log[..i])).0
  }

  lemma LegalAppend(v: Value, log: seq<Event>, t: nat, op: Op)
    requires Legal(v, log)
    ensures var (ret, w) := Alone(op, Replay(v, log));
      Legal(v, log + [Event(t, op, ret)]) && Replay(v, log + [Event(t, op, ret)]) == w
  {
    var log' := log + [Event(t, op, Alone(op, Replay(v, log)).0)];
    assert log'[..|log|] == log;
    forall i | 0 <= i < |log'|
      ensures log'[i].ret == Alone(log'[i].op, Replay(v, log'[..i])).0
    {
      if i < |log| {
        assert log'[..i] == log[..i];
      }
    }
  }

  // ----- What the callers are told -----

  /** A call that found one value and left another kept the promise of its operation: a swap and a
      load return what was there, and a compare-and-swap fails exactly if it did not find what it
      expected, and then changes nothing. */
  ghost predicate AsPromised(before: Value, op: Op, ret: Ret, after: Value) {
    match op
    case Swap(w) => ret == Old(before) && after == w
    case Cas(expected, w) =>
      && ret.Status? && (ret.failed <==> before != expected)
      && (ret.failed ==> after == before) && (!ret.failed ==> after == w)
    case Load => ret == Old(before) && after == before
  }

  /** In a legal log every event keeps the promise, between the value that the events before it leave
      and the value that it leaves itself. */
  lemma PromisesKept(v: Value, log: seq<Event>, i: nat)
    requires Legal(v, log) && i < |log|
    ensures AsPromised(Replay(v, log[..i]), log[i].op, log[i].ret, Replay(v, log[..i + 1]))
  {
    assert log[..i + 1][..i] == log[..i];
  }

  /** The only value before the first event is the first one. */
  lemma NothingReplayed(v: Value)
    ensures Replay(v, []) == v
  {
  }

  /** The values that swaps and successful compare-and-swaps have stored. */
  function Stored(log: seq<Event>): multiset<Value> {
    if log == [] then multiset{}
    else Stored(log[..|log| - 1]) + StoredBy(log[|log| - 1])
  }

  function StoredBy(e: Event): multiset<Value> {
    if e.op.Swap? || (e.op.Cas? && e.ret == Status(false)) then multiset{e.op.value} else multiset{}
  }

  /** The values that a swap was given back, or that a successful compare-and-swap named. */
  function Replaced(log: seq<Event>): multiset<Value> {
    if log == [] then multiset{}
    else Replaced(log[..|log| - 1]) + ReplacedBy(log[|log| - 1])
  }

  function ReplacedBy(e: Event): multiset<Value> {
    if e.op.Swap? && e.ret.Old? then multiset{e.ret.value}
    else if e.op.Cas? && e.ret == Status(false) then multiset{e.op.expected}
    else multiset{}
  }

  lemma LegalPrefix(v: Value, log: seq<Event>)
    requires Legal(v, log) && log != []
    ensures Legal(v, log[..|log| - 1])
  {
    var before := log[..|log| - 1];
    forall i | 0 <= i < |before|
      ensures before[i].ret == Alone(before[i].op, Replay(v, before[..i])).0
    {
      assert log[..i] == before[..i];
    }
  }

  /** No operation loses or invents a value: judged by what the callers passed and were told alone,
      what was stored and what was replaced balance. */
  lemma {:induction false} ValuesConserved(v: Value, log: seq<Event>)
    requires Legal(v, log)
    ensures multiset{v} + Stored(log) == Replaced(log) + multiset{Replay(v, log)}
  {
    if log != [] {
      var n := |log| - 1;
      LegalPrefix(v, log);
      ValuesConserved(v, log[..n]);
      PromisesKept(v, log, n);
      assert log[..n + 1] == log;
      Balance(v, Stored(log[..n]), Replaced(log[..n]), Replay(v, log[..n]), log[n], Replay(v, log));
    }
  }

  lemma Balance(v: Value, stored: multiset<Value>, replaced: multiset<Value>, before: Value, e: Event, after: Value)
    requires multiset{v} + stored == replaced + multiset{before} && AsPromised(before, e.op, e.ret, after)
    ensures multiset{v} + (stored + StoredBy(e)) == (replaced + ReplacedBy(e)) + multiset{after}
  {
    assert multiset{v} + (stored + StoredBy(e)) == (replaced + multiset{before}) + StoredBy(e);
    if StoredBy(e) == multiset{} {
      assert after == before && ReplacedBy(e) == multiset{};
    } else {
      assert StoredBy(e) == multiset{after} && ReplacedBy(e) == multiset{before};
    }
  }
}

/** The pthreads variant: 32 mutexes shared by all addresses, and plain 64-bit loads
    and stores, modelled as two word accesses each. */
module StripedMutexes {
  import opened QuasiAtomicSpec

  type Addr = nat

  const LOCKS: nat := 32

  /** GetSwapLock. */
  function LockOf(a: Addr): (i: nat)
    ensures i < LOCKS
  {
    a / 8 % LOCKS
  }

  /** start is the number of events on the address when the call began, at the
      position of its own event. */
  datatype Pc =
    | Idle
    | Waiting(op: Op, a: Addr, start: nat)
    | Entered(op: Op, a: Addr, start: nat)
    | LowRead(op: Op, a: Addr, start: nat, low: int)
    | HighRead(op: Op, a: Addr, start: nat, seen: Value)
    | LowWritten(op: Op, a: Addr, start: nat, seen: Value)
    | Leaving(op: Op, a: Addr, start: nat, ret: Ret, at: nat)
    | Done(op: Op, a: Addr, start: nat, ret: Ret, at: nat)

  datatype Owner = Free | Held(thread: nat)

  /** logs records, per address, each operation when it takes effect. */
  datatype State = State(memory: map<Addr, Value>, locks: seq<Owner>, threads: seq<Pc>, logs: map<Addr, seq<Event>>)

  predicate Inside(pc: Pc) { !pc.Idle? && !pc.Waiting? && !pc.Done? }

  predicate WellFormed(s: State) {
    && |s.locks| == LOCKS && s.logs.Keys == s.memory.Keys
    && forall t | 0 <= t < |s.threads| :: !s.threads[t].Idle? ==> s.threads[t].a in s.memory
  }

  /** The operation takes effect: its event ends the log of its address. */
  function Effect(s: State, t: nat, pc: Pc, ret: Ret): State
    requires t < |s.threads| && (pc.HighRead? || pc.LowWritten?) && pc.a in s.logs
  {
    s.(threads := s.threads[t := Leaving(pc.op, pc.a, pc.start, ret, |s.logs[pc.a]|)],
       logs := s.logs[pc.a := s.logs[pc.a] + [Event(t, pc.op, ret)]])
  }

  /** The next step of thread t; op and a are the arguments of a call that begins. */
  function Apply(s: State, t: nat, op: Op, a: Addr): (s': State)
    requires WellFormed(s) && t < |s.threads| && a in s.memory
    ensures WellFormed(s') && s'.memory.Keys == s.memory.Keys && |s'.threads| == |s.threads|
    ensures forall u | 0 <= u < |s.threads| && u != t :: s'.threads[u] == s.threads[u]
  {
    var pc := s.threads[t];
    match pc
    case Idle => s.(threads := s.threads[t := Waiting(op, a, |s.logs[a]|)])
    case Done(_, _, _, _, _) => s.(threads := s.threads[t := Waiting(op, a, |s.logs[a]|)])
    case Waiting(p, b, start) =>
      if s.locks[LockOf(b)].Held? then s
      else s.(locks := s.locks[LockOf(b) := Held(t)], threads := s.threads[t := Entered(p, b, start)])
    case Entered(p, b, start) => s.(threads := s.threads[t := LowRead(p, b, start, s.memory[b].low)])
    case LowRead(p, b, start, low) =>
      s.(threads := s.threads[t := HighRead(p, b, start, Value(low, s.memory[b].high))])
    case HighRead(p, b, start, seen) =>
      if p.Swap? || (p.Cas? && seen == p.expected) then
        s.(memory := s.memory[b := s.memory[b].(low := p.value.low)],
           threads := s.threads[t := LowWritten(p, b, start, seen)])
      else Effect(s, t, pc, if p.Load? then Old(seen) else Status(true))
    case LowWritten(p, b, start, seen) =>
      if p.Load? then s
      else
        Effect(s.(memory := s.memory[b := s.memory[b].(high := p.value.high)]), t, pc,
               if p.Swap? then Old(seen) else Status(false))
    case Leaving(p, b, start, ret, at) =>
      s.(locks := s.locks[LockOf(b) := Free], threads := s.threads[t := Done(p, b, start, ret, at)])
  }

  ghost predicate Init(s: State) {
    && WellFormed(s)
    && (forall i | 0 <= i < LOCKS :: s.locks[i] == Free)
    && (forall t | 0 <= t < |s.threads| :: s.threads[t] == Idle)
    && (forall a | a in s.logs :: s.logs[a] == [])
  }

  ghost predicate Step(s: State, s': State) {
    exists t: nat, op: Op, a: Addr ::
      WellFormed(s) && t < |s.threads| && a in s.memory && s' == Apply(s, t, op, a)
  }

  ghost predicate Run(run: seq<State>) {
    |run| > 0 && Init(run[0]) && forall i | 0 <= i < |run| - 1 :: Step(run[i], run[i + 1])
  }

  // ----- The invariant -----

  /** The value of an address by its log; memory agrees unless a store is half done. */
  ghost predicate AddrInv(init: map<Addr, Value>, s: State, a: Addr)
    requires a in init && a in s.memory && a in s.logs
  {
    && Legal(init[a], s.logs[a])
    && ((forall t | 0 <= t < |s.threads| :: s.threads[t].LowWritten? ==> s.threads[t].a != a) ==>
          s.memory[a] == Replay(init[a], s.logs[a]))
  }

  ghost predicate PcInv(init: map<Addr, Value>, s: State, t: nat)
    requires WellFormed(s) && init.Keys == s.memory.Keys && t < |s.threads|
  {
    var pc := s.threads[t];
    && (Inside(pc) ==> s.locks[LockOf(pc.a)] == Held(t))
    && (!pc.Idle? ==> pc.start <= |s.logs[pc.a]|)
    && (pc.LowRead? ==> pc.low == Replay(init[pc.a], s.logs[pc.a]).low)
    && (pc.HighRead? || pc.LowWritten? ==> pc.seen == Replay(init[pc.a], s.logs[pc.a]))
    && (pc.LowWritten? ==>
          && (pc.op.Swap? || (pc.op.Cas? && pc.seen == pc.op.expected))
          && s.memory[pc.a] == Value(pc.op.value.low, pc.seen.high))
    && (pc.Leaving? || pc.Done? ==>
          pc.start <= pc.at < |s.logs[pc.a]| && s.logs[pc.a][pc.at] == Event(t, pc.op, pc.ret))
  }

  ghost predicate Inv(init: map<Addr, Value>, s: State) {
    && WellFormed(s) && init.Keys == s.memory.Keys
    && (forall a | a in s.memory :: AddrInv(init, s, a))
    && (forall t | 0 <= t < |s.threads| :: PcInv(init, s, t))
  }

  lemma InvInit(s: State)
    requires Init(s)
    ensures Inv(s.memory, s)
  {
  }

  /** A thread that holds the lock of its address sees memory as the log says. */
  lemma Exclusive(init: map<Addr, Value>, s: State, t: nat)
    requires Inv(init, s) && t < |s.threads| && Inside(s.threads[t]) && !s.threads[t].LowWritten?
    ensures var a := s.threads[t].a; s.memory[a] == Replay(init[a], s.logs[a])
  {
    var a := s.threads[t].a;
    assert PcInv(init, s, t);
    forall u | 0 <= u < |s.threads|
      ensures s.threads[u].LowWritten? ==> s.threads[u].a != a
    {
      assert PcInv(init, s, u);
    }
    assert AddrInv(init, s, a);
  }

  /** The step of an operation taking effect keeps every address in order. */
  lemma EffectKeeps(init: map<Addr, Value>, s: State, t: nat, op: Op, a: Addr, b: Addr)
    requires Inv(init, s) && t < |s.threads| && a in s.memory && b in s.memory
    ensures AddrInv(init, Apply(s, t, op, a), b)
  {
    var s' := Apply(s, t, op, a);
    var pc := s.threads[t];
    assert PcInv(init, s, t);
    assert AddrInv(init, s, b);
    if !pc.Idle? && pc.a == b && (pc.HighRead? || pc.LowWritten?) {
      LegalAppend(init[b], s.logs[b], t, pc.op);
      if pc.HighRead? {
        Exclusive(init, s, t);
      }
      if s'.threads[t].LowWritten? {
        assert s'.threads[t].a == b;
      }
    } else {
      if forall u | 0 <= u < |s'.threads| :: s'.threads[u].LowWritten? ==> s'.threads[u].a != b {
        forall u | 0 <= u < |s.threads|
          ensures s.threads[u].LowWritten? ==> s.threads[u].a != b
        {
          assert s'.threads[u].LowWritten? ==> s'.threads[u].a != b;
        }
      }
    }
  }

  lemma MoverInv(init: map<Addr, Value>, s: State, t: nat, op: Op, a: Addr)
    requires Inv(init, s) && t < |s.threads| && a in s.memory
    ensures PcInv(init, Apply(s, t, op, a), t)
  {
    assert PcInv(init, s, t);
    if Inside(s.threads[t]) && !s.threads[t].LowWritten? {
      Exclusive(init, s, t);
    }
    MoverStep(init, s, t, op, a);
  }

  lemma MoverStep(init: map<Addr, Value>, s: State, t: nat, op: Op, a: Addr)
    requires WellFormed(s) && init.Keys == s.memory.Keys && t < |s.threads| && a in s.memory && PcInv(init, s, t)
    requires var pc := s.threads[t];
      Inside(pc) && !pc.LowWritten? ==> s.memory[pc.a] == Replay(init[pc.a], s.logs[pc.a])
    ensures PcInv(init, Apply(s, t, op, a), t)
  {
    hide Replay, Alone;
  }

  /** What a step of t leaves alone: addresses it is not inside of, locks it does not
      hold or take while free, and the past of every log. */
  lemma Frame(s: State, t: nat, op: Op, a: Addr, b: Addr, i: nat)
    requires WellFormed(s) && t < |s.threads| && a in s.memory && b in s.memory && i < LOCKS
    requires Inside(s.threads[t]) ==> s.locks[LockOf(s.threads[t].a)] == Held(t)
    ensures var s' := Apply(s, t, op, a);
      && s.logs[b] <= s'.logs[b]
      && (s.locks[LockOf(b)] != Held(t) ==> s'.logs[b] == s.logs[b] && s'.memory[b] == s.memory[b])
      && (s.locks[i].Held? && s.locks[i] != Held(t) ==> s'.locks[i] == s.locks[i])
  {
    hide Replay, Alone;
  }

  lemma OtherInv(init: map<Addr, Value>, s: State, t: nat, op: Op, a: Addr, u: nat)
    requires Inv(init, s) && t < |s.threads| && a in s.memory && u < |s.threads| && u != t
    ensures PcInv(init, Apply(s, t, op, a), u)
  {
    assert PcInv(init, s, u);
    assert PcInv(init, s, t);
    hide Replay, AddrInv;
    var pc := s.threads[u];
    if !pc.Idle? {
      Frame(s, t, op, a, pc.a, LockOf(pc.a));
      hide Apply, Inv, LockOf;
    }
  }

  lemma InvStep(init: map<Addr, Value>, s: State, t: nat, op: Op, a: Addr)
    requires Inv(init, s) && t < |s.threads| && a in s.memory
    ensures Inv(init, Apply(s, t, op, a))
  {
    var s' := Apply(s, t, op, a);
    hide Apply, AddrInv, PcInv;
    forall b | b in s'.memory
      ensures AddrInv(init, s', b)
    {
      EffectKeeps(init, s, t, op, a, b);
    }
    forall u | 0 <= u < |s'.threads|
      ensures PcInv(init, s', u)
    {
      if u == t {
        MoverInv(init, s, t, op, a);
      } else {
        OtherInv(init, s, t, op, a, u);
      }
    }
  }

  // ----- Results over every run -----

  lemma StepOf(run: seq<State>, n: nat) returns (t: nat, op: Op, a: Addr)
    requires Run(run) && n + 1 < |run|
    ensures WellFormed(run[n]) && t < |run[n].threads| && a in run[n].memory
    ensures run[n + 1] == Apply(run[n], t, op, a)
  {
    hide Apply, WellFormed, Init;
    assert Step(run[n], run[n + 1]);
    t, op, a :| WellFormed(run[n]) && t < |run[n].threads| && a in run[n].memory && run[n + 1] == Apply(run[n], t, op, a);
  }

  lemma {:induction false} RunInv(run: seq<State>, n: nat)
    requires Run(run) && n < |run|
    ensures Inv(run[0].memory, run[n])
  {
    if n == 0 {
      InvInit(run[0]);
    } else {
      hide Run, Inv, Apply;
      RunInv(run, n - 1);
      var t, op, a := StepOf(run, n - 1);
      InvStep(run[0].memory, run[n - 1], t, op, a);
    }
  }

  /** Every finished call has an event of its own between its call and its return, and
      the events of each address are a legal run of the operations one at a time. */
  lemma Linearizable(run: seq<State>, n: nat, t: nat)
    requires Run(run) && n < |run| && t < |run[n].threads| && run[n].threads[t].Done?
    ensures var pc := run[n].threads[t];
      && pc.a in run[n].logs && pc.a in run[0].memory
      && pc.start <= pc.at < |run[n].logs[pc.a]|
      && run[n].logs[pc.a][pc.at] == Event(t, pc.op, pc.ret)
      && Legal(run[0].memory[pc.a], run[n].logs[pc.a])
      && AsPromised(Replay(run[0].memory[pc.a], run[n].logs[pc.a][..pc.at]), pc.op, pc.ret,
                    Replay(run[0].memory[pc.a], run[n].logs[pc.a][..pc.at + 1]))
  {
    RunInv(run, n);
    assert PcInv(run[0].memory, run[n], t);
    var pc := run[n].threads[t];
    assert AddrInv(run[0].memory, run[n], pc.a);
    hide Legal;
    PromisesKept(run[0].memory[pc.a], run[n].logs[pc.a], pc.at);
  }

  /** Conservation on an address nobody is storing to: the first value and the values that were
      stored are the values that were replaced and the value now in memory. */
  lemma ValuesAreConserved(run: seq<State>, n: nat, a: Addr)
    requires Run(run) && n < |run| && a in run[n].logs && a in run[0].memory
    requires forall t | 0 <= t < |run[n].threads| :: run[n].threads[t].LowWritten? ==> run[n].threads[t].a != a
    ensures a in run[n].memory
    ensures var log := run[n].logs[a];
      multiset{run[0].memory[a]} + Stored(log) == Replaced(log) + multiset{run[n].memory[a]}
  {
    RunInv(run, n);
    assert AddrInv(run[0].memory, run[n], a);
    ValuesConserved(run[0].memory[a], run[n].logs[a]);
  }

  /** Since state s thread u has either stayed outside any call or begun one with at
      least the events of s. */
  ghost predicate BegunSince(s: State, s': State, u: nat, b: Addr)
    requires WellFormed(s) && u < |s.threads| && b in s.memory
  {
    && WellFormed(s') && u < |s'.threads| && b in s'.memory && s.logs[b] <= s'.logs[b]
    && var pc := s'.threads[u];
       pc == s.threads[u] || (!pc.Idle? && (pc.a == b ==> pc.start >= |s.logs[b]|))
  }

  lemma BegunSinceStep(s: State, s': State, u: nat, b: Addr, t: nat, op: Op, a: Addr)
    requires WellFormed(s) && u < |s.threads| && b in s.memory && BegunSince(s, s', u, b)
    requires s.threads[u].Idle? || s.threads[u].Done?
    requires t < |s'.threads| && a in s'.memory
    ensures BegunSince(s, Apply(s', t, op, a), u, b)
  {
    hide Replay, Alone;
    assert s'.logs[b] <= Apply(s', t, op, a).logs[b];
  }

  lemma {:induction false} BeganAfter(run: seq<State>, n: nat, m: nat, u: nat, b: Addr)
    requires Run(run) && n <= m < |run| && WellFormed(run[n]) && u < |run[n].threads| && b in run[n].memory
    requires run[n].threads[u].Idle? || run[n].threads[u].Done?
    ensures BegunSince(run[n], run[m], u, b)
  {
    hide Run, Apply;
    if n < m {
      hide WellFormed, BegunSince;
      BeganAfter(run, n, m - 1, u, b);
      var t, op, a := StepOf(run, m - 1);
      BegunSinceStep(run[n], run[m - 1], u, b, t, op, a);
    }
  }

  /** Real time: a call that had returned in state n takes effect before every call on
      the same address that another thread had not yet begun in state n. */
  lemma RealTimeOrder(run: seq<State>, n: nat, m: nat, t: nat, u: nat)
    requires Run(run) && n <= m < |run| && t < |run[n].threads| && u < |run[n].threads| && u < |run[m].threads|
    requires run[n].threads[t].Done? && run[m].threads[u].Done?
    requires run[n].threads[t].a == run[m].threads[u].a
    requires (run[n].threads[u].Idle? || run[n].threads[u].Done?) && run[m].threads[u] != run[n].threads[u]
    ensures run[n].threads[t].at < run[m].threads[u].at
  {
    var b := run[n].threads[t].a;
    RunInv(run, n);
    assert PcInv(run[0].memory, run[n], t);
    BeganAfter(run, n, m, u, b);
    RunInv(run, m);
    assert PcInv(run[0].memory, run[m], u);
  }

  // ----- Events and calls -----

  /** At state k the thread of the event is inside a call of that operation on a, and its next step
      makes it entry i of the log. */
  ghost predicate TakesEffect(run: seq<State>, k: nat, a: Addr, i: nat, e: Event)
    requires k + 1 < |run|
  {
    && a in run[k].logs && a in run[k + 1].logs
    && |run[k].logs[a]| == i && run[k + 1].logs[a] == run[k].logs[a] + [e]
    && e.thread < |run[k].threads| && e.thread < |run[k + 1].threads|
    && var pc := run[k].threads[e.thread];
       && Inside(pc) && pc.op == e.op && pc.a == a
       && run[k + 1].threads[e.thread] == Leaving(e.op, a, pc.start, e.ret, i)
  }

  lemma LogStep(s: State, t: nat, op: Op, a: Addr, b: Addr)
    requires WellFormed(s) && t < |s.threads| && a in s.memory && b in s.memory
    ensures var s' := Apply(s, t, op, a);
      s'.logs[b] == s.logs[b] || (
        && Inside(s.threads[t]) && s.threads[t].a == b && s'.threads[t].Leaving?
        && var pc, pc' := s.threads[t], s'.threads[t];
           && s'.logs[b] == s.logs[b] + [Event(t, pc.op, pc'.ret)]
           && pc' == Leaving(pc.op, b, pc.start, pc'.ret, |s.logs[b]|))
  {
    hide Alone;
  }

  /** Every event belongs to a call that had begun, and was added by a step inside that call. */
  lemma {:induction false} EventsHaveCalls(run: seq<State>, n: nat, a: Addr, i: nat) returns (k: nat)
    requires Run(run) && n < |run| && a in run[n].logs && i < |run[n].logs[a]|
    ensures k < n && TakesEffect(run, k, a, i, run[n].logs[a][i])
  {
    hide Run, Apply;
    if n == 0 {
      NoEventsAtFirst(run, a);
    } else {
      var t, op, b := StepOf(run, n - 1);
      KnownAddress(run, n, a);
      LogStep(run[n - 1], t, op, b, a);
      if i < |run[n - 1].logs[a]| {
        k := EventsHaveCalls(run, n - 1, a, i);
      } else {
        k := n - 1;
      }
    }
  }

  lemma NoEventsAtFirst(run: seq<State>, a: Addr)
    requires Run(run) && a in run[0].logs
    ensures run[0].logs[a] == []
  {
  }

  lemma KnownAddress(run: seq<State>, n: nat, a: Addr)
    requires Run(run) && 0 < n < |run| && a in run[n].logs
    ensures a in run[n - 1].memory && a in run[n - 1].logs
  {
    var t, op, b := StepOf(run, n - 1);
  }

  // ----- Every call can return -----

  /** k steps of one thread. */
  function Steps(s: State, t: nat, op: Op, a: Addr, k: nat): (s': State)
    requires WellFormed(s) && t < |s.threads| && a in s.memory
    ensures WellFormed(s') && s'.memory.Keys == s.memory.Keys && |s'.threads| == |s.threads|
    ensures forall u | 0 <= u < |s.threads| && u != t :: s'.threads[u] == s.threads[u]
  {
    if k == 0 then s else Apply(Steps(s, t, op, a, k - 1), t, op, a)
  }

  lemma {:induction false} StepsMore(s: State, t: nat, op: Op, a: Addr, k: nat, n: nat)
    requires WellFormed(s) && t < |s.threads| && a in s.memory
    ensures Steps(s, t, op, a, k + n) == Steps(Steps(s, t, op, a, k), t, op, a, n)
  {
    hide Apply, WellFormed;
    if n > 0 {
      StepsMore(s, t, op, a, k, n - 1);
    }
  }

  /** Two steps take a free lock, two more load the value. */
  lemma TakesLock(s: State, t: nat, op: Op, a: Addr)
    requires WellFormed(s) && t < |s.threads| && a in s.memory && s.locks[LockOf(a)] == Free
    requires s.threads[t].Idle? || s.threads[t].Done?
    ensures var s' := Apply(Apply(s, t, op, a), t, op, a);
      && s'.threads[t].Entered? && s'.threads[t].op == op && s'.threads[t].a == a
      && s'.memory == s.memory && s'.locks == s.locks[LockOf(a) := Held(t)]
  {
  }

  lemma Reads(s: State, t: nat, op: Op, a: Addr)
    requires WellFormed(s) && t < |s.threads| && a in s.memory && s.threads[t].Entered?
    ensures var s', pc := Apply(Apply(s, t, op, a), t, op, a), s.threads[t];
      && s'.threads[t] == HighRead(pc.op, pc.a, pc.start, s.memory[pc.a])
      && s'.memory == s.memory && s'.locks == s.locks
  {
    var v := s.memory[s.threads[t].a];
    assert Value(v.low, v.high) == v;
  }

  ghost predicate Stores(op: Op, seen: Value) { op.Swap? || (op.Cas? && seen == op.expected) }

  /** From there an operation that does not store is two steps from its return. */
  lemma ReturnsAtOnce(s: State, t: nat, op: Op, a: Addr)
    requires WellFormed(s) && t < |s.threads| && a in s.memory && s.threads[t].HighRead?
    requires s.threads[t].seen == s.memory[s.threads[t].a] && !Stores(s.threads[t].op, s.threads[t].seen)
    ensures Returned(s, Apply(Apply(s, t, op, a), t, op, a), t)
  {
  }

  /** One that stores, three. */
  lemma StoresAndReturns(s: State, t: nat, op: Op, a: Addr)
    requires WellFormed(s) && t < |s.threads| && a in s.memory && s.threads[t].HighRead?
    requires s.threads[t].seen == s.memory[s.threads[t].a] && Stores(s.threads[t].op, s.threads[t].seen)
    ensures Returned(s, Apply(Apply(Apply(s, t, op, a), t, op, a), t, op, a), t)
  {
    hide LockOf;
    var b, w := s.threads[t].a, s.threads[t].op.value;
    assert s.memory[b].(low := w.low).(high := w.high) == w;
  }

  /** The call of t that was inside in s has returned in s'. */
  ghost predicate Returned(s: State, s': State, t: nat)
    requires WellFormed(s) && t < |s.threads| && Inside(s.threads[t])
  {
    var pc := s.threads[t];
    && t < |s'.threads| && s'.threads[t].Done? && s'.threads[t].op == pc.op && s'.threads[t].a == pc.a
    && pc.a in s'.memory && AsPromised(s.memory[pc.a], pc.op, s'.threads[t].ret, s'.memory[pc.a])
    && s'.memory == s.memory[pc.a := s'.memory[pc.a]] && s'.locks == s.locks[LockOf(pc.a) := Free]
  }

  /** Four steps take the lock and load the value. */
  lemma Loads(s: State, t: nat, op: Op, a: Addr)
    requires WellFormed(s) && t < |s.threads| && a in s.memory && s.locks[LockOf(a)] == Free
    requires s.threads[t].Idle? || s.threads[t].Done?
    ensures var s' := Steps(s, t, op, a, 4);
      && s'.threads[t].HighRead? && s'.threads[t].op == op && s'.threads[t].a == a && s'.threads[t].seen == s.memory[a]
      && s'.memory == s.memory && s'.locks == s.locks[LockOf(a) := Held(t)]
  {
    hide Apply, WellFormed, LockOf, Steps;
    TwoSteps(s, t, op, a);
    TakesLock(s, t, op, a);
    var s2 := Steps(s, t, op, a, 2);
    TwoSteps(s2, t, op, a);
    Reads(s2, t, op, a);
    StepsMore(s, t, op, a, 2, 2);
  }

  /** A call on an address whose lock is free, with no other thread in between, keeps its promise on
      the memory itself, frees the lock and touches nothing else. */
  lemma AloneReturns(s: State, t: nat, op: Op, a: Addr) returns (k: nat)
    requires WellFormed(s) && t < |s.threads| && a in s.memory && s.locks[LockOf(a)] == Free
    requires s.threads[t].Idle? || s.threads[t].Done?
    ensures k <= 7
    ensures var s' := Steps(s, t, op, a, k);
      && s'.threads[t].Done? && s'.threads[t].op == op && s'.threads[t].a == a
      && AsPromised(s.memory[a], op, s'.threads[t].ret, s'.memory[a])
      && s'.memory == s.memory[a := s'.memory[a]] && s'.locks == s.locks
  {
    Loads(s, t, op, a);
    var s4 := Steps(s, t, op, a, 4);
    FreeAgain(s, LockOf(a), t);
    hide Apply, WellFormed, AsPromised, LockOf, Steps;
    k := ReturnsFromRead(s4, t, op, a);
    StepsMore(s, t, op, a, 4, k);
    k := 4 + k;
  }

  /** With the value loaded, two or three steps are left. */
  lemma ReturnsFromRead(s: State, t: nat, op: Op, a: Addr) returns (k: nat)
    requires WellFormed(s) && t < |s.threads| && a in s.memory && s.threads[t].HighRead?
    requires s.threads[t].seen == s.memory[s.threads[t].a]
    ensures k <= 3 && Returned(s, Steps(s, t, op, a, k), t)
  {
    hide Apply, WellFormed, Returned, Steps, Stores;
    TwoSteps(s, t, op, a);
    if Stores(s.threads[t].op, s.threads[t].seen) {
      k := 3;
      StoresAndReturns(s, t, op, a);
      OneMore(s, t, op, a, 2);
    } else {
      k := 2;
      ReturnsAtOnce(s, t, op, a);
    }
  }

  lemma FreeAgain(s: State, i: nat, t: nat)
    requires WellFormed(s) && i < LOCKS && s.locks[i] == Free
    ensures s.locks[i := Held(t)][i := Free] == s.locks
  {
  }

  lemma OneMore(s: State, t: nat, op: Op, a: Addr, k: nat)
    requires WellFormed(s) && t < |s.threads| && a in s.memory
    ensures Steps(s, t, op, a, k + 1) == Apply(Steps(s, t, op, a, k), t, op, a)
  {
    hide Apply, WellFormed;
  }

  lemma TwoSteps(s: State, t: nat, op: Op, a: Addr)
    requires WellFormed(s) && t < |s.threads| && a in s.memory
    ensures Steps(s, t, op, a, 2) == Apply(Apply(s, t, op, a), t, op, a)
  {
    hide Apply, WellFormed;
    assert Steps(s, t, op, a, 0) == s;
    assert Steps(s, t, op, a, 1) == Apply(s, t, op, a);
  }

  /** A lock that is held is held by a thread inside a call on one of its addresses. */
  ghost predicate HeldInside(s: State, i: nat)
    requires WellFormed(s) && i < LOCKS
  {
    s.locks[i].Held? ==>
      && s.locks[i].thread < |s.threads| && Inside(s.threads[s.locks[i].thread])
      && LockOf(s.threads[s.locks[i].thread].a) == i
  }

  lemma {:induction false} LocksHeldInside(run: seq<State>, n: nat, i: nat)
    requires Run(run) && n < |run| && i < LOCKS
    ensures WellFormed(run[n]) && HeldInside(run[n], i)
  {
    if n > 0 {
      hide Run, Apply, WellFormed, HeldInside;
      LocksHeldInside(run, n - 1, i);
      var t, op, a := StepOf(run, n - 1);
      HeldStep(run[n - 1], t, op, a, i);
    }
  }

  lemma HeldStep(s: State, t: nat, op: Op, a: Addr, i: nat)
    requires WellFormed(s) && t < |s.threads| && a in s.memory && i < LOCKS && HeldInside(s, i)
    ensures HeldInside(Apply(s, t, op, a), i)
  {
  }

  lemma StepsFirst(s: State, t: nat, op: Op, a: Addr, k: nat)
    requires WellFormed(s) && t < |s.threads| && a in s.memory && k > 0
    ensures Steps(s, t, op, a, k) == Steps(Apply(s, t, op, a), t, op, a, k - 1)
  {
    hide Apply, WellFormed;
    StepsMore(s, t, op, a, 1, k - 1);
    assert Steps(s, t, op, a, 0) == s;
    OneMore(s, t, op, a, 0);
  }

  function Remaining(pc: Pc): nat {
    match pc
    case Entered(_, _, _) => 5
    case LowRead(_, _, _, _) => 4
    case HighRead(_, _, _, _) => 3
    case LowWritten(_, _, _, _) => 2
    case Leaving(_, _, _, _, _) => 1
    case _ => 0
  }

  /** The call of t that was inside in s has left in s' and has freed its lock. */
  ghost predicate HasLeft(s: State, s': State, t: nat)
    requires WellFormed(s) && t < |s.threads| && Inside(s.threads[t])
  {
    && t < |s'.threads| && s'.threads[t].Done? && s'.threads[t].a == s.threads[t].a && s'.threads[t].op == s.threads[t].op
    && s'.locks == s.locks[LockOf(s.threads[t].a) := Free]
  }

  /** The same call, as far as it has come. */
  ghost predicate SameCall(s: State, s': State, t: nat)
    requires t < |s.threads| && Inside(s.threads[t])
  {
    && t < |s'.threads| && Inside(s'.threads[t]) && s'.threads[t].a == s.threads[t].a && s'.threads[t].op == s.threads[t].op
    && s'.locks == s.locks
  }

  lemma LeftLater(s: State, s1: State, s2: State, t: nat)
    requires WellFormed(s) && t < |s.threads| && Inside(s.threads[t]) && SameCall(s, s1, t)
    requires WellFormed(s1) && HasLeft(s1, s2, t)
    ensures HasLeft(s, s2, t)
  {
  }

  /** Between its stores a call is not a load. */
  predicate NoLoadStores(pc: Pc) { pc.LowWritten? ==> !pc.op.Load? }

  lemma OneStepInside(s: State, t: nat, op: Op, a: Addr)
    requires WellFormed(s) && t < |s.threads| && a in s.memory && Inside(s.threads[t]) && NoLoadStores(s.threads[t])
    ensures var s' := Apply(s, t, op, a);
      && Remaining(s'.threads[t]) < Remaining(s.threads[t]) <= 5 && NoLoadStores(s'.threads[t])
      && (if s.threads[t].Leaving? then HasLeft(s, s', t) else SameCall(s, s', t))
  {
  }

  lemma NoSteps(s: State, t: nat, op: Op, a: Addr)
    requires WellFormed(s) && t < |s.threads| && a in s.memory
    ensures Steps(s, t, op, a, 0) == s
  {
  }

  /** A thread inside a call needs at most five steps of its own to return. */
  lemma {:induction false} InsideReturns(s: State, t: nat, op: Op, a: Addr) returns (k: nat)
    requires WellFormed(s) && t < |s.threads| && a in s.memory && Inside(s.threads[t]) && NoLoadStores(s.threads[t])
    ensures HasLeft(s, Steps(s, t, op, a, k), t)
    ensures k <= Remaining(s.threads[t]) <= 5
    decreases Remaining(s.threads[t])
  {
    OneStepInside(s, t, op, a);
    var s' := Apply(s, t, op, a);
    assert s.threads[t].Leaving? || Inside(s'.threads[t]);
    hide Apply, Steps, WellFormed, HasLeft, SameCall, NoLoadStores, Remaining, Inside;
    if s.threads[t].Leaving? {
      k := 1;
      StepsFirst(s, t, op, a, k);
      NoSteps(s', t, op, a);
    } else {
      k := InsideReturns(s', t, op, a);
      LeftLater(s, s', Steps(s', t, op, a, k), t);
      k := k + 1;
      StepsFirst(s, t, op, a, k);
    }
  }

  /** A run goes on with k steps of one thread. */
  lemma {:induction false} GoOn(run: seq<State>, t: nat, op: Op, a: Addr, k: nat) returns (run': seq<State>)
    requires Run(run)
    requires var s := run[|run| - 1]; WellFormed(s) && t < |s.threads| && a in s.memory
    ensures Run(run') && run <= run' && |run'| == |run| + k
    ensures var s := run[|run| - 1]; WellFormed(s) && run'[|run'| - 1] == Steps(s, t, op, a, k)
  {
    hide Apply, Init, WellFormed;
    if k == 0 {
      run' := run;
    } else {
      var before := GoOn(run, t, op, a, k - 1);
      var last := before[|before| - 1];
      run' := before + [Apply(last, t, op, a)];
      assert Step(last, run'[|before|]);
      forall i | 0 <= i < |run'| - 1 ensures Step(run'[i], run'[i + 1]) {
        if i < |before| - 1 {
          assert Step(before[i], before[i + 1]);
        }
      }
    }
  }

  lemma LeftFreesLock(s: State, s': State, u: nat, i: nat)
    requires WellFormed(s) && u < |s.threads| && Inside(s.threads[u]) && i < LOCKS && LockOf(s.threads[u].a) == i
    requires HasLeft(s, s', u)
    ensures i < |s'.locks| && s'.locks[i] == Free
  {
  }

  /** The lock that a waiting call wants can become free. */
  lemma HolderReturns(run: seq<State>, t: nat) returns (run': seq<State>)
    requires Run(run) && t < |run[|run| - 1].threads| && run[|run| - 1].threads[t].Waiting?
    ensures Run(run') && run <= run' && |run'| <= |run| + 5
    ensures var s, s' := run[|run| - 1], run'[|run'| - 1];
      && WellFormed(s') && t < |s'.threads| && s'.threads[t] == s.threads[t] && s.threads[t].a in s'.memory
      && s'.locks[LockOf(s.threads[t].a)] == Free
  {
    var s := run[|run| - 1];
    WaitsForHolder(run, t);
    hide *;
    var a, op := s.threads[t].a, s.threads[t].op;
    var i := LockOf(a);
    run' := run;
    if s.locks[i].Held? {
      var u := s.locks[i].thread;
      var k := InsideReturns(s, u, op, a);
      LeftFreesLock(s, Steps(s, u, op, a, k), u, i);
      run' := GoOn(run, u, op, a, k);
    }
  }

  /** The lock that a waiting call wants is free, or another thread is inside a call on it. */
  lemma WaitsForHolder(run: seq<State>, t: nat)
    requires Run(run) && t < |run[|run| - 1].threads| && run[|run| - 1].threads[t].Waiting?
    ensures var s := run[|run| - 1];
      && WellFormed(s) && s.threads[t].a in s.memory
      && var lock := s.locks[LockOf(s.threads[t].a)];
         lock == Free || (
           && lock.Held? && lock.thread < |s.threads| && lock.thread != t && Inside(s.threads[lock.thread])
           && LockOf(s.threads[lock.thread].a) == LockOf(s.threads[t].a) && NoLoadStores(s.threads[lock.thread]))
  {
    var n := |run| - 1;
    var s := run[n];
    assert s.threads[t].a in s.memory && WellFormed(s) by {
      RunInv(run, n);
    }
    var i := LockOf(s.threads[t].a);
    LocksHeldInside(run, n, i);
    hide Run, LockOf, WellFormed;
    if s.locks[i].Held? && s.threads[s.locks[i].thread].LowWritten? {
      InsideStores(run, s.locks[i].thread);
    }
  }

  /** Between its two stores a call is not a load. */
  lemma InsideStores(run: seq<State>, u: nat)
    requires Run(run) && u < |run[|run| - 1].threads| && run[|run| - 1].threads[u].LowWritten?
    ensures !run[|run| - 1].threads[u].op.Load?
  {
    RunInv(run, |run| - 1);
    assert PcInv(run[0].memory, run[|run| - 1], u);
  }

  /** No deadlock: whatever has happened, any call that has begun can return after at most eleven
      more steps, those of the holder of its lock and its own. */
  lemma CanReturn(run: seq<State>, t: nat) returns (run': seq<State>)
    requires Run(run) && t < |run[|run| - 1].threads|
    requires var pc := run[|run| - 1].threads[t]; !pc.Idle? && !pc.Done?
    ensures Run(run') && run <= run' && |run'| <= |run| + 11
    ensures var s, s' := run[|run| - 1], run'[|run'| - 1];
      && t < |s'.threads| && s'.threads[t].Done? && s'.threads[t].op == s.threads[t].op
      && s'.threads[t].a == s.threads[t].a
  {
    var s := run[|run| - 1];
    if s.threads[t].Waiting? {
      run' := HolderReturns(run, t);
      var s1 := run'[|run'| - 1];
      EnterFree(s1, t, s.threads[t].op, s.threads[t].a);
      hide Run, Steps;
      var more := GoOn(run', t, s.threads[t].op, s.threads[t].a, 1);
      run' := FromInside(more, t);
    } else {
      run' := FromInside(run, t);
    }
  }

  lemma FromInside(run: seq<State>, t: nat) returns (run': seq<State>)
    requires Run(run) && t < |run[|run| - 1].threads| && Inside(run[|run| - 1].threads[t])
    ensures Run(run') && run <= run' && |run'| <= |run| + 5
    ensures var s, s' := run[|run| - 1], run'[|run'| - 1];
      && t < |s'.threads| && s'.threads[t].Done? && s'.threads[t].op == s.threads[t].op
      && s'.threads[t].a == s.threads[t].a
  {
    var s := run[|run| - 1];
    RunInv(run, |run| - 1);
    assert PcInv(run[0].memory, s, t);
    hide Run, Inv, PcInv, Steps;
    var k := InsideReturns(s, t, s.threads[t].op, s.threads[t].a);
    run' := GoOn(run, t, s.threads[t].op, s.threads[t].a, k);
  }

  lemma EnterFree(s: State, t: nat, op: Op, a: Addr)
    requires WellFormed(s) && t < |s.threads| && a in s.memory && s.threads[t].Waiting?
    requires s.locks[LockOf(s.threads[t].a)] == Free
    ensures var s' := Steps(s, t, op, a, 1);
      s'.threads[t] == Entered(s.threads[t].op, s.threads[t].a, s.threads[t].start)
  {
    assert Steps(s, t, op, a, 0) == s;
  }
}

/** The variant built on a 64-bit compare-and-swap: a swap loads, with a plain load of two words
    that others may come between, and then tries to replace what it loaded until that is what is
    there. */
module CasLoop {
  import opened QuasiAtomicSpec

  datatype Pc =
    | Idle
    | Looping(value: Value, start: nat)
    | LowLoaded(value: Value, start: nat, low: int)
    | Loaded(value: Value, start: nat, seen: Value)
    | Done(op: Op, start: nat, ret: Ret, at: nat)

  datatype State = State(cell: Value, threads: seq<Pc>, log: seq<Event>)

  /** An atomic operation takes effect for thread t: it returns ret and leaves v in the cell. */
  function Effect(s: State, t: nat, op: Op, start: nat, ret: Ret, v: Value): State
    requires t < |s.threads|
  {
    State(v, s.threads[t := Done(op, start, ret, |s.log|)], s.log + [Event(t, op, ret)])
  }

  /** The next step of thread t; op is the operation of a call that begins. */
  function Apply(s: State, t: nat, op: Op): (s': State)
    requires t < |s.threads|
    ensures |s'.threads| == |s.threads|
  {
    match s.threads[t]
    case Looping(v, start) => s.(threads := s.threads[t := LowLoaded(v, start, s.cell.low)])
    case LowLoaded(v, start, low) => s.(threads := s.threads[t := Loaded(v, start, Value(low, s.cell.high))])
    case Loaded(v, start, seen) =>
      if s.cell != seen then s.(threads := s.threads[t := Looping(v, start)])
      else Effect(s, t, Swap(v), start, Old(seen), v)
    case _ =>
      match op
      case Swap(v) => s.(threads := s.threads[t := Looping(v, |s.log|)])
      case Cas(expected, v) =>
        if s.cell == expected then Effect(s, t, op, |s.log|, Status(false), v)
        else Effect(s, t, op, |s.log|, Status(true), s.cell)
      case Load => Effect(s, t, op, |s.log|, Old(s.cell), s.cell)
  }

  ghost predicate Run(run: seq<State>) {
    && |run| > 0 && run[0].log == [] && (forall t | 0 <= t < |run[0].threads| :: run[0].threads[t] == Idle)
    && forall i | 0 <= i < |run| - 1 :: Step(run[i], run[i + 1])
  }

  ghost predicate Step(s: State, s': State) {
    exists t: nat, op: Op :: t < |s.threads| && s' == Apply(s, t, op)
  }

  ghost predicate Inv(init: Value, s: State) {
    && Legal(init, s.log) && s.cell == Replay(init, s.log)
    && forall t | 0 <= t < |s.threads| :: PcInv(s, t)
  }

  ghost predicate PcInv(s: State, t: nat)
    requires t < |s.threads|
  {
    var pc := s.threads[t];
    && (!pc.Idle? ==> pc.start <= |s.log|)
    && (pc.Done? ==> pc.start <= pc.at < |s.log| && s.log[pc.at] == Event(t, pc.op, pc.ret))
  }

  lemma InvStep(init: Value, s: State, t: nat, op: Op)
    requires Inv(init, s) && t < |s.threads|
    ensures Inv(init, Apply(s, t, op))
  {
    hide Legal, Replay, Apply, PcInv;
    ValueStep(init, s, t, op);
    forall u | 0 <= u < |Apply(s, t, op).threads|
      ensures PcInv(Apply(s, t, op), u)
    {
      PcStep(s, t, op, u);
    }
  }

  lemma PcStep(s: State, t: nat, op: Op, u: nat)
    requires t < |s.threads| && u < |s.threads| && PcInv(s, u)
    ensures PcInv(Apply(s, t, op), u)
  {
    hide Alone;
  }

  lemma ValueStep(init: Value, s: State, t: nat, op: Op)
    requires Legal(init, s.log) && s.cell == Replay(init, s.log) && t < |s.threads|
    ensures Legal(init, Apply(s, t, op).log) && Apply(s, t, op).cell == Replay(init, Apply(s, t, op).log)
  {
    hide Legal;
    var pc := s.threads[t];
    LegalAppend(init, s.log, t, if pc.Loaded? then Swap(pc.value) else op);
  }

  lemma {:induction false} RunInv(run: seq<State>, n: nat)
    requires Run(run) && n < |run|
    ensures Inv(run[0].cell, run[n])
  {
    if n > 0 {
      RunInv(run, n - 1);
      assert Step(run[n - 1], run[n - 1 + 1]);
      var t: nat, op: Op :| t < |run[n - 1].threads| && run[n] == Apply(run[n - 1], t, op);
      InvStep(run[0].cell, run[n - 1], t, op);
    }
  }

  /** The retry loop is one swap: a finished call has its own event inside its call,
      and the events are a legal run of the operations one at a time. */
  lemma Linearizable(run: seq<State>, n: nat, t: nat)
    requires Run(run) && n < |run| && t < |run[n].threads| && run[n].threads[t].Done?
    ensures var pc := run[n].threads[t];
      pc.start <= pc.at < |run[n].log| && run[n].log[pc.at] == Event(t, pc.op, pc.ret)
    ensures Legal(run[0].cell, run[n].log) && run[n].cell == Replay(run[0].cell, run[n].log)
    ensures var pc := run[n].threads[t];
      AsPromised(Replay(run[0].cell, run[n].log[..pc.at]), pc.op, pc.ret, Replay(run[0].cell, run[n].log[..pc.at + 1]))
  {
    RunInv(run, n);
    assert PcInv(run[n], t);
    hide Legal;
    PromisesKept(run[0].cell, run[n].log, run[n].threads[t].at);
  }

  lemma ValuesAreConserved(run: seq<State>, n: nat)
    requires Run(run) && n < |run|
    ensures multiset{run[0].cell} + Stored(run[n].log) == Replaced(run[n].log) + multiset{run[n].cell}
  {
    RunInv(run, n);
    ValuesConserved(run[0].cell, run[n].log);
  }

  lemma StepOf(run: seq<State>, n: nat) returns (t: nat, op: Op)
    requires Run(run) && n + 1 < |run|
    ensures t < |run[n].threads| && run[n + 1] == Apply(run[n], t, op)
  {
    assert Step(run[n], run[n + 1]);
    t, op :| t < |run[n].threads| && run[n + 1] == Apply(run[n], t, op);
  }

  /** Since state s thread u has either stayed outside any call or begun one with at least the
      events of s. */
  ghost predicate BegunSince(s: State, s': State, u: nat)
    requires u < |s.threads|
  {
    && u < |s'.threads| && s.log <= s'.log
    && (s'.threads[u] == s.threads[u] || (!s'.threads[u].Idle? && s'.threads[u].start >= |s.log|))
  }

  lemma BegunSinceStep(s: State, s': State, u: nat, t: nat, op: Op)
    requires u < |s.threads| && BegunSince(s, s', u) && (s.threads[u].Idle? || s.threads[u].Done?)
    requires t < |s'.threads|
    ensures BegunSince(s, Apply(s', t, op), u)
  {
    hide Alone;
    assert s'.log <= Apply(s', t, op).log;
  }

  lemma {:induction false} BeganAfter(run: seq<State>, n: nat, m: nat, u: nat)
    requires Run(run) && n <= m < |run| && u < |run[n].threads|
    requires run[n].threads[u].Idle? || run[n].threads[u].Done?
    ensures BegunSince(run[n], run[m], u)
  {
    hide Run, Apply;
    if n < m {
      BeganAfter(run, n, m - 1, u);
      var t, op := StepOf(run, m - 1);
      BegunSinceStep(run[n], run[m - 1], u, t, op);
    }
  }

  /** Real time: a call that had returned in state n takes effect before every call that another
      thread had not yet begun in state n. */
  lemma RealTimeOrder(run: seq<State>, n: nat, m: nat, t: nat, u: nat)
    requires Run(run) && n <= m < |run| && t < |run[n].threads| && u < |run[n].threads| && u < |run[m].threads|
    requires run[n].threads[t].Done? && run[m].threads[u].Done?
    requires (run[n].threads[u].Idle? || run[n].threads[u].Done?) && run[m].threads[u] != run[n].threads[u]
    ensures run[n].threads[t].at < run[m].threads[u].at
  {
    RunInv(run, n);
    assert PcInv(run[n], t);
    BeganAfter(run, n, m, u);
    RunInv(run, m);
    assert PcInv(run[m], u);
  }

  /** Every event was added by a step of its thread that ended a call of that operation, begun before. */
  ghost predicate TakesEffect(run: seq<State>, k: nat, i: nat, e: Event)
    requires k + 1 < |run|
  {
    && |run[k].log| == i && run[k + 1].log == run[k].log + [e]
    && e.thread < |run[k].threads| && e.thread < |run[k + 1].threads|
    && var pc, pc' := run[k].threads[e.thread], run[k + 1].threads[e.thread];
       && pc'.Done? && pc'.op == e.op && pc'.ret == e.ret && pc'.at == i
       && (if e.op.Swap? then pc.Loaded? && pc.value == e.op.value && pc.start == pc'.start else pc'.start == i)
  }

  lemma LogStep(s: State, t: nat, op: Op)
    requires t < |s.threads|
    ensures var s' := Apply(s, t, op);
      s'.log == s.log || (
        && s'.threads[t].Done?
        && var pc, pc' := s.threads[t], s'.threads[t];
           && s'.log == s.log + [Event(t, pc'.op, pc'.ret)] && pc'.at == |s.log|
           && (if pc'.op.Swap? then pc.Loaded? && pc.value == pc'.op.value && pc.start == pc'.start
               else pc'.start == |s.log|))
  {
    hide Alone;
  }

  lemma {:induction false} EventsHaveCalls(run: seq<State>, n: nat, i: nat) returns (k: nat)
    requires Run(run) && n < |run| && i < |run[n].log|
    ensures k < n && TakesEffect(run, k, i, run[n].log[i])
  {
    assert n > 0;
    hide Run, Apply;
    var t, op := StepOf(run, n - 1);
    LogStep(run[n - 1], t, op);
    if i < |run[n - 1].log| {
      k := EventsHaveCalls(run, n - 1, i);
    } else {
      k := n - 1;
    }
  }

  // ----- A call left alone returns -----

  /** k steps of one thread. */
  function Steps(s: State, t: nat, op: Op, k: nat): (s': State)
    requires t < |s.threads|
    ensures |s'.threads| == |s.threads|
  {
    if k == 0 then s else Apply(Steps(s, t, op, k - 1), t, op)
  }

  lemma {:induction false} StepsMore(s: State, t: nat, op: Op, k: nat, n: nat)
    requires t < |s.threads|
    ensures Steps(s, t, op, k + n) == Steps(Steps(s, t, op, k), t, op, n)
  {
    hide Apply;
    if n > 0 {
      StepsMore(s, t, op, k, n - 1);
    }
  }

  /** One step of a swap: it comes nearer to its end, or has it. */
  lemma SwapStep(s: State, t: nat, op: Op)
    requires t < |s.threads|
    requires s.threads[t].LowLoaded? || s.threads[t].Loaded?
    ensures var s', v, start := Apply(s, t, op), s.threads[t].value, s.threads[t].start;
      if s'.threads[t].Done? then
        s'.threads[t].op == Swap(v) && s'.threads[t].start == start && s'.threads[t].ret == Old(s.cell) && s'.cell == v
      else
        s'.cell == s.cell
        && (if s.threads[t].LowLoaded? then s'.threads[t].Loaded? && s'.threads[t].value == v && s'.threads[t].start == start
            else s'.threads[t] == Looping(v, start))
  {
  }

  /** From any state, even with a stale value loaded, a swap that others leave alone returns after at
      most five steps, and keeps its promise on the cell itself. */
  lemma SwapReturns(s: State, t: nat, op: Op) returns (k: nat)
    requires t < |s.threads|
    requires s.threads[t].Looping? || s.threads[t].LowLoaded? || s.threads[t].Loaded?
    ensures k <= if s.threads[t].LowLoaded? then 5 else if s.threads[t].Loaded? then 4 else 3
    ensures var s', v := Steps(s, t, op, k), s.threads[t].value;
      && s'.threads[t].Done? && s'.threads[t].op == Swap(v) && s'.threads[t].start == s.threads[t].start
      && AsPromised(s.cell, Swap(v), s'.threads[t].ret, s'.cell)
    decreases if s.threads[t].LowLoaded? then 2 else if s.threads[t].Loaded? then 1 else 0
  {
    assert Steps(s, t, op, 0) == s;
    assert Steps(s, t, op, 1) == Apply(s, t, op);
    assert Steps(s, t, op, 2) == Apply(Apply(s, t, op), t, op);
    assert Steps(s, t, op, 3) == Apply(Apply(Apply(s, t, op), t, op), t, op);
    if s.threads[t].Looping? {
      FreshSwapReturns(s, t, op);
      k := 3;
    } else {
      SwapStep(s, t, op);
      hide Apply;
      var s' := Apply(s, t, op);
      if s'.threads[t].Done? {
        k := 1;
      } else {
        k := SwapReturns(s', t, op);
        StepsMore(s, t, op, 1, k);
        k := 1 + k;
      }
    }
  }

  lemma FreshSwapReturns(s: State, t: nat, op: Op)
    requires t < |s.threads| && s.threads[t].Looping?
    ensures var s', v := Apply(Apply(Apply(s, t, op), t, op), t, op), s.threads[t].value;
      && s'.threads[t] == Done(Swap(v), s.threads[t].start, Old(s.cell), |s.log|) && s'.cell == v
  {
    assert Value(s.cell.low, s.cell.high) == s.cell;
  }

  /** The other two operations are one step, from between calls. */
  lemma OneStepReturns(s: State, t: nat, op: Op)
    requires t < |s.threads| && (s.threads[t].Idle? || s.threads[t].Done?) && !op.Swap?
    ensures var s' := Apply(s, t, op);
      s'.threads[t].Done? && s'.threads[t].op == op && AsPromised(s.cell, op, s'.threads[t].ret, s'.cell)
  {
  }
}
