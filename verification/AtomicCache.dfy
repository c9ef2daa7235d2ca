/** One entry of the mutex-free cache of vm/AtomicCache.h, shared by any number of
    threads. Every load, store and compare-and-swap is one step; steps of different
    threads interleave freely. */
module AtomicCache {

  import opened Memory

  /** The function whose results are cached. */
  type Compute = (U4, U4) -> U4

  const LOCK: U4 := 0x8000_0000

  function SetLock(v: U4): U4 { if v < LOCK then v + LOCK else v }

  function ClearLock(v: U4): U4 { if v < LOCK then v else v - LOCK }

  function Increment(v: U4): U4 { (v + 1) % 0x1_0000_0000 }

  datatype Entry = Entry(key1: U4, key2: U4, value: U4, version: U4)

  /** Where a thread is in ATOMIC_CACHE_LOOKUP or in dvmUpdateAtomicCache. */
  datatype Pc =
    | Idle
    | Loaded(k1: U4, k2: U4, first: U4)                   // firstVersion read
    | Key1Matched(k1: U4, k2: U4, first: U4)
    | Key2Matched(k1: U4, k2: U4, first: U4)
    | ValueRead(k1: U4, k2: U4, first: U4, value: U4)     // secondVersion not yet read
    | Missed(k1: U4, k2: U4, first: U4, value: U4)        // computed, about to update
    | Locked(k1: U4, k2: U4, first: U4, value: U4)        // the lock flag is ours
    | Opened(k1: U4, k2: U4, first: U4, value: U4)        // odd version stored
    | Key1Stored(k1: U4, k2: U4, first: U4, value: U4)
    | Key2Stored(k1: U4, k2: U4, first: U4, value: U4)
    | ValueStored(k1: U4, k2: U4, first: U4, value: U4)
    | Closed(k1: U4, k2: U4, first: U4, value: U4)        // even version stored
    | Done(k1: U4, k2: U4, result: U4, hit: bool)
    | Aborted

  predicate IsWriter(pc: Pc) {
    pc.Locked? || pc.Opened? || pc.Key1Stored? || pc.Key2Stored? || pc.ValueStored? || pc.Closed?
  }

  /** The next step of one thread; k1 and k2 are the keys of a lookup that starts. */
  function Advance(compute: Compute, e: Entry, pc: Pc, k1: U4, k2: U4): (Entry, Pc) {
    match pc
    case Idle => (e, Loaded(k1, k2, e.version))
    case Done(_, _, _, _) => (e, Loaded(k1, k2, e.version))
    case Loaded(a, b, first) =>
      if e.key1 == a then (e, Key1Matched(a, b, first)) else (e, Missed(a, b, first, compute(a, b)))
    case Key1Matched(a, b, first) =>
      if e.key2 == b then (e, Key2Matched(a, b, first)) else (e, Missed(a, b, first, compute(a, b)))
    case Key2Matched(a, b, first) => (e, ValueRead(a, b, first, e.value))
    case ValueRead(a, b, first, value) =>
      if first % 2 != 0 || first != e.version then (e, Done(a, b, compute(a, b), false))
      else (e, Done(a, b, value, true))
    case Missed(a, b, first, value) =>
      if first >= LOCK || e.version != first then (e, Done(a, b, value, false))
      else (e.(version := SetLock(first)), Locked(a, b, first, value))
    case Locked(a, b, first, value) =>
      (e.(version := Increment(SetLock(first))), Opened(a, b, first, value))
    case Opened(a, b, first, value) => (e.(key1 := a), Key1Stored(a, b, first, value))
    case Key1Stored(a, b, first, value) => (e.(key2 := b), Key2Stored(a, b, first, value))
    case Key2Stored(a, b, first, value) => (e.(value := value), ValueStored(a, b, first, value))
    case ValueStored(a, b, first, value) =>
      (e.(version := Increment(Increment(SetLock(first)))), Closed(a, b, first, value))
    case Closed(a, b, first, value) =>
      var newVersion := Increment(Increment(SetLock(first)));
      if e.version != newVersion then (e, Aborted)
      else (e.(version := ClearLock(newVersion)), Done(a, b, value, false))
    case Aborted => (e, Aborted)
  }

  /** updates counts the times the lock flag was taken. */
  datatype State = State(entry: Entry, threads: seq<Pc>, updates: nat)

  ghost predicate Init(s: State) {
    s.entry == Entry(0, 0, 0, 0) && s.updates == 0 && forall t | 0 <= t < |s.threads| :: s.threads[t] == Idle
  }

  function Apply(compute: Compute, s: State, t: nat, k1: U4, k2: U4): State
    requires t < |s.threads|
  {
    var (e, pc) := Advance(compute, s.entry, s.threads[t], k1, k2);
    State(e, s.threads[t := pc], if pc.Locked? then s.updates + 1 else s.updates)
  }

  ghost predicate Step(compute: Compute, s: State, s': State) {
    exists t: nat, k1: U4, k2: U4 :: t < |s.threads| && s' == Apply(compute, s, t, k1, k2)
  }

  /** A finite run from a fresh cache in which the version counter does not overflow. */
  ghost predicate Run(compute: Compute, run: seq<State>) {
    && |run| > 0 && Init(run[0])
    && (forall i | 0 <= i < |run| - 1 :: Step(compute, run[i], run[i + 1]))
    && (forall i | 0 <= i < |run| :: run[i].updates < 0x4000_0000)
  }

  // ----- The invariant -----

  /** The version word without the lock flag. */
  function Counter(v: U4): U4 { v % LOCK }

  ghost predicate Consistent(compute: Compute, e: Entry) {
    e.value == compute(e.key1, e.key2) || (e.key1 == 0 && e.key2 == 0 && e.value == 0)
  }

  /** The version word that belongs to the stage a writer is in. */
  function WriterVersion(pc: Pc): int
    requires IsWriter(pc)
  {
    match pc
    case Locked(_, _, first, _) => LOCK + first
    case Closed(_, _, first, _) => LOCK + first + 2
    case _ => LOCK + pc.first + 1
  }

  ghost predicate WriterInv(compute: Compute, s: State, pc: Pc)
    requires IsWriter(pc)
  {
    && s.updates > 0 && pc.first == 2 * (s.updates - 1) && s.entry.version == WriterVersion(pc)
    && pc.value == compute(pc.k1, pc.k2)
    && (pc.Key1Stored? || pc.Key2Stored? || pc.ValueStored? ==> s.entry.key1 == pc.k1)
    && (pc.Key2Stored? || pc.ValueStored? ==> s.entry.key2 == pc.k2)
    && (pc.ValueStored? ==> s.entry.value == pc.value)
  }

  /** What a reader has matched is still there unless the counter moved. */
  ghost predicate ReaderInv(s: State, pc: Pc) {
    && (pc.Loaded? || pc.Key1Matched? || pc.Key2Matched? || pc.ValueRead? || pc.Missed? ==>
          Counter(pc.first) <= Counter(s.entry.version))
    && (pc.Key1Matched? || pc.Key2Matched? || pc.ValueRead? ==>
          Counter(pc.first) == Counter(s.entry.version) && pc.first % 2 == 0 ==>
            && s.entry.key1 == pc.k1
            && (pc.Key1Matched? || s.entry.key2 == pc.k2)
            && (pc.ValueRead? ==> s.entry.value == pc.value))
  }

  ghost predicate Right(compute: Compute, pc: Pc) {
    pc.Done? ==> pc.result == compute(pc.k1, pc.k2) || (pc.hit && pc.k1 == 0 && pc.k2 == 0 && pc.result == 0)
  }

  ghost predicate PcInv(compute: Compute, s: State, pc: Pc) {
    && (IsWriter(pc) ==> WriterInv(compute, s, pc))
    && (pc.Missed? ==> pc.value == compute(pc.k1, pc.k2))
    && ReaderInv(s, pc) && Right(compute, pc) && !pc.Aborted?
  }

  ghost predicate OneWriter(s: State) {
    forall t, u | 0 <= t < |s.threads| && 0 <= u < |s.threads| ::
      IsWriter(s.threads[t]) && IsWriter(s.threads[u]) ==> t == u
  }

  ghost predicate Inv(compute: Compute, s: State) {
    && OneWriter(s)
    && (s.entry.version < LOCK ==> s.entry.version == 2 * s.updates)
    && (s.entry.version >= LOCK ==> exists t :: 0 <= t < |s.threads| && IsWriter(s.threads[t]))
    && (s.entry.version % 2 == 0 ==> Consistent(compute, s.entry))
    && (forall t | 0 <= t < |s.threads| :: PcInv(compute, s, s.threads[t]))
  }

  lemma InvInit(compute: Compute, s: State)
    requires Init(s)
    ensures Inv(compute, s)
  {
  }

  /** What the moving thread sees of its own invariant and of the entry. */
  lemma MoverInv(compute: Compute, s: State, t: nat, k1: U4, k2: U4)
    requires Inv(compute, s) && t < |s.threads|
    requires Apply(compute, s, t, k1, k2).updates < 0x4000_0000
    ensures PcInv(compute, Apply(compute, s, t, k1, k2), Apply(compute, s, t, k1, k2).threads[t])
    ensures var e := Apply(compute, s, t, k1, k2).entry; e.version % 2 == 0 ==> Consistent(compute, e)
  {
    var pc := s.threads[t];
    assert PcInv(compute, s, pc);
    hide Advance, PcInv, Consistent, OneWriter;
    if IsWriter(pc) {
      WriterMoves(compute, s, pc, k1, k2, Apply(compute, s, t, k1, k2));
    } else {
      ReaderMoves(compute, s, pc, k1, k2, Apply(compute, s, t, k1, k2));
    }
  }

  /** The two kinds of steps, on the entry alone. */
  lemma WriterMoves(compute: Compute, s: State, pc: Pc, k1: U4, k2: U4, s': State)
    requires PcInv(compute, s, pc) && IsWriter(pc) && s'.updates == s.updates < 0x4000_0000
    requires s'.entry == Advance(compute, s.entry, pc, k1, k2).0
    requires s.entry.version % 2 == 0 ==> Consistent(compute, s.entry)
    ensures PcInv(compute, s', Advance(compute, s.entry, pc, k1, k2).1)
    ensures s'.entry.version % 2 == 0 ==> Consistent(compute, s'.entry)
  {
    WordsOfUpdate(pc.first);
    hide SetLock, ClearLock, Increment;
  }

  lemma ReaderMoves(compute: Compute, s: State, pc: Pc, k1: U4, k2: U4, s': State)
    requires PcInv(compute, s, pc) && !IsWriter(pc) && s'.updates < 0x4000_0000
    requires s'.entry == Advance(compute, s.entry, pc, k1, k2).0
    requires s'.updates == if Advance(compute, s.entry, pc, k1, k2).1.Locked? then s.updates + 1 else s.updates
    requires s.entry.version < LOCK ==> s.entry.version == 2 * s.updates
    requires s.entry.version % 2 == 0 ==> Consistent(compute, s.entry)
    ensures PcInv(compute, s', Advance(compute, s.entry, pc, k1, k2).1)
    ensures s'.entry.version % 2 == 0 ==> Consistent(compute, s'.entry)
  {
    if pc.Missed? && pc.first < LOCK {
      WordsOfUpdate(pc.first - pc.first % 2);
    }
    hide SetLock, ClearLock, Increment;
  }

  /** While a thread is writing, no other thread changes the entry. */
  lemma WriterExcludes(compute: Compute, s: State, t: nat, k1: U4, k2: U4, u: nat)
    requires Inv(compute, s) && t < |s.threads| && u < |s.threads| && t != u && IsWriter(s.threads[u])
    ensures Apply(compute, s, t, k1, k2).entry == s.entry
    ensures Apply(compute, s, t, k1, k2).updates == s.updates
  {
    assert PcInv(compute, s, s.threads[t]) && PcInv(compute, s, s.threads[u]);
  }

  /** A step of t keeps the invariant of every other thread u. */
  lemma OtherInv(compute: Compute, s: State, t: nat, k1: U4, k2: U4, u: nat)
    requires Inv(compute, s) && t < |s.threads| && u < |s.threads| && t != u
    requires Apply(compute, s, t, k1, k2).updates < 0x4000_0000
    ensures PcInv(compute, Apply(compute, s, t, k1, k2), s.threads[u])
  {
    assert PcInv(compute, s, s.threads[t]) && PcInv(compute, s, s.threads[u]);
    if IsWriter(s.threads[u]) {
      WriterExcludes(compute, s, t, k1, k2, u);
    } else {
      CounterMoves(compute, s, t, k1, k2);
    }
  }

  /** The counter never goes back, and the contents change only while it is odd. */
  lemma CounterMoves(compute: Compute, s: State, t: nat, k1: U4, k2: U4)
    requires Inv(compute, s) && t < |s.threads|
    requires Apply(compute, s, t, k1, k2).updates < 0x4000_0000
    ensures var e := Apply(compute, s, t, k1, k2).entry;
      && Counter(s.entry.version) <= Counter(e.version) <= Counter(s.entry.version) + 1
      && (e.(version := 0) != s.entry.(version := 0) ==>
            e.version == s.entry.version && e.version >= LOCK && e.version % 2 == 1)
  {
    assert PcInv(compute, s, s.threads[t]);
    EntryMoves(compute, s, s.threads[t], k1, k2);
  }

  lemma EntryMoves(compute: Compute, s: State, pc: Pc, k1: U4, k2: U4)
    requires IsWriter(pc) ==> WriterInv(compute, s, pc) && s.updates < 0x4000_0000
    requires !IsWriter(pc) && s.entry.version < LOCK ==> s.entry.version % 2 == 0
    ensures var e := Advance(compute, s.entry, pc, k1, k2).0;
      && Counter(s.entry.version) <= Counter(e.version) <= Counter(s.entry.version) + 1
      && (e.(version := 0) != s.entry.(version := 0) ==>
            e.version == s.entry.version && e.version >= LOCK && e.version % 2 == 1)
  {
    if IsWriter(pc) {
      WordsOfUpdate(pc.first);
    } else if pc.Missed? && pc.first < LOCK {
      WordsOfUpdate(pc.first - pc.first % 2);
    }
    hide SetLock, ClearLock, Increment, Counter;
  }

  /** The version words of one update. */
  lemma WordsOfUpdate(first: U4)
    requires first % 2 == 0 && first < LOCK
    ensures SetLock(first) == LOCK + first && Increment(SetLock(first)) == LOCK + first + 1
    ensures Counter(first) == Counter(SetLock(first)) == first && Counter(LOCK + first + 1) == first + 1
    ensures first < 0x7FFF_FFFE ==>
      && Increment(Increment(SetLock(first))) == LOCK + first + 2 && ClearLock(LOCK + first + 2) == first + 2
      && Counter(LOCK + first + 2) == Counter(first + 2) == first + 2
  {
  }

  /** The lock flag is up exactly while some thread writes. */
  lemma LockMeansWriter(compute: Compute, s: State, t: nat, k1: U4, k2: U4)
    requires Inv(compute, s) && t < |s.threads|
    requires Apply(compute, s, t, k1, k2).updates < 0x4000_0000
    ensures var s' := Apply(compute, s, t, k1, k2);
      s'.entry.version >= LOCK ==> exists u :: 0 <= u < |s'.threads| && IsWriter(s'.threads[u])
  {
    var s' := Apply(compute, s, t, k1, k2);
    assert PcInv(compute, s, s.threads[t]);
    if s.entry.version >= LOCK {
      var w :| 0 <= w < |s.threads| && IsWriter(s.threads[w]);
      if w != t {
        assert IsWriter(s'.threads[w]);
      } else if s'.entry.version >= LOCK {
        assert IsWriter(s'.threads[t]);
      }
    } else if s'.entry.version >= LOCK {
      assert IsWriter(s'.threads[t]);
    }
  }

  lemma InvStep(compute: Compute, s: State, t: nat, k1: U4, k2: U4)
    requires Inv(compute, s) && t < |s.threads|
    requires Apply(compute, s, t, k1, k2).updates < 0x4000_0000
    ensures Inv(compute, Apply(compute, s, t, k1, k2))
  {
    var s' := Apply(compute, s, t, k1, k2);
    MoverInv(compute, s, t, k1, k2);
    LockMeansWriter(compute, s, t, k1, k2);
    forall u | 0 <= u < |s'.threads|
      ensures PcInv(compute, s', s'.threads[u])
    {
      if u != t {
        OtherInv(compute, s, t, k1, k2, u);
      }
    }
  }

  // ----- Results over every run -----

  lemma {:induction false} RunInv(compute: Compute, run: seq<State>, n: nat)
    requires Run(compute, run) && n < |run|
    ensures Inv(compute, run[n])
  {
    if n == 0 {
      InvInit(compute, run[0]);
    } else {
      RunInv(compute, run, n - 1);
      assert Step(compute, run[n - 1], run[n - 1 + 1]);
      var t: nat, k1: U4, k2: U4 :| t < |run[n - 1].threads| && run[n] == Apply(compute, run[n - 1], t, k1, k2);
      InvStep(compute, run[n - 1], t, k1, k2);
    }
  }

  /** A lookup for keys other than (0, 0) returns the computed value, hit or not. */
  lemma LookupIsRight(compute: Compute, run: seq<State>, n: nat, t: nat)
    requires Run(compute, run) && n < |run| && t < |run[n].threads| && run[n].threads[t].Done?
    ensures var pc := run[n].threads[t];
      (pc.k1 == 0 && pc.k2 == 0 && pc.hit && pc.result == 0) || pc.result == compute(pc.k1, pc.k2)
  {
    RunInv(compute, run, n);
    assert PcInv(compute, run[n], run[n].threads[t]);
  }

  ghost predicate AllRight(compute: Compute, run: seq<State>) {
    forall n, t | 0 <= n < |run| && 0 <= t < |run[n].threads| ::
      var pc := run[n].threads[t]; pc.Done? ==> pc.result == compute(pc.k1, pc.k2)
  }

  /** A fresh entry is all zero and so answers the keys (0, 0) with 0: the cache is
      right on every run exactly when that is the computed value. */
  lemma RightExactlyWhenZeroIsCached(compute: Compute)
    ensures (forall run: seq<State> :: Run(compute, run) ==> AllRight(compute, run)) <==> compute(0, 0) == 0
  {
    if compute(0, 0) == 0 {
      forall run: seq<State>, n: int, t: int | Run(compute, run) && 0 <= n < |run| && 0 <= t < |run[n].threads| && run[n].threads[t].Done?
        ensures run[n].threads[t].result == compute(run[n].threads[t].k1, run[n].threads[t].k2)
      {
        LookupIsRight(compute, run, n, t);
      }
    } else {
      var s0 := State(Entry(0, 0, 0, 0), [Idle], 0);
      var run := Extend(compute, [s0], 0, 0);
      run := Extend(compute, run, 0, 0);
      run := Extend(compute, run, 0, 0);
      run := Extend(compute, run, 0, 0);
      run := Extend(compute, run, 0, 0);
      assert run[5].threads[0] == Done(0, 0, 0, true);
      assert !AllRight(compute, run);
    }
  }

  /** A run of one thread goes on with its next step. */
  lemma Extend(compute: Compute, run: seq<State>, k1: U4, k2: U4) returns (run': seq<State>)
    requires Run(compute, run)
    requires var s := run[|run| - 1]; |s.threads| == 1 && Apply(compute, s, 0, k1, k2).updates < 0x4000_0000
    ensures Run(compute, run') && run' == run + [Apply(compute, run[|run| - 1], 0, k1, k2)]
  {
    var s := run[|run| - 1];
    run' := run + [Apply(compute, s, 0, k1, k2)];
    assert Step(compute, s, run'[|run|]);
    forall i | 0 <= i < |run'| - 1
      ensures Step(compute, run'[i], run'[i + 1])
    {
      if i < |run| - 1 {
        assert Step(compute, run[i], run[i + 1]);
      }
    }
  }

  /** Safety of the writer side: a single writer, even unlocked words, the assertions
      of the update, and a closing compare-and-swap that never fails. */
  lemma WriterSide(compute: Compute, run: seq<State>, n: nat)
    requires Run(compute, run) && n < |run|
    ensures OneWriter(run[n])
    ensures run[n].entry.version < LOCK ==> run[n].entry.version % 2 == 0
    ensures forall t | 0 <= t < |run[n].threads| :: WriterSafe(run[n].entry, run[n].threads[t])
  {
    assert run[n].updates < 0x4000_0000;
    RunInv(compute, run, n);
    hide Run, ReaderInv, Right, Consistent, OneWriter, WriterInv, WriterSafe;
    forall t | 0 <= t < |run[n].threads|
      ensures WriterSafe(run[n].entry, run[n].threads[t])
    {
      assert PcInv(compute, run[n], run[n].threads[t]);
      SafeStages(compute, run[n], run[n].threads[t]);
    }
  }

  lemma SafeStages(compute: Compute, s: State, pc: Pc)
    requires IsWriter(pc) ==> WriterInv(compute, s, pc) && s.updates < 0x4000_0000
    requires !pc.Aborted?
    ensures WriterSafe(s.entry, pc)
  {
    if IsWriter(pc) {
      WordsOfUpdate(pc.first);
      OneMoreUpdateTramplesTheFlag(pc.first);
      hide SetLock, Increment;
    }
  }

  /** The assertions of dvmUpdateAtomicCache hold, its closing compare-and-swap finds
      the version it expects, and nobody has aborted. */
  ghost predicate WriterSafe(e: Entry, pc: Pc) {
    && !pc.Aborted?
    && (IsWriter(pc) ==>
          && pc.first % 2 == 0
          && Increment(SetLock(pc.first)) % 2 == 1
          && Increment(Increment(SetLock(pc.first))) == SetLock(Increment(Increment(pc.first))))
    && (pc.Closed? ==> e.version == Increment(Increment(SetLock(pc.first))))
  }

  /** An update that starts at the last even version below the flag overwrites the flag, and the
      assertion before the unlock fails. */
  lemma OneMoreUpdateTramplesTheFlag(first: U4)
    requires first % 2 == 0 && first < LOCK
    ensures Increment(Increment(SetLock(first))) == SetLock(Increment(Increment(first))) <==> first != 0x7FFF_FFFE
  {
    if first == 0x7FFF_FFFE {
      assert Increment(Increment(SetLock(first))) == 0;
    }
  }

  function Contents(e: Entry): (U4, U4, U4) { (e.key1, e.key2, e.value) }

  /** How far the entry has come: every change of the version word is one tick. */
  function Clock(s: State): int {
    if s.entry.version < LOCK then 4 * s.updates
    else 4 * s.updates - 3 + (s.entry.version - LOCK - 2 * (s.updates - 1))
  }

  /** The version word at each tick. */
  function WordAt(clock: int): int {
    match clock % 4
    case 0 => clock / 2
    case 1 => LOCK + clock / 2
    case 2 => LOCK + clock / 2
    case _ => LOCK + clock / 2 + 1
  }

  lemma ClockTicks(compute: Compute, s: State, t: nat, k1: U4, k2: U4)
    requires Inv(compute, s) && t < |s.threads|
    requires Apply(compute, s, t, k1, k2).updates < 0x4000_0000
    ensures Clock(s) <= Clock(Apply(compute, s, t, k1, k2)) <= Clock(s) + 1
  {
    var pc := s.threads[t];
    assert PcInv(compute, s, pc);
    hide ReaderInv, Right, Consistent, OneWriter, Inv;
    if IsWriter(pc) {
      WordsOfUpdate(pc.first);
      hide SetLock, ClearLock, Increment;
    }
  }

  lemma WordOfClock(compute: Compute, s: State)
    requires Inv(compute, s)
    ensures 0 <= Clock(s) <= 4 * s.updates && s.entry.version == WordAt(Clock(s))
  {
    if s.entry.version >= LOCK {
      var w :| 0 <= w < |s.threads| && IsWriter(s.threads[w]);
      assert PcInv(compute, s, s.threads[w]);
    }
  }

  /** What one step of a run does to the counter, the contents and the clock. */
  lemma NextState(compute: Compute, run: seq<State>, n: nat)
    requires Run(compute, run) && n + 1 < |run|
    ensures var v, w := run[n].entry.version, run[n + 1].entry.version;
      && Counter(v) <= Counter(w)
      && (v % 2 == 0 ==> Contents(run[n].entry) == Contents(run[n + 1].entry))
    ensures Clock(run[n]) <= Clock(run[n + 1])
  {
    hide Apply, Counter, Inv, Clock, Init;
    RunInv(compute, run, n);
    assert Step(compute, run[n], run[n + 1]);
    var t: nat, k1: U4, k2: U4 :| t < |run[n].threads| && run[n + 1] == Apply(compute, run[n], t, k1, k2);
    CounterMoves(compute, run[n], t, k1, k2);
    ClockTicks(compute, run[n], t, k1, k2);
  }

  /** From state i on the counter only grows, and while it stands still at an even
      value the keys and the value stand still too. */
  lemma {:induction false} CounterGrows(compute: Compute, run: seq<State>, i: nat, j: nat)
    requires Run(compute, run) && i <= j < |run|
    ensures Counter(run[i].entry.version) <= Counter(run[j].entry.version)
    ensures run[i].entry.version % 2 == 0 && Counter(run[i].entry.version) == Counter(run[j].entry.version) ==>
      Contents(run[i].entry) == Contents(run[j].entry)
  {
    hide Run, Contents, Counter;
    if i < j {
      CounterGrows(compute, run, i, j - 1);
      SameParity(run[i].entry.version, run[j - 1].entry.version);
      NextState(compute, run, j - 1);
    }
  }

  lemma SameParity(v: U4, w: U4)
    ensures Counter(v) == Counter(w) ==> v % 2 == w % 2
  {
  }

  lemma {:induction false} ClockGrows(compute: Compute, run: seq<State>, i: nat, j: nat)
    requires Run(compute, run) && i <= j < |run|
    ensures Clock(run[i]) <= Clock(run[j])
  {
    hide Run, Clock;
    if i < j {
      ClockGrows(compute, run, i, j - 1);
      NextState(compute, run, j - 1);
    }
  }

  /** The word at two ticks, but not in between: the last word of one update and the first of the
      next, around the unlocked one. */
  lemma SameWordTwice(x: int, y: int, z: int)
    requires 0 <= x <= y <= z <= 0xFFFF_FFFC && WordAt(x) == WordAt(z) != WordAt(y)
    ensures x % 4 == 3 && y == x + 1 && z == x + 2
    ensures LOCK < WordAt(x) < LOCK + 0x7FFF_FFFE && WordAt(x) % 2 == 0 && WordAt(y) == WordAt(x) - LOCK
  {
    Tick(x);
    Tick(y);
    Tick(z);
    hide WordAt;
  }

  /** A tick is the number of its update and a phase. */
  lemma Tick(x: int)
    requires 0 <= x
    ensures var n, phase := x / 4, x % 4;
      WordAt(x) == if phase == 0 then 2 * n else if phase == 3 then LOCK + 2 * n + 2 else LOCK + 2 * n + phase - 1
  {
    var n := x / 4;
    assert x == 4 * n || x == 4 * n + 1 || x == 4 * n + 2 || x == 4 * n + 3;
  }

  /** Around a repeated word nothing was rewritten. */
  lemma NothingRewritten(compute: Compute, run: seq<State>, i: nat, j: nat, k: nat)
    requires Run(compute, run) && i < j < k < |run| && run[i].entry.version % 2 == 0
    requires run[i].entry.version == run[k].entry.version && run[j].entry.version == ClearLock(run[i].entry.version)
    ensures Contents(run[i].entry) == Contents(run[j].entry) == Contents(run[k].entry)
  {
    hide Run, Contents;
    CounterGrows(compute, run, i, j);
    CounterGrows(compute, run, j, k);
  }

  /** A word that comes back after another word is even with the lock flag up, the word
      in between is the same counter unlocked, and nothing was rewritten meanwhile. */
  lemma OnlyLockedEvenWordsRepeat(compute: Compute, run: seq<State>, i: nat, j: nat, k: nat)
    requires Run(compute, run) && i < j < k < |run|
    requires run[i].entry.version == run[k].entry.version != run[j].entry.version
    ensures var v := run[i].entry.version;
      LOCK < v < LOCK + 0x7FFF_FFFE && v % 2 == 0 && run[j].entry.version == ClearLock(v)
    ensures Contents(run[i].entry) == Contents(run[j].entry) == Contents(run[k].entry)
  {
    assert run[k].updates < 0x4000_0000;
    hide Run, Inv, Contents, Clock, WordAt;
    RunInv(compute, run, i);
    RunInv(compute, run, j);
    RunInv(compute, run, k);
    WordOfClock(compute, run[i]);
    WordOfClock(compute, run[j]);
    WordOfClock(compute, run[k]);
    ClockGrows(compute, run, i, j);
    ClockGrows(compute, run, j, k);
    SameWordTwice(Clock(run[i]), Clock(run[j]), Clock(run[k]));
    NothingRewritten(compute, run, i, j, k);
  }

  function Last(run: seq<State>): State
    requires |run| > 0
  {
    run[|run| - 1]
  }

  /** A single thread, between lookups, after n updates. */
  ghost predicate Resting(s: State, n: nat) {
    |s.threads| == 1 && (s.threads[0].Idle? || s.threads[0].Done?) && s.updates == n && s.entry.version == 2 * n
  }

  /** The single thread has just taken the lock for update n + 1. */
  ghost predicate AtLock(s: State, n: nat) {
    && |s.threads| == 1 && s.threads[0].Locked? && s.threads[0].first == 2 * n
    && s.updates == n + 1 && s.entry.version == LOCK + 2 * n
  }

  /** From rest a lookup for other keys gets as far as the lock. */
  lemma ReachLocked(compute: Compute, run: seq<State>, n: nat) returns (run': seq<State>)
    requires Run(compute, run) && Resting(Last(run), n) && n + 1 < 0x4000_0000
    ensures Run(compute, run') && run <= run' && |run'| == |run| + 3
    ensures AtLock(Last(run'), n)
  {
    var e := Last(run).entry;
    var a: U4 := if e.key1 == 0 then 1 else 0;
    run' := Extend(compute, run, a, 0);
    assert Last(run') == State(e, [Loaded(a, 0, 2 * n)], n);
    run' := Extend(compute, run', 0, 0);
    assert Last(run') == State(e, [Missed(a, 0, 2 * n, compute(a, 0))], n);
    run' := Extend(compute, run', 0, 0);
    assert Last(run') == State(e.(version := LOCK + 2 * n), [Locked(a, 0, 2 * n, compute(a, 0))], n + 1);
  }

  /** From the lock the update goes through to the last store and to rest again. */
  lemma ReachRest(compute: Compute, run: seq<State>, n: nat) returns (run': seq<State>)
    requires Run(compute, run) && n + 1 < 0x4000_0000
    requires AtLock(Last(run), n)
    ensures Run(compute, run') && run <= run' && |run'| == |run| + 6 && Resting(Last(run'), n + 1)
    ensures run'[|run'| - 2].entry.version == LOCK + 2 * (n + 1)
  {
    var a, b, value := Last(run).threads[0].k1, Last(run).threads[0].k2, Last(run).threads[0].value;
    var e := Last(run).entry;
    var odd := LOCK + 2 * n + 1;
    run' := Extend(compute, run, 0, 0);
    assert Last(run') == State(e.(version := odd), [Opened(a, b, 2 * n, value)], n + 1);
    run' := Extend(compute, run', 0, 0);
    assert Last(run') == State(Entry(a, e.key2, e.value, odd), [Key1Stored(a, b, 2 * n, value)], n + 1);
    run' := Extend(compute, run', 0, 0);
    assert Last(run') == State(Entry(a, b, e.value, odd), [Key2Stored(a, b, 2 * n, value)], n + 1);
    run' := Extend(compute, run', 0, 0);
    assert Last(run') == State(Entry(a, b, value, odd), [ValueStored(a, b, 2 * n, value)], n + 1);
    run' := Extend(compute, run', 0, 0);
    assert Last(run') == State(Entry(a, b, value, odd + 1), [Closed(a, b, 2 * n, value)], n + 1);
    run' := Extend(compute, run', 0, 0);
  }

  lemma {:induction false} ReachUpdates(compute: Compute, n: nat) returns (run: seq<State>)
    requires n < 0x4000_0000
    ensures Run(compute, run) && Resting(Last(run), n)
    ensures n > 0 ==> |run| > 1 && run[|run| - 2].entry.version == LOCK + 2 * n
  {
    if n == 0 {
      run := [State(Entry(0, 0, 0, 0), [Idle], 0)];
    } else {
      run := ReachUpdates(compute, n - 1);
      run := ReachLocked(compute, run, n - 1);
      run := ReachRest(compute, run, n - 1);
    }
  }

  // ----- The bound on updates -----

  /** A run without a bound. */
  ghost predicate FreeRun(compute: Compute, run: seq<State>) {
    |run| > 0 && Init(run[0]) && forall i | 0 <= i < |run| - 1 :: Step(compute, run[i], run[i + 1])
  }

  ghost predicate UpdatesUpTo(run: seq<State>, bound: nat) {
    forall i | 0 <= i < |run| :: run[i].updates <= bound
  }

  ghost predicate AllSafe(run: seq<State>) {
    forall n, t | 0 <= n < |run| && 0 <= t < |run[n].threads| :: WriterSafe(run[n].entry, run[n].threads[t])
  }

  /** A run up to the bound goes on with the next step of its thread. */
  lemma ExtendFree(compute: Compute, run: seq<State>, k1: U4) returns (run': seq<State>)
    requires FreeRun(compute, run) && UpdatesUpTo(run, 0x4000_0000) && |Last(run).threads| == 1
    requires Apply(compute, Last(run), 0, k1, 0).updates <= 0x4000_0000
    ensures FreeRun(compute, run') && UpdatesUpTo(run', 0x4000_0000)
    ensures run' != [] && Last(run') == Apply(compute, Last(run), 0, k1, 0)
  {
    run' := run + [Apply(compute, Last(run), 0, k1, 0)];
    assert Step(compute, Last(run), run'[|run|]);
    forall i | 0 <= i < |run'| - 1 ensures Step(compute, run'[i], run'[i + 1]) {
      if i < |run| - 1 {
        assert Step(compute, run[i], run[i + 1]);
      }
    }
  }

  /** From rest at the last even version below the flag a lookup for other keys takes the lock. */
  lemma LastLock(compute: Compute, run: seq<State>) returns (run': seq<State>)
    requires FreeRun(compute, run) && UpdatesUpTo(run, 0x4000_0000) && Resting(Last(run), 0x3FFF_FFFF)
    ensures FreeRun(compute, run') && UpdatesUpTo(run', 0x4000_0000) && AtLock(Last(run'), 0x3FFF_FFFF)
  {
    var e := Last(run).entry;
    hide FreeRun, UpdatesUpTo;
    var a: U4 := if e.key1 == 0 then 1 else 0;
    run' := ExtendFree(compute, run, a);
    assert Last(run') == State(e, [Loaded(a, 0, e.version)], 0x3FFF_FFFF);
    run' := ExtendFree(compute, run', 0);
    assert Last(run') == State(e, [Missed(a, 0, e.version, compute(a, 0))], 0x3FFF_FFFF);
    run' := ExtendFree(compute, run', 0);
  }

  /** The stores of that update bring the version word to zero. */
  lemma LastStores(compute: Compute, run: seq<State>) returns (run': seq<State>)
    requires FreeRun(compute, run) && UpdatesUpTo(run, 0x4000_0000) && AtLock(Last(run), 0x3FFF_FFFF)
    ensures FreeRun(compute, run') && UpdatesUpTo(run', 0x4000_0000) && |Last(run').threads| == 1
    ensures var pc := Last(run').threads[0];
      pc.Closed? && pc.first == 0x7FFF_FFFE && Last(run').entry.version == 0
  {
    var pc := Last(run).threads[0];
    hide FreeRun, UpdatesUpTo;
    run' := ExtendFree(compute, run, 0);
    assert Last(run').threads == [Opened(pc.k1, pc.k2, pc.first, pc.value)];
    run' := ExtendFree(compute, run', 0);
    assert Last(run').threads == [Key1Stored(pc.k1, pc.k2, pc.first, pc.value)];
    run' := ExtendFree(compute, run', 0);
    assert Last(run').threads == [Key2Stored(pc.k1, pc.k2, pc.first, pc.value)];
    run' := ExtendFree(compute, run', 0);
    assert Last(run').threads == [ValueStored(pc.k1, pc.k2, pc.first, pc.value)];
    run' := ExtendFree(compute, run', 0);
  }

  /** After 2^30 - 1 updates one more, step by step, loses the flag and fails the assertion before
      the unlock. */
  lemma ReachTrampled(compute: Compute) returns (run: seq<State>)
    ensures FreeRun(compute, run) && UpdatesUpTo(run, 0x4000_0000) && |Last(run).threads| == 1
    ensures var pc := Last(run).threads[0];
      && pc.Closed? && Last(run).entry.version == Increment(Increment(SetLock(pc.first))) == 0
      && SetLock(Increment(Increment(pc.first))) == LOCK
  {
    run := ReachUpdates(compute, 0x3FFF_FFFF);
    hide Init, Step, Resting, AtLock;
    run := LastLock(compute, run);
    run := LastStores(compute, run);
  }

  /** The writer side is safe in all runs of so many updates exactly if there are fewer than 2^30. */
  lemma SafeExactlyBelow(compute: Compute, bound: nat)
    ensures (forall run | FreeRun(compute, run) && UpdatesUpTo(run, bound) :: AllSafe(run)) <==> bound < 0x4000_0000
  {
    if bound < 0x4000_0000 {
      forall run: seq<State> | FreeRun(compute, run) && UpdatesUpTo(run, bound) ensures AllSafe(run) {
        forall n: int, t: int | 0 <= n < |run| && 0 <= t < |run[n].threads|
          ensures WriterSafe(run[n].entry, run[n].threads[t])
        {
          WriterSide(compute, run, n);
        }
      }
    } else {
      var run := ReachTrampled(compute);
      hide FreeRun;
      assert !WriterSafe(run[|run| - 1].entry, run[|run| - 1].threads[0]);
      assert !AllSafe(run) && UpdatesUpTo(run, bound);
    }
  }

  // ----- Words that come back -----

  ghost predicate Repeats(compute: Compute, v: U4) {
    exists run: seq<State>, i: nat, j: nat, k: nat :: RepeatsIn(compute, v, run, i, j, k)
  }

  ghost predicate RepeatsIn(compute: Compute, v: U4, run: seq<State>, i: nat, j: nat, k: nat) {
    && Run(compute, run) && i < j < k < |run|
    && run[i].entry.version == run[k].entry.version == v && run[j].entry.version != v
  }

  /** The words that can come back are exactly the even ones above the bare flag: the
      end of one update and the start of the next share a word. */
  lemma WordsThatRepeat(compute: Compute, v: U4)
    ensures Repeats(compute, v) <==> LOCK < v < LOCK + 0x7FFF_FFFE && v % 2 == 0
  {
    if LOCK < v < LOCK + 0x7FFF_FFFE && v % 2 == 0 {
      var n := (v - LOCK) / 2;
      var run := ReachUpdates(compute, n);
      var run' := ReachLocked(compute, run, n);
      assert RepeatsIn(compute, v, run', |run| - 2, |run| - 1, |run'| - 1);
    }
    if Repeats(compute, v) {
      var run: seq<State>, i: nat, j: nat, k: nat :| RepeatsIn(compute, v, run, i, j, k);
      OnlyLockedEvenWordsRepeat(compute, run, i, j, k);
    }
  }

  // ----- A call of its own -----

  predicate Busy(pc: Pc) { !pc.Idle? && !pc.Done? && !pc.Aborted? }

  /** The most steps that a call still takes. */
  function StepsLeft(pc: Pc): nat {
    match pc
    case Loaded(_, _, _) => 9
    case Key1Matched(_, _, _) => 8
    case Missed(_, _, _, _) => 7
    case Locked(_, _, _, _) => 6
    case Opened(_, _, _, _) => 5
    case Key1Stored(_, _, _, _) => 4
    case Key2Stored(_, _, _, _) => 3
    case ValueStored(_, _, _, _) | Key2Matched(_, _, _) => 2
    case Closed(_, _, _, _) | ValueRead(_, _, _, _) => 1
    case _ => 0
  }

  /** Step i of the run is one of thread who[i]. */
  ghost predicate By(compute: Compute, run: seq<State>, who: seq<nat>) {
    |run| == |who| + 1 && forall i | 0 <= i < |who| :: StepOf(compute, run[i], run[i + 1], who[i])
  }

  ghost predicate StepOf(compute: Compute, s: State, s': State, t: nat) {
    exists k1: U4, k2: U4 :: t < |s.threads| && s' == Apply(compute, s, t, k1, k2)
  }

  /** How many of the steps from i up to j are steps of t. */
  function OwnSteps(who: seq<nat>, t: nat, i: nat, j: nat): nat
    requires i <= j <= |who|
  {
    if i == j then 0 else OwnSteps(who, t, i, j - 1) + if who[j - 1] == t then 1 else 0
  }

  /** Every step of a busy thread counts, and those of other threads do it no harm. */
  lemma StepCounts(compute: Compute, s: State, s': State, u: nat, t: nat)
    requires StepOf(compute, s, s', u) && t < |s.threads| && t < |s'.threads|
    requires Busy(s.threads[t]) && Busy(s'.threads[t])
    ensures StepsLeft(s'.threads[t]) + (if u == t then 1 else 0) <= StepsLeft(s.threads[t]) <= 9
  {
    hide SetLock, ClearLock, Increment;
  }

  /** Nobody waits: a call that has begun returns within nine more steps of its own thread, whatever
      the other threads do or fail to do. */
  lemma {:induction false} WaitFree(compute: Compute, run: seq<State>, who: seq<nat>, t: nat, i: nat, j: nat)
    requires By(compute, run, who) && i <= j < |run|
    requires forall k | i <= k <= j :: t < |run[k].threads| && Busy(run[k].threads[t])
    ensures OwnSteps(who, t, i, j) + StepsLeft(run[j].threads[t]) <= StepsLeft(run[i].threads[t]) <= 9
  {
    hide StepOf, Busy;
    if i < j {
      WaitFree(compute, run, who, t, i, j - 1);
      assert StepOf(compute, run[j - 1], run[j - 1 + 1], who[j - 1]);
      hide By;
      StepCounts(compute, run[j - 1], run[j], who[j - 1], t);
      hide StepsLeft;
    }
  }

  /** n steps of one thread with no other thread between them. */
  function Undisturbed(compute: Compute, e: Entry, pc: Pc, k1: U4, k2: U4, n: nat): (Entry, Pc)
    decreases n
  {
    if n == 0 then (e, pc)
    else
      var (e', pc') := Advance(compute, e, pc, k1, k2);
      Undisturbed(compute, e', pc', k1, k2, n - 1)
  }

  lemma NextAlone(compute: Compute, e: Entry, pc: Pc, k1: U4, k2: U4, n: nat)
    requires n > 0
    ensures var (e', pc') := Advance(compute, e, pc, k1, k2);
      Undisturbed(compute, e, pc, k1, k2, n) == Undisturbed(compute, e', pc', k1, k2, n - 1)
  {
  }

  predicate Unlocked(e: Entry) { e.version < 0x7FFF_FFFE && e.version % 2 == 0 }

  predicate HasKeys(e: Entry, k1: U4, k2: U4) { e.key1 == k1 && e.key2 == k2 }

  /** An undisturbed lookup of the keys that are in the entry is a hit and gives its value, unless the
      version says that an update is under way; nothing is written. */
  lemma HitExactly(compute: Compute, e: Entry, k1: U4, k2: U4)
    requires HasKeys(e, k1, k2)
    ensures Undisturbed(compute, e, Idle, k1, k2, 5) ==
      (e, if e.version % 2 == 0 then Done(k1, k2, e.value, true) else Done(k1, k2, compute(k1, k2), false))
  {
    var v := e.version;
    NextAlone(compute, e, Idle, k1, k2, 5);
    NextAlone(compute, e, Loaded(k1, k2, v), k1, k2, 4);
    NextAlone(compute, e, Key1Matched(k1, k2, v), k1, k2, 3);
    NextAlone(compute, e, Key2Matched(k1, k2, v), k1, k2, 2);
    NextAlone(compute, e, ValueRead(k1, k2, v, e.value), k1, k2, 1);
  }

  /** The steps up to the decision to update. */
  lemma MissAlone(compute: Compute, e: Entry, k1: U4, k2: U4, n: nat)
    requires !HasKeys(e, k1, k2) && n >= if e.key1 != k1 then 2 else 3
    ensures var n' := n - if e.key1 != k1 then 2 else 3;
      Undisturbed(compute, e, Idle, k1, k2, n)
      == Undisturbed(compute, e, Missed(k1, k2, e.version, compute(k1, k2)), k1, k2, n')
  {
    NextAlone(compute, e, Idle, k1, k2, n);
    NextAlone(compute, e, Loaded(k1, k2, e.version), k1, k2, n - 1);
    if e.key1 == k1 {
      NextAlone(compute, e, Key1Matched(k1, k2, e.version), k1, k2, n - 2);
    }
  }

  /** An undisturbed lookup of other keys fills the entry with them, if nobody holds the lock. */
  lemma MissFills(compute: Compute, e: Entry, k1: U4, k2: U4)
    requires Unlocked(e) && !HasKeys(e, k1, k2)
    ensures Undisturbed(compute, e, Idle, k1, k2, if e.key1 != k1 then 9 else 10)
      == (Entry(k1, k2, compute(k1, k2), e.version + 2), Done(k1, k2, compute(k1, k2), false))
  {
    MissAlone(compute, e, k1, k2, if e.key1 != k1 then 9 else 10);
    FillAlone(compute, e, k1, k2);
  }

  /** The seven steps of the update. */
  lemma FillAlone(compute: Compute, e: Entry, k1: U4, k2: U4)
    requires Unlocked(e)
    ensures Undisturbed(compute, e, Missed(k1, k2, e.version, compute(k1, k2)), k1, k2, 7)
      == (Entry(k1, k2, compute(k1, k2), e.version + 2), Done(k1, k2, compute(k1, k2), false))
  {
    var v, x := e.version, compute(k1, k2);
    var e2 := e.(version := LOCK + v + 1);
    StoresAlone(compute, e2, k1, k2, v, x);
    LockAlone(compute, e, k1, k2, v, x);
    hide Advance, Undisturbed;
    NextAlone(compute, e, Missed(k1, k2, v, x), k1, k2, 7);
    NextAlone(compute, e.(version := LOCK + v), Locked(k1, k2, v, x), k1, k2, 6);
  }

  lemma LockAlone(compute: Compute, e: Entry, k1: U4, k2: U4, v: U4, x: U4)
    requires v < 0x7FFF_FFFE && v % 2 == 0 && e.version == v
    ensures var e1 := e.(version := LOCK + v);
      && Advance(compute, e, Missed(k1, k2, v, x), k1, k2) == (e1, Locked(k1, k2, v, x))
      && Advance(compute, e1, Locked(k1, k2, v, x), k1, k2) == (e.(version := LOCK + v + 1), Opened(k1, k2, v, x))
  {
    WordsOfUpdate(v);
    hide SetLock, ClearLock, Increment;
  }

  lemma StoresAlone(compute: Compute, e: Entry, k1: U4, k2: U4, v: U4, x: U4)
    requires v < 0x7FFF_FFFE && v % 2 == 0 && e.version == LOCK + v + 1
    ensures Undisturbed(compute, e, Opened(k1, k2, v, x), k1, k2, 5) == (Entry(k1, k2, x, v + 2), Done(k1, k2, x, false))
  {
    StoresInTurn(compute, e, k1, k2, v, x);
    ClosesInTurn(compute, e, k1, k2, v, x);
    hide Advance;
    NextAlone(compute, e, Opened(k1, k2, v, x), k1, k2, 5);
    NextAlone(compute, e.(key1 := k1), Key1Stored(k1, k2, v, x), k1, k2, 4);
    NextAlone(compute, e.(key1 := k1, key2 := k2), Key2Stored(k1, k2, v, x), k1, k2, 3);
    var e3 := Entry(k1, k2, x, e.version);
    NextAlone(compute, e3, ValueStored(k1, k2, v, x), k1, k2, 2);
    NextAlone(compute, e3.(version := LOCK + v + 2), Closed(k1, k2, v, x), k1, k2, 1);
  }

  lemma StoresInTurn(compute: Compute, e: Entry, k1: U4, k2: U4, v: U4, x: U4)
    ensures var e1, e2 := e.(key1 := k1), e.(key1 := k1, key2 := k2);
      && Advance(compute, e, Opened(k1, k2, v, x), k1, k2) == (e1, Key1Stored(k1, k2, v, x))
      && Advance(compute, e1, Key1Stored(k1, k2, v, x), k1, k2) == (e2, Key2Stored(k1, k2, v, x))
      && Advance(compute, e2, Key2Stored(k1, k2, v, x), k1, k2) == (Entry(k1, k2, x, e.version), ValueStored(k1, k2, v, x))
  {
    hide SetLock, ClearLock, Increment;
  }

  lemma ClosesInTurn(compute: Compute, e: Entry, k1: U4, k2: U4, v: U4, x: U4)
    requires v < 0x7FFF_FFFE && v % 2 == 0 && e.version == LOCK + v + 1
    ensures var e3 := Entry(k1, k2, x, e.version);
      && Advance(compute, e3, ValueStored(k1, k2, v, x), k1, k2) == (e3.(version := LOCK + v + 2), Closed(k1, k2, v, x))
      && Advance(compute, e3.(version := LOCK + v + 2), Closed(k1, k2, v, x), k1, k2)
         == (e3.(version := v + 2), Done(k1, k2, x, false))
  {
    WordsOfUpdate(v);
    hide SetLock, ClearLock, Increment;
  }

  /** If somebody holds it, the computed value is returned and nothing is written. */
  lemma MissOfLocked(compute: Compute, e: Entry, k1: U4, k2: U4)
    requires e.version >= LOCK && !HasKeys(e, k1, k2)
    ensures Undisturbed(compute, e, Idle, k1, k2, if e.key1 != k1 then 3 else 4)
      == (e, Done(k1, k2, compute(k1, k2), false))
  {
    MissAlone(compute, e, k1, k2, if e.key1 != k1 then 3 else 4);
    NextAlone(compute, e, Missed(k1, k2, e.version, compute(k1, k2)), k1, k2, 1);
  }

  /** What a lookup has filled in, the next lookup of the same keys finds. */
  lemma SecondLookupHits(compute: Compute, e: Entry, k1: U4, k2: U4)
    requires Unlocked(e) && !HasKeys(e, k1, k2)
    ensures var (e', pc) := Undisturbed(compute, e, Idle, k1, k2, if e.key1 != k1 then 9 else 10);
      Undisturbed(compute, e', pc, k1, k2, 5) == (e', Done(k1, k2, compute(k1, k2), true))
  {
    MissFills(compute, e, k1, k2);
    var e' := Entry(k1, k2, compute(k1, k2), e.version + 2);
    HitExactly(compute, e', k1, k2);
    NextAlone(compute, e', Idle, k1, k2, 5);
    NextAlone(compute, e', Done(k1, k2, compute(k1, k2), false), k1, k2, 5);
  }
}
