/** Try and catch tables of a code_item: the verifier (libdex/DexSwapVerify.cpp) and the
    code that trusts it (libdex/DexCatch.*, dexGetDexCodeSize in libdex/DexFile.cpp).
    A code_item is named by its file offset, which is a multiple of four. */
module DexCatch {
  import opened Memory
  import Leb128

  // ----- The fields of a code_item -----

  /** Room for the reads that are checked only afterwards: the handler data of the
      largest try table can start half a megabyte behind the end of the file. */
  ghost predicate Mapped(m: seq<Byte>, fileEnd: nat) {
    fileEnd + 0x8_0040 <= |m|
  }

  predicate CodeAt(m: seq<Byte>, c: nat) {
    c % 4 == 0 && c + 20 <= |m|
  }

  function TriesSize(m: seq<Byte>, c: nat): U2
    requires CodeAt(m, c)
  {
    Load2(m, c + 6)
  }

  function InsnsSize(m: seq<Byte>, c: nat): U4
    requires CodeAt(m, c)
  {
    Load4(m, c + 12)
  }

  function InsnsEnd(m: seq<Byte>, c: nat): nat
    requires CodeAt(m, c)
  {
    c + 16 + 2 * InsnsSize(m, c) as int
  }

  /** dexGetTries. */
  function TriesOff(m: seq<Byte>, c: nat): nat
    requires CodeAt(m, c)
  {
    var end := InsnsEnd(m, c); if end % 4 != 0 then end + 2 else end
  }

  /** dexGetCatchHandlerData. */
  function HandlersOff(m: seq<Byte>, c: nat): nat
    requires CodeAt(m, c)
  {
    TriesOff(m, c) + 8 * TriesSize(m, c) as int
  }

  datatype Try = Try(startAddr: U4, insnCount: U2, handlerOff: U2) {
    function End(): int { startAddr as int + insnCount }

    predicate Covers(address: int) { startAddr <= address < End() }
  }

  function TryAt(m: seq<Byte>, p: nat): Try
    requires p + 8 <= |m|
  {
    Try(Load4(m, p), Load2(m, p + 4), Load2(m, p + 6))
  }

  function TryList(m: seq<Byte>, p: nat, count: nat): (ts: seq<Try>)
    requires p + 8 * count <= |m|
    ensures |ts| == count
  {
    seq(count, i requires 0 <= i < count => TryAt(m, p + 8 * i))
  }

  function Tries(m: seq<Byte>, c: nat): (ts: seq<Try>)
    requires CodeAt(m, c) && HandlersOff(m, c) <= |m|
  {
    TryList(m, TriesOff(m, c), TriesSize(m, c))
  }

  // ----- Handlers, as the verifier parses them -----

  /** One clause; a catch-all has NO_INDEX for its type. */
  datatype Handler = Handler(typeIdx: U4, address: U4)

  datatype Limits = Limits(fileEnd: nat, typeIdsSize: U4, insnsSize: U4)

  datatype Parsed = Parsed(handlers: seq<Handler>, end: nat)

  /** A number below a bound, in the file. */
  predicate Checked(m: seq<Byte>, l: Limits, p: nat, bound: U4)
    requires p + 5 <= |m|
  {
    Leb128.Valid(m, p, l.fileEnd) && Leb128.Unsigned(m, p) < bound
  }

  /** count typed clauses from p on, and then a catch-all address if there is one. */
  function Clauses(m: seq<Byte>, l: Limits, p: nat, count: nat, catchesAll: bool): Option<Parsed>
    requires Mapped(m, l.fileEnd) && p <= l.fileEnd + 0x8_0030
    decreases count
  {
    if count == 0 then
      if !catchesAll then Some(Parsed([], p))
      else if !Checked(m, l, p, l.insnsSize) then None
      else Some(Parsed([Handler(NO_INDEX, Leb128.Unsigned(m, p))], Leb128.After(m, p)))
    else if !Checked(m, l, p, l.typeIdsSize) || !Checked(m, l, Leb128.After(m, p), l.insnsSize) then None
    else
      match Clauses(m, l, Leb128.After(m, Leb128.After(m, p)), count - 1, catchesAll)
      case None => None
      case Some(rest) =>
        Some(Parsed([Handler(Leb128.Unsigned(m, p), Leb128.Unsigned(m, Leb128.After(m, p)))] + rest.handlers, rest.end))
  }

  function Abs(x: int): nat { if x < 0 then -x else x }

  /** One encoded_catch_handler. */
  function CatchHandler(m: seq<Byte>, l: Limits, p: nat): Option<Parsed>
    requires Mapped(m, l.fileEnd) && p <= l.fileEnd + 0x8_0020
  {
    var size := Leb128.Signed(m, p);
    if !Leb128.Valid(m, p, l.fileEnd) || Abs(size) > 65536 then None
    else Clauses(m, l, Leb128.After(m, p), Abs(size), size <= 0)
  }

  /** The offsets of count handlers from p on, and where the last one ends. */
  datatype HandlerList = HandlerList(starts: seq<nat>, end: nat)

  function CatchHandlers(m: seq<Byte>, l: Limits, p: nat, count: nat): Option<HandlerList>
    requires Mapped(m, l.fileEnd) && p <= l.fileEnd + 0x8_0020
    decreases count
  {
    if count == 0 then Some(HandlerList([], p))
    else
      match CatchHandler(m, l, p)
      case None => None
      case Some(h) =>
        ClausesEnd(m, l, Leb128.After(m, p), Abs(Leb128.Signed(m, p)), Leb128.Signed(m, p) <= 0);
        match CatchHandlers(m, l, h.end, count - 1)
        case None => None
        case Some(rest) => Some(HandlerList([p] + rest.starts, rest.end))
  }

  lemma {:induction false} ClausesEnd(m: seq<Byte>, l: Limits, p: nat, count: nat, catchesAll: bool)
    requires Mapped(m, l.fileEnd) && p <= l.fileEnd && Clauses(m, l, p, count, catchesAll).Some?
    ensures p <= Clauses(m, l, p, count, catchesAll).value.end <= l.fileEnd
    decreases count
  {
    if count > 0 {
      ClausesEnd(m, l, Leb128.After(m, Leb128.After(m, p)), count - 1, catchesAll);
    }
  }

  // ----- The iterator over one handler -----

  /** DexCatchIterator. */
  class CatchIterator {
    const m: seq<Byte>
    var pEncodedData: nat
    var catchesAll: bool
    var countRemaining: nat

    /** What is still to come, when the verifier has accepted it. */
    ghost function Rest(l: Limits): Option<Parsed>
      requires Mapped(m, l.fileEnd)
      reads this
    {
      if pEncodedData > l.fileEnd then None else Clauses(m, l, pEncodedData, countRemaining, catchesAll)
    }

    /** dexCatchIteratorInitToPointer. */
    constructor (m: seq<Byte>, p: nat, ghost l: Limits)
      requires Mapped(m, l.fileEnd) && p <= l.fileEnd && CatchHandler(m, l, p).Some?
      ensures this.m == m && Rest(l) == CatchHandler(m, l, p)
    {
      var count, next := Leb128.ReadSignedLeb128(m, p);
      this.m := m;
      if count <= 0 {
        catchesAll := true;
        count := -count;
      } else {
        catchesAll := false;
      }
      pEncodedData := next;
      countRemaining := count;
    }

    /** dexCatchIteratorNext; None stands for NULL. */
    method Next(ghost l: Limits) returns (r: Option<Handler>)
      requires Mapped(m, l.fileEnd) && Rest(l).Some?
      modifies this
      ensures Rest(l).Some? && Rest(l).value.end == old(Rest(l).value.end)
      ensures var hs := old(Rest(l).value.handlers);
        if hs == [] then r == None && Rest(l).value.handlers == [] && pEncodedData == Rest(l).value.end
        else r == Some(hs[0]) && Rest(l).value.handlers == hs[1..]
      ensures countRemaining + (if catchesAll then 1 else 0) <= old(countRemaining + (if catchesAll then 1 else 0))
      ensures r.Some? ==> countRemaining + (if catchesAll then 1 else 0) < old(countRemaining + (if catchesAll then 1 else 0))
    {
      var typeIdx: U4 := NO_INDEX;
      if countRemaining == 0 {
        if !catchesAll {
          return None;
        }
        catchesAll := false;
      } else {
        typeIdx, pEncodedData := Leb128.ReadUnsignedLeb128(m, pEncodedData);
        countRemaining := countRemaining - 1;
      }
      var address;
      address, pEncodedData := Leb128.ReadUnsignedLeb128(m, pEncodedData);
      return Some(Handler(typeIdx, address));
    }

    /** dexCatchIteratorGetEndOffset, as an offset in the file. */
    method GetEnd(ghost l: Limits) returns (end: nat)
      requires Mapped(m, l.fileEnd) && Rest(l).Some?
      modifies this
      ensures end == old(Rest(l).value.end)
    {
      var handler := Next(l);
      while handler.Some?
        invariant Rest(l).Some? && Rest(l).value.end == old(Rest(l).value.end)
        invariant handler.None? ==> pEncodedData == Rest(l).value.end
        decreases countRemaining + (if catchesAll then 1 else 0), handler.Some?
      {
        handler := Next(l);
      }
      return pEncodedData;
    }
  }

  // ----- The verifier -----

  function EndOf(o: Option<Parsed>): Option<nat> {
    match o case None => None case Some(h) => Some(h.end)
  }

  /** The body of the loop in setHandlerOffsAndVerify. */
  method VerifyHandler(m: seq<Byte>, l: Limits, p: nat) returns (end: Option<nat>)
    requires Mapped(m, l.fileEnd) && p <= l.fileEnd
    ensures end == EndOf(CatchHandler(m, l, p))
  {
    hide Leb128.Unsigned, Leb128.Signed, Leb128.Size;
    var okay := true;
    var size: int, ptr: nat;
    size, ptr, okay := Leb128.ReadAndVerifySignedLeb128(m, p, Some(l.fileEnd), okay);
    if !okay {
      return None;
    }
    if size < -65536 || size > 65536 {
      return None;
    }
    var catchAll;
    if size <= 0 {
      catchAll := true;
      size := -size;
    } else {
      catchAll := false;
    }
    while size > 0
      invariant size >= 0 && okay && ptr <= l.fileEnd
      invariant EndOf(CatchHandler(m, l, p)) == EndOf(Clauses(m, l, ptr, size, catchAll))
    {
      size := size - 1;
      var typeIdx, addr;
      typeIdx, ptr, okay := Leb128.ReadAndVerifyUnsignedLeb128(m, ptr, Some(l.fileEnd), okay);
      if !okay {
        return None;
      }
      if typeIdx >= l.typeIdsSize {
        return None;
      }
      addr, ptr, okay := Leb128.ReadAndVerifyUnsignedLeb128(m, ptr, Some(l.fileEnd), okay);
      if !okay {
        return None;
      }
      if addr >= l.insnsSize {
        return None;
      }
    }
    if catchAll {
      var addr;
      addr, ptr, okay := Leb128.ReadAndVerifyUnsignedLeb128(m, ptr, Some(l.fileEnd), okay);
      if !okay {
        return None;
      }
      if addr >= l.insnsSize {
        return None;
      }
    }
    return Some(ptr);
  }

  /** What setHandlerOffsAndVerify reports: the offsets of the handlers from the base and the
      end of the last one, or zero. */
  ghost predicate Reports(base: nat, r: Option<HandlerList>, offset: nat, offs: seq<nat>) {
    match r
    case None => offset == 0
    case Some(h) => offset > 0 && base + offset == h.end && AreOffsets(base, offs, h.starts)
  }

  ghost predicate AreOffsets(base: nat, offs: seq<nat>, starts: seq<nat>) {
    |offs| == |starts| && forall i | 0 <= i < |starts| :: base + offs[i] == starts[i]
  }

  /** setHandlerOffsAndVerify. */
  method SetHandlerOffsAndVerify(m: seq<Byte>, l: Limits, handlersBase: nat, firstOffset: nat, handlerOffs: array<nat>)
    returns (offset: nat)
    requires Mapped(m, l.fileEnd) && 0 < firstOffset && handlersBase + firstOffset <= l.fileEnd
    modifies handlerOffs
    ensures handlersBase + offset <= l.fileEnd || offset == 0
    ensures Reports(handlersBase, CatchHandlers(m, l, handlersBase + firstOffset, handlerOffs.Length), offset,
                    handlerOffs[..])
  {
    hide CatchHandlers, CatchHandler, Ahead;
    offset := firstOffset;
    ghost var n := handlerOffs.Length;
    ghost var total := CatchHandlers(m, l, handlersBase + firstOffset, n);
    ghost var done: seq<nat> := [];
    AheadOfNothing(total);
    for i := 0 to handlerOffs.Length
      invariant 0 < offset && handlersBase + offset <= l.fileEnd
      invariant total == Ahead(done, CatchHandlers(m, l, handlersBase + offset, n - i))
      invariant |done| == i && forall k | 0 <= k < i :: handlersBase + handlerOffs[k] == done[k]
    {
      var p := handlersBase + offset;
      CatchHandlersStep(m, l, p, n - i);
      var end := VerifyHandler(m, l, p);
      if end.None? {
        AheadOfFailure(done);
        return 0;
      }
      HandlerEnd(m, l, p);
      AheadStep(done, p, CatchHandlers(m, l, end.value, n - i - 1));
      handlerOffs[i] := offset;
      done := done + [p];
      offset := end.value - handlersBase;
    }
    AheadOfEnd(m, l, done, handlersBase + offset);
  }

  lemma AheadOfEnd(m: seq<Byte>, l: Limits, done: seq<nat>, p: nat)
    requires Mapped(m, l.fileEnd) && p <= l.fileEnd
    ensures Ahead(done, CatchHandlers(m, l, p, 0)) == Some(HandlerList(done, p))
  {
    assert done + [] == done;
  }

  function Ahead(done: seq<nat>, o: Option<HandlerList>): Option<HandlerList> {
    match o
    case None => None
    case Some(h) => Some(HandlerList(done + h.starts, h.end))
  }

  lemma AheadStep(done: seq<nat>, p: nat, o: Option<HandlerList>)
    ensures Ahead(done, Ahead([p], o)) == Ahead(done + [p], o)
  {
    if o.Some? {
      assert done + ([p] + o.value.starts) == done + [p] + o.value.starts;
    }
  }

  lemma AheadOfFailure(done: seq<nat>)
    ensures Ahead(done, None) == None
  {
  }

  lemma CatchHandlersStep(m: seq<Byte>, l: Limits, p: nat, count: nat)
    requires Mapped(m, l.fileEnd) && p <= l.fileEnd && count > 0
    ensures CatchHandler(m, l, p).None? ==> CatchHandlers(m, l, p, count) == None
    ensures CatchHandler(m, l, p).Some? ==>
      var end := CatchHandler(m, l, p).value.end;
      end <= l.fileEnd && CatchHandlers(m, l, p, count) == Ahead([p], CatchHandlers(m, l, end, count - 1))
  {
    if CatchHandler(m, l, p).Some? {
      HandlerEnd(m, l, p);
    }
  }

  lemma AheadOfNothing(o: Option<HandlerList>)
    ensures Ahead([], o) == o
  {
    if o.Some? {
      assert [] + o.value.starts == o.value.starts;
    }
  }

  lemma HandlerEnd(m: seq<Byte>, l: Limits, p: nat)
    requires Mapped(m, l.fileEnd) && p <= l.fileEnd && CatchHandler(m, l, p).Some?
    ensures p < CatchHandler(m, l, p).value.end <= l.fileEnd
  {
    ClausesEnd(m, l, Leb128.After(m, p), Abs(Leb128.Signed(m, p)), Leb128.Signed(m, p) <= 0);
  }

  // ----- The verifier: try table and whole item -----

  /** handlerBase + handlerOff is the start of a parsed handler. */
  predicate TryOk(t: Try, base: nat, starts: seq<nat>, insnsSize: U4) {
    t.startAddr < insnsSize && base + t.handlerOff in starts && t.End() <= insnsSize
  }

  predicate TriesAccepted(ts: seq<Try>, base: nat, starts: seq<nat>, insnsSize: U4) {
    && (forall i | 0 <= i < |ts| :: TryOk(ts[i], base, starts, insnsSize))
    && (forall i | 0 < i < |ts| :: ts[i - 1].End() <= ts[i].startAddr)
  }

  function CodeLimits(m: seq<Byte>, fileEnd: nat, typeIdsSize: U4, c: nat): Limits
    requires CodeAt(m, c)
  {
    Limits(fileEnd, typeIdsSize, InsnsSize(m, c))
  }

  /** All that is checked about tries and handlers, and the end of the item. */
  function TriesAndCatches(m: seq<Byte>, l: Limits, c: nat): Option<nat>
    requires Mapped(m, l.fileEnd) && CodeAt(m, c) && InsnsEnd(m, c) <= l.fileEnd
  {
    var base := HandlersOff(m, c);
    if !Leb128.Valid(m, base, l.fileEnd) || !(0 < Leb128.Unsigned(m, base) < 65536) then None
    else
      match CatchHandlers(m, l, Leb128.After(m, base), Leb128.Unsigned(m, base))
      case None => None
      case Some(h) => if TriesAccepted(Tries(m, c), base, h.starts, l.insnsSize) then Some(h.end) else None
  }

  /** What swapCodeItem accepts, and the end of the item. */
  function CodeItem(m: seq<Byte>, fileEnd: nat, typeIdsSize: U4, c: nat): Option<nat>
    requires Mapped(m, fileEnd) && c % 4 == 0
  {
    if c + 20 > fileEnd then None
    else
      var registersSize, insSize, outsSize := Load2(m, c), Load2(m, c + 2), Load2(m, c + 4);
      var end := InsnsEnd(m, c);
      if insSize > registersSize || outsSize > (if registersSize < 5 then 5 else registersSize) || end > fileEnd then None
      else if TriesSize(m, c) == 0 then Some(end)
      else if end % 4 != 0 && Load2(m, end) != 0 then None
      else TriesAndCatches(m, CodeLimits(m, fileEnd, typeIdsSize, c), c)
  }

  /** An element of an array, by a loop. */
  method IndexOf(offs: array<nat>, off: nat) returns (i: nat)
    ensures i <= offs.Length && (i < offs.Length <==> off in offs[..])
  {
    i := 0;
    while i < offs.Length
      invariant i <= offs.Length && off !in offs[..i]
    {
      if off == offs[i] {
        break;
      }
      i := i + 1;
    }
  }

  lemma OffsetIsStart(base: nat, offs: seq<nat>, starts: seq<nat>, off: nat)
    requires AreOffsets(base, offs, starts)
    ensures off in offs <==> base + off in starts
  {
    if off in offs {
      var i :| 0 <= i < |offs| && offs[i] == off;
      assert starts[i] == base + off;
    }
    if base + off in starts {
      var i :| 0 <= i < |starts| && starts[i] == base + off;
      assert offs[i] == off;
    }
  }

  /** The loop over the try table in swapTriesAndCatches. */
  method SwapTries(m: seq<Byte>, p: nat, count: nat, insnsSize: U4, offs: array<nat>, ghost base: nat,
                   ghost starts: seq<nat>)
    returns (ok: bool)
    requires p + 8 * count <= |m| && insnsSize <= 0x8000_0000 && AreOffsets(base, offs[..], starts)
    ensures ok <==> TriesAccepted(TryList(m, p, count), base, starts, insnsSize)
  {
    ghost var ts := TryList(m, p, count);
    var lastEnd: int := 0;
    for i := 0 to count
      invariant i > 0 ==> lastEnd == ts[i - 1].End()
      invariant i == 0 ==> lastEnd == 0
      invariant forall k | 0 <= k < i :: TryOk(ts[k], base, starts, insnsSize)
      invariant forall k | 0 < k < i :: ts[k - 1].End() <= ts[k].startAddr
    {
      var t := TryAt(m, p + 8 * i);
      assert t == ts[i];
      if t.startAddr < lastEnd || t.startAddr >= insnsSize {
        return false;
      }
      var at := IndexOf(offs, t.handlerOff);
      OffsetIsStart(base, offs[..], starts, t.handlerOff);
      if at == offs.Length {
        return false;
      }
      lastEnd := (t.startAddr as int + t.insnCount) % 0x1_0000_0000;
      if lastEnd > insnsSize {
        return false;
      }
    }
    return true;
  }

  method SwapTriesAndCatches(m: seq<Byte>, l: Limits, c: nat) returns (end: Option<nat>)
    requires Mapped(m, l.fileEnd) && l.fileEnd < 0x1_0000_0000
    requires CodeAt(m, c) && InsnsEnd(m, c) <= l.fileEnd && l.insnsSize == InsnsSize(m, c)
    ensures end == TriesAndCatches(m, l, c)
  {
    hide CatchHandlers, Leb128.Unsigned, Leb128.Size;
    var base := HandlersOff(m, c);
    var okay := true;
    var size, next;
    size, next, okay := Leb128.ReadAndVerifyUnsignedLeb128(m, base, Some(l.fileEnd), okay);
    if !okay {
      return None;
    }
    if size == 0 || size >= 65536 {
      return None;
    }
    var offs := new nat[size];
    var endOffset := SetHandlerOffsAndVerify(m, l, base, next - base, offs);
    if endOffset == 0 {
      return None;
    }
    ghost var h := CatchHandlers(m, l, Leb128.After(m, base), size).value;
    // CHECK_LIST_SIZE: the handlers follow the try table, and they were in the file.
    assert TriesOff(m, c) + 8 * TriesSize(m, c) as int <= l.fileEnd;
    var ok := SwapTries(m, TriesOff(m, c), TriesSize(m, c), l.insnsSize, offs, base, h.starts);
    if !ok {
      return None;
    }
    return Some(base + endOffset);
  }

  method SwapCodeItem(m: seq<Byte>, fileEnd: nat, typeIdsSize: U4, c: nat) returns (end: Option<nat>)
    requires Mapped(m, fileEnd) && fileEnd < 0x1_0000_0000 && c % 4 == 0
    ensures end == CodeItem(m, fileEnd, typeIdsSize, c)
  {
    hide TriesAndCatches;
    if c + 20 > fileEnd {
      return None;
    }
    var registersSize, insSize, outsSize := Load2(m, c), Load2(m, c + 2), Load2(m, c + 4);
    if insSize > registersSize {
      return None;
    }
    if outsSize > 5 && outsSize > registersSize {
      return None;
    }
    var insnsEnd: nat := c + 16 + InsnsSize(m, c) * 2;
    if insnsEnd > fileEnd {
      return None;
    }
    if TriesSize(m, c) == 0 {
      return Some(insnsEnd);
    }
    if insnsEnd % 4 != 0 {
      if Load2(m, insnsEnd) != 0 {
        return None;
      }
    }
    end := SwapTriesAndCatches(m, CodeLimits(m, fileEnd, typeIdsSize, c), c);
  }

  // ----- The code that trusts an accepted item: lookup -----

  predicate InOrder(ts: seq<Try>) {
    forall i, j | 0 <= i < j < |ts| :: ts[i].End() <= ts[j].startAddr
  }

  lemma {:induction false} OrderOfTries(ts: seq<Try>, i: nat, j: nat)
    requires i < j < |ts|
    requires forall k | 0 < k < |ts| :: ts[k - 1].End() <= ts[k].startAddr
    ensures ts[i].End() <= ts[j].startAddr
    decreases j
  {
    if i < j - 1 {
      OrderOfTries(ts, i, j - 1);
    }
  }

  lemma AcceptedInOrder(ts: seq<Try>, base: nat, starts: seq<nat>, insnsSize: U4)
    requires TriesAccepted(ts, base, starts, insnsSize)
    ensures InOrder(ts)
  {
    forall i, j | 0 <= i < j < |ts| ensures ts[i].End() <= ts[j].startAddr {
      OrderOfTries(ts, i, j);
    }
  }

  /** The linear scan: the first try that covers the address, or -1. */
  function FirstCovering(ts: seq<Try>, address: U4): int {
    if ts == [] then -1
    else if ts[0].Covers(address) then ts[0].handlerOff
    else FirstCovering(ts[1..], address)
  }

  lemma {:induction false} NoneCovers(ts: seq<Try>, address: U4)
    requires forall i | 0 <= i < |ts| :: !ts[i].Covers(address)
    ensures FirstCovering(ts, address) == -1
  {
    if ts != [] {
      NoneCovers(ts[1..], address);
    }
  }

  /** Ranges that do not overlap: whichever covers the address is the first. */
  lemma {:induction false} OneCovers(ts: seq<Try>, address: U4, i: nat)
    requires InOrder(ts) && i < |ts| && ts[i].Covers(address)
    ensures FirstCovering(ts, address) == ts[i].handlerOff
  {
    if i > 0 {
      assert ts[0].End() <= ts[i].startAddr;
      OneCovers(ts[1..], address, i - 1);
    }
  }

  /** dexFindCatchHandlerOffset0. A try may have no instructions at all. */
  method FindCatchHandlerOffset0(m: seq<Byte>, triesSize: U2, pTries: nat, address: U4) returns (offset: int)
    requires pTries + 8 * triesSize <= |m|
    requires InOrder(TryList(m, pTries, triesSize)) && EndsFit(TryList(m, pTries, triesSize))
    ensures offset == FirstCovering(TryList(m, pTries, triesSize), address)
  {
    ghost var ts := TryList(m, pTries, triesSize);
    var min: int, max: int := 0, triesSize - 1;
    while max >= min
      invariant 0 <= min && max < triesSize && min <= max + 1
      invariant forall i | 0 <= i < min || max < i < triesSize :: !ts[i].Covers(address)
      decreases max - min
    {
      var guess := (min + max) / 2;
      var t := TryAt(m, pTries + 8 * guess);
      assert t == ts[guess];
      var start: int := t.startAddr;
      if address < start {
        max := guess - 1;
        continue;
      }
      var end := (start + t.insnCount) % 0x1_0000_0000;
      if address >= end {
        min := guess + 1;
        continue;
      }
      OneCovers(ts, address, guess);
      return t.handlerOff;
    }
    NoneCovers(ts, address);
    return -1;
  }

  /** What an accepted item with tries guarantees to its readers. */
  ghost predicate Trusted(m: seq<Byte>, l: Limits, c: nat, starts: seq<nat>, end: nat) {
    && Mapped(m, l.fileEnd) && CodeAt(m, c) && HandlersOff(m, c) <= l.fileEnd
    && var base := HandlersOff(m, c);
    && 0 < Leb128.Unsigned(m, base) && Leb128.After(m, base) <= l.fileEnd
    && CatchHandlers(m, l, Leb128.After(m, base), Leb128.Unsigned(m, base)) == Some(HandlerList(starts, end))
    && TriesAccepted(Tries(m, c), base, starts, l.insnsSize)
  }

  lemma AcceptedIsTrusted(m: seq<Byte>, fileEnd: nat, typeIdsSize: U4, c: nat) returns (starts: seq<nat>)
    requires Mapped(m, fileEnd) && c % 4 == 0
    requires CodeItem(m, fileEnd, typeIdsSize, c).Some? && TriesSize(m, c) > 0
    ensures Trusted(m, CodeLimits(m, fileEnd, typeIdsSize, c), c, starts, CodeItem(m, fileEnd, typeIdsSize, c).value)
    ensures InsnsSize(m, c) <= fileEnd
  {
    hide CatchHandlers, Leb128.Unsigned, Leb128.Size, TriesAccepted;
    var base := HandlersOff(m, c);
    var l := CodeLimits(m, fileEnd, typeIdsSize, c);
    starts := CatchHandlers(m, l, Leb128.After(m, base), Leb128.Unsigned(m, base)).value.starts;
  }

  ghost predicate EndsFit(ts: seq<Try>) {
    forall i | 0 <= i < |ts| :: ts[i].End() < 0x1_0000_0000
  }

  lemma AcceptedEndsFit(ts: seq<Try>, base: nat, starts: seq<nat>, insnsSize: U4)
    requires TriesAccepted(ts, base, starts, insnsSize)
    ensures EndsFit(ts)
  {
    forall i | 0 <= i < |ts| ensures ts[i].End() < 0x1_0000_0000 {
      assert TryOk(ts[i], base, starts, insnsSize);
    }
  }

  /** Every start the verifier kept is the start of a handler it parsed. */
  lemma {:induction false} StartsParse(m: seq<Byte>, l: Limits, p: nat, count: nat, start: nat)
    requires Mapped(m, l.fileEnd) && p <= l.fileEnd && CatchHandlers(m, l, p, count).Some?
    requires start in CatchHandlers(m, l, p, count).value.starts
    ensures start <= l.fileEnd && CatchHandler(m, l, start).Some?
    decreases count
  {
    CatchHandlersStep(m, l, p, count);
    if start != p {
      HandlerEnd(m, l, p);
      StartsParse(m, l, CatchHandler(m, l, p).value.end, count - 1, start);
    }
  }

  /** The handlers for an address, by the linear scan and the verifier's parser. */
  ghost function HandlersFor(m: seq<Byte>, l: Limits, c: nat, address: U4): Option<Parsed>
    requires Mapped(m, l.fileEnd) && CodeAt(m, c) && HandlersOff(m, c) <= |m|
  {
    var offset := FirstCovering(Tries(m, c), address);
    if offset < 0 || HandlersOff(m, c) + offset > l.fileEnd then None
    else CatchHandler(m, l, HandlersOff(m, c) + offset)
  }

  lemma {:induction false} CoveringIsStart(ts: seq<Try>, base: nat, starts: seq<nat>, insnsSize: U4, address: U4)
    requires TriesAccepted(ts, base, starts, insnsSize)
    ensures var offset := FirstCovering(ts, address); offset == -1 || (offset >= 0 && base + offset in starts)
  {
    if ts != [] {
      assert TryOk(ts[0], base, starts, insnsSize);
      if !ts[0].Covers(address) {
        assert TriesAccepted(ts[1..], base, starts, insnsSize);
        CoveringIsStart(ts[1..], base, starts, insnsSize, address);
      }
    }
  }

  lemma TrustedHandlers(m: seq<Byte>, l: Limits, c: nat, starts: seq<nat>, end: nat, address: U4)
    requires Trusted(m, l, c, starts, end)
    ensures InOrder(Tries(m, c)) && EndsFit(Tries(m, c))
    ensures var offset := FirstCovering(Tries(m, c), address);
      offset == -1 || (
        && offset >= 0 && HandlersOff(m, c) + offset <= l.fileEnd
        && HandlersFor(m, l, c, address) == CatchHandler(m, l, HandlersOff(m, c) + offset)
        && HandlersFor(m, l, c, address).Some?)
  {
    hide CatchHandlers, CatchHandler, Clauses, Leb128.Unsigned, Leb128.Size, TriesAccepted, FirstCovering, InOrder;
    hide EndsFit, Load2, Load4, TryList, HandlersOff, CodeAt;
    var base := HandlersOff(m, c);
    AcceptedInOrder(Tries(m, c), base, starts, l.insnsSize);
    AcceptedEndsFit(Tries(m, c), base, starts, l.insnsSize);
    CoveringIsStart(Tries(m, c), base, starts, l.insnsSize, address);
    var offset := FirstCovering(Tries(m, c), address);
    if offset != -1 {
      StartsParse(m, l, Leb128.After(m, base), Leb128.Unsigned(m, base), base + offset);
    }
  }

  /** Tries are in order and readable, and what covers an address leads to a parsed handler. */
  lemma AcceptedHandlers(m: seq<Byte>, fileEnd: nat, typeIdsSize: U4, c: nat, address: U4)
    requires Mapped(m, fileEnd) && c % 4 == 0 && CodeItem(m, fileEnd, typeIdsSize, c).Some?
    ensures HandlersOff(m, c) <= |m| && InOrder(Tries(m, c)) && EndsFit(Tries(m, c))
    ensures var l := CodeLimits(m, fileEnd, typeIdsSize, c);
      var offset := FirstCovering(Tries(m, c), address);
      offset == -1 || (
        && offset >= 0 && HandlersOff(m, c) + offset <= fileEnd
        && HandlersFor(m, l, c, address) == CatchHandler(m, l, HandlersOff(m, c) + offset)
        && HandlersFor(m, l, c, address).Some?)
  {
    if TriesSize(m, c) == 0 {
      hide TriesAndCatches, CatchHandler;
      assert Tries(m, c) == [];
    } else {
      var starts := AcceptedIsTrusted(m, fileEnd, typeIdsSize, c);
      var l, end := CodeLimits(m, fileEnd, typeIdsSize, c), CodeItem(m, fileEnd, typeIdsSize, c).value;
      hide TriesAndCatches, CatchHandlers, CatchHandler, HandlersFor, TriesAccepted, FirstCovering, InOrder, EndsFit;
      hide Leb128.Unsigned, Leb128.Size, CodeItem, Load2, Load4, TryList;
      TrustedHandlers(m, l, c, starts, end, address);
    }
  }

  /** The three cases of dexFindCatchHandler, up to the offset. */
  method FindOffset(m: seq<Byte>, c: nat, address: U4) returns (offset: int)
    requires CodeAt(m, c) && HandlersOff(m, c) <= |m| && InOrder(Tries(m, c)) && EndsFit(Tries(m, c))
    ensures offset == FirstCovering(Tries(m, c), address)
  {
    var triesSize := TriesSize(m, c);
    if triesSize == 0 {
      offset := -1;
    } else if triesSize == 1 {
      var t := TryAt(m, TriesOff(m, c));
      assert Tries(m, c)[0] == t && Tries(m, c)[1..] == [];
      assert FirstCovering([], address) == -1;
      offset := -1;
      if address >= t.startAddr {
        var end := (t.startAddr as int + t.insnCount) % 0x1_0000_0000;
        if address < end {
          offset := t.handlerOff;
        }
      }
    } else {
      offset := FindCatchHandlerOffset0(m, triesSize, TriesOff(m, c), address);
    }
  }

  /** dexFindCatchHandler: the iterator, or None where the original returns false. */
  method FindCatchHandler(m: seq<Byte>, c: nat, address: U4, ghost fileEnd: nat, ghost typeIdsSize: U4)
    returns (it: Option<CatchIterator>)
    requires Mapped(m, fileEnd) && c % 4 == 0 && CodeItem(m, fileEnd, typeIdsSize, c).Some?
    ensures HandlersOff(m, c) <= |m|
    ensures it == None <==> FirstCovering(Tries(m, c), address) == -1
    ensures it.Some? ==>
      var l := CodeLimits(m, fileEnd, typeIdsSize, c);
      && fresh(it.value) && it.value.m == m
      && it.value.Rest(l) == HandlersFor(m, l, c, address) && it.value.Rest(l).Some?
  {
    ghost var l := CodeLimits(m, fileEnd, typeIdsSize, c);
    AcceptedHandlers(m, fileEnd, typeIdsSize, c, address);
    hide CodeItem, TriesAndCatches, CatchHandlers, CatchHandler, Clauses, TriesAccepted, InOrder, FirstCovering, EndsFit;
    hide HandlersFor, Leb128.Unsigned, Leb128.Size, Leb128.Valid, Load2, Load4, TryList, HandlersOff, Mapped, Tries;
    var offset := FindOffset(m, c, address);
    if offset < 0 {
      return None;
    }
    var found := new CatchIterator(m, HandlersOff(m, c) + offset, l);
    return Some(found);
  }

  /** Looking an address up and draining the iterator gives exactly the handlers that the
      verifier parsed for the first try covering the address. */
  method HandlersAt(m: seq<Byte>, c: nat, address: U4, ghost fileEnd: nat, ghost typeIdsSize: U4)
    returns (handlers: seq<Handler>)
    requires Mapped(m, fileEnd) && c % 4 == 0 && CodeItem(m, fileEnd, typeIdsSize, c).Some?
    ensures HandlersOff(m, c) <= |m|
    ensures match HandlersFor(m, CodeLimits(m, fileEnd, typeIdsSize, c), c, address)
      case None => handlers == []
      case Some(h) => handlers == h.handlers
  {
    ghost var l := CodeLimits(m, fileEnd, typeIdsSize, c);
    hide CodeItem, TriesAndCatches, CatchHandlers, CatchHandler, Clauses, FirstCovering;
    hide Leb128.Unsigned, Leb128.Size, Leb128.Valid, Load2, Load4, TryList, HandlersOff, Mapped;
    var it := FindCatchHandler(m, c, address, fileEnd, typeIdsSize);
    if it.None? {
      return [];
    }
    handlers := Drain(it.value, l);
  }

  method Drain(it: CatchIterator, ghost l: Limits) returns (handlers: seq<Handler>)
    requires Mapped(it.m, l.fileEnd) && it.Rest(l).Some?
    modifies it
    ensures handlers == old(it.Rest(l).value.handlers)
  {
    hide Clauses, Mapped;
    ghost var all := it.Rest(l).value.handlers;
    handlers := [];
    var handler := it.Next(l);
    while handler.Some?
      invariant it.Rest(l).Some?
      invariant all == handlers + (if handler.Some? then [handler.value] else []) + it.Rest(l).value.handlers
      invariant handler.None? ==> it.Rest(l).value.handlers == []
      decreases it.countRemaining + (if it.catchesAll then 1 else 0), handler.Some?
    {
      handlers := handlers + [handler.value];
      ghost var rest := it.Rest(l).value.handlers;
      handler := it.Next(l);
      assert rest != [] ==> rest == [rest[0]] + rest[1..];
    }
  }

  // ----- The code that trusts an accepted item: its size -----

  method GetHandlersSize(m: seq<Byte>, c: nat) returns (size: U4)
    requires CodeAt(m, c) && HandlersOff(m, c) + 5 <= |m|
    ensures size == if TriesSize(m, c) == 0 then 0 else Leb128.Unsigned(m, HandlersOff(m, c))
  {
    if TriesSize(m, c) == 0 {
      return 0;
    }
    var next;
    size, next := Leb128.ReadUnsignedLeb128(m, HandlersOff(m, c));
  }

  method GetFirstHandlerOffset(m: seq<Byte>, c: nat) returns (offset: nat)
    requires CodeAt(m, c) && HandlersOff(m, c) + 5 <= |m|
    ensures HandlersOff(m, c) + offset == if TriesSize(m, c) == 0 then HandlersOff(m, c) else Leb128.After(m, HandlersOff(m, c))
  {
    if TriesSize(m, c) == 0 {
      return 0;
    }
    var size, next := Leb128.ReadUnsignedLeb128(m, HandlersOff(m, c));
    return next - HandlersOff(m, c);
  }

  /** The padding after an odd number of instructions. */
  lemma SizeWithoutTries(m: seq<Byte>, fileEnd: nat, typeIdsSize: U4, c: nat)
    requires Mapped(m, fileEnd) && c % 4 == 0 && CodeItem(m, fileEnd, typeIdsSize, c).Some? && TriesSize(m, c) == 0
    ensures var end := CodeItem(m, fileEnd, typeIdsSize, c).value;
      c <= HandlersOff(m, c) == if InsnsSize(m, c) % 2 == 0 then end else end + 2
  {
    hide TriesAndCatches, Load2, Load4;
    assert CodeItem(m, fileEnd, typeIdsSize, c).value == InsnsEnd(m, c);
    assert InsnsEnd(m, c) % 4 == if InsnsSize(m, c) % 2 == 0 then 0 else 2;
  }

  /** dexGetDexCodeSize is the length the verifier found, except that it counts the padding
      after an odd number of instructions even when no try table follows. */
  method GetDexCodeSize(m: seq<Byte>, c: nat, ghost fileEnd: nat, ghost typeIdsSize: U4) returns (size: nat)
    requires Mapped(m, fileEnd) && c % 4 == 0 && CodeItem(m, fileEnd, typeIdsSize, c).Some?
    ensures c + size == CodeItem(m, fileEnd, typeIdsSize, c).value <==> TriesSize(m, c) > 0 || InsnsSize(m, c) % 2 == 0
    ensures TriesSize(m, c) == 0 && InsnsSize(m, c) % 2 == 1 ==> c + size == CodeItem(m, fileEnd, typeIdsSize, c).value + 2
  {
    if TriesSize(m, c) == 0 {
      SizeWithoutTries(m, fileEnd, typeIdsSize, c);
      hide *;
      return HandlersOff(m, c) - c;
    }
    hide *;
    size := SizeWithTries(m, c, fileEnd, typeIdsSize);
  }

  /** Up to the end of the last handler. */
  method SizeWithTries(m: seq<Byte>, c: nat, ghost fileEnd: nat, ghost typeIdsSize: U4) returns (size: nat)
    requires Mapped(m, fileEnd) && c % 4 == 0 && CodeItem(m, fileEnd, typeIdsSize, c).Some? && TriesSize(m, c) > 0
    ensures c + size == CodeItem(m, fileEnd, typeIdsSize, c).value
  {
    ghost var l := CodeLimits(m, fileEnd, typeIdsSize, c);
    ghost var starts := AcceptedIsTrusted(m, fileEnd, typeIdsSize, c);
    var base := HandlersOff(m, c);
    assert c <= base;
    hide CodeItem, TriesAndCatches, CatchHandlers, CatchHandler, Clauses, TriesAccepted, HandlersOff, InsnsSize;
    hide Leb128.Unsigned, Leb128.Size, Leb128.Valid, Load2, Load4, TryList, Tries, TriesSize;
    var handlersSize := GetHandlersSize(m, c);
    var offset := GetFirstHandlerOffset(m, c);
    offset := SumOfHandlers(m, l, base, offset, handlersSize);
    return base - c + offset;
  }

  /** The loop of dexGetDexCodeSize. */
  method SumOfHandlers(m: seq<Byte>, ghost l: Limits, base: nat, firstOffset: nat, handlersSize: U4)
    returns (offset: nat)
    requires Mapped(m, l.fileEnd) && base + firstOffset <= l.fileEnd
    requires CatchHandlers(m, l, base + firstOffset, handlersSize).Some?
    ensures base + offset == CatchHandlers(m, l, base + firstOffset, handlersSize).value.end
  {
    hide CatchHandlers, CatchHandler, Clauses, Mapped;
    offset := firstOffset;
    ghost var end := CatchHandlers(m, l, base + firstOffset, handlersSize).value.end;
    for ui := 0 to handlersSize
      invariant base + offset <= l.fileEnd && CatchHandlers(m, l, base + offset, handlersSize - ui).Some?
      invariant CatchHandlers(m, l, base + offset, handlersSize - ui).value.end == end
    {
      CatchHandlersStep(m, l, base + offset, handlersSize - ui);
      HandlerEnd(m, l, base + offset);
      var it := new CatchIterator(m, base + offset, l);
      var at := it.GetEnd(l);
      offset := at - base;
    }
    AheadOfEnd(m, l, [], base + offset);
  }
}
