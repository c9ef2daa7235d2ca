/** Code items as they are written, and what the verifier and the readers of DexCatch make of them. */
module DexCatchWrite {
  import opened Memory
  import opened DexCatch
  import Leb128

  // ----- One list of handlers -----

  /** Typed clauses and the address of a catch-all, if there is one. */
  datatype HandlerSpec = HandlerSpec(clauses: seq<Handler>, catchAll: Option<U4>) {
    /** What a reader is to see: the typed clauses in order, then the catch-all. */
    function Handlers(): seq<Handler> {
      clauses + match catchAll case None => [] case Some(address) => [Handler(NO_INDEX, address)]
    }

    /** The number of typed clauses, negated or zero with a catch-all. */
    function Count(): int {
      if catchAll.Some? then -|clauses| else |clauses|
    }

    predicate InRange(l: Limits) {
      && |clauses| <= 65536 && (catchAll.None? ==> clauses != []) && ClausesInRange(l, clauses)
      && (catchAll.Some? ==> catchAll.value < l.insnsSize)
    }

    function Bytes(): seq<Byte> {
      Leb128.EncodeSigned(Count()) + ClauseBytes(clauses, catchAll)
    }
  }

  predicate ClausesInRange(l: Limits, cs: seq<Handler>) {
    forall i | 0 <= i < |cs| :: cs[i].typeIdx < l.typeIdsSize && cs[i].address < l.insnsSize
  }

  /** Pairs of a type and an address, then the address of the catch-all. */
  function ClauseBytes(cs: seq<Handler>, catchAll: Option<U4>): seq<Byte> {
    if cs != [] then Leb128.Encode(cs[0].typeIdx) + (Leb128.Encode(cs[0].address) + ClauseBytes(cs[1..], catchAll))
    else match catchAll case None => [] case Some(address) => Leb128.Encode(address)
  }

  /** A written number below a bound is read back. */
  lemma NumberRead(m: seq<Byte>, l: Limits, p: nat, v: U4, bound: U4)
    requires Mapped(m, l.fileEnd) && StandsAt(m, p, Leb128.Encode(v)) && p + |Leb128.Encode(v)| <= l.fileEnd && v < bound
    ensures Checked(m, l, p, bound) && Leb128.Unsigned(m, p) == v && Leb128.After(m, p) == p + |Leb128.Encode(v)|
  {
    Leb128.RoundTrip(v, m, p, l.fileEnd);
  }

  lemma {:induction false} ClausesRead(m: seq<Byte>, l: Limits, p: nat, cs: seq<Handler>, catchAll: Option<U4>)
    requires Mapped(m, l.fileEnd) && StandsAt(m, p, ClauseBytes(cs, catchAll))
    requires p + |ClauseBytes(cs, catchAll)| <= l.fileEnd && ClausesInRange(l, cs)
    requires catchAll.Some? ==> catchAll.value < l.insnsSize
    ensures Clauses(m, l, p, |cs|, catchAll.Some?)
      == Some(Parsed(HandlerSpec(cs, catchAll).Handlers(), p + |ClauseBytes(cs, catchAll)|))
    decreases |cs|
  {
    hide Leb128.Encode, Leb128.Unsigned, Leb128.Size, Leb128.Valid, StandsAt, Checked;
    if cs == [] {
      OnlyCatchAll(catchAll);
      if catchAll.Some? {
        NumberRead(m, l, p, catchAll.value, l.insnsSize);
      }
    } else {
      var a, b, rest := Leb128.Encode(cs[0].typeIdx), Leb128.Encode(cs[0].address), ClauseBytes(cs[1..], catchAll);
      StandsInParts(m, p, a, b + rest);
      StandsInParts(m, p + |a|, b, rest);
      NumberRead(m, l, p, cs[0].typeIdx, l.typeIdsSize);
      NumberRead(m, l, p + |a|, cs[0].address, l.insnsSize);
      ClausesRead(m, l, p + |a| + |b|, cs[1..], catchAll);
      hide ClausesInRange;
      FirstClause(cs, catchAll);
    }
  }

  lemma OnlyCatchAll(catchAll: Option<U4>)
    ensures HandlerSpec([], catchAll).Handlers()
      == match catchAll case None => [] case Some(address) => [Handler(NO_INDEX, address)]
  {
  }

  lemma FirstClause(cs: seq<Handler>, catchAll: Option<U4>)
    requires cs != []
    ensures HandlerSpec(cs, catchAll).Handlers() == [cs[0]] + HandlerSpec(cs[1..], catchAll).Handlers()
  {
    assert cs == [cs[0]] + cs[1..];
  }

  /** Wherever a list of handlers in range is written, the verifier parses exactly it, with the
      catch-all last, up to the byte behind it. */
  lemma HandlerRead(m: seq<Byte>, l: Limits, p: nat, w: HandlerSpec)
    requires Mapped(m, l.fileEnd) && StandsAt(m, p, w.Bytes()) && p + |w.Bytes()| <= l.fileEnd && w.InRange(l)
    ensures CatchHandler(m, l, p) == Some(Parsed(w.Handlers(), p + |w.Bytes()|))
  {
    hide Leb128.EncodeSigned, Leb128.Signed, Leb128.Size, Leb128.Valid, ClauseBytes, StandsAt, ClausesInRange;
    hide Clauses, HandlerSpec.Handlers;
    var count, rest := Leb128.EncodeSigned(w.Count()), ClauseBytes(w.clauses, w.catchAll);
    StandsInParts(m, p, count, rest);
    CountRead(m, l, p, w.Count());
    ClausesRead(m, l, p + |count|, w.clauses, w.catchAll);
    assert w == HandlerSpec(w.clauses, w.catchAll);
  }

  lemma CountRead(m: seq<Byte>, l: Limits, p: nat, v: int)
    requires Mapped(m, l.fileEnd) && -65536 <= v <= 65536
    requires StandsAt(m, p, Leb128.EncodeSigned(v)) && p + |Leb128.EncodeSigned(v)| <= l.fileEnd
    ensures Leb128.Valid(m, p, l.fileEnd) && Leb128.Signed(m, p) == v
    ensures Leb128.After(m, p) == p + |Leb128.EncodeSigned(v)|
  {
    Leb128.SignedRoundTrip(v, m, p, l.fileEnd);
  }

  // ----- All lists of an item -----

  function ListsBytes(ws: seq<HandlerSpec>): seq<Byte> {
    if ws == [] then [] else ws[0].Bytes() + ListsBytes(ws[1..])
  }

  /** Where list k starts, behind the bytes of the lists before it. */
  function StartOf(p: nat, ws: seq<HandlerSpec>, k: nat): nat
    requires k <= |ws|
  {
    p + |ListsBytes(ws[..k])|
  }

  function Starts(p: nat, ws: seq<HandlerSpec>): seq<nat> {
    seq(|ws|, k requires 0 <= k < |ws| => StartOf(p, ws, k))
  }

  lemma StartOfStep(p: nat, ws: seq<HandlerSpec>, k: nat)
    requires 0 < k <= |ws|
    ensures StartOf(p, ws, k) == StartOf(p + |ws[0].Bytes()|, ws[1..], k - 1)
    ensures ListsBytes(ws) == ws[0].Bytes() + ListsBytes(ws[1..])
  {
    hide HandlerSpec.Bytes;
    assert ws[..k][1..] == ws[1..][..k - 1] && ws[..k][0] == ws[0];
  }

  lemma StartsStep(p: nat, ws: seq<HandlerSpec>)
    requires ws != []
    ensures Starts(p, ws) == [p] + Starts(p + |ws[0].Bytes()|, ws[1..])
    ensures ListsBytes(ws) == ws[0].Bytes() + ListsBytes(ws[1..])
  {
    assert StartOf(p, ws, 0) == p by {
      assert ws[..0] == [];
    }
    hide HandlerSpec.Bytes, StartOf;
    forall k | 0 < k < |ws| ensures StartOf(p, ws, k) == StartOf(p + |ws[0].Bytes()|, ws[1..], k - 1) {
      StartOfStep(p, ws, k);
    }
  }

  predicate AllInRange(l: Limits, ws: seq<HandlerSpec>) {
    forall k | 0 <= k < |ws| :: ws[k].InRange(l)
  }

  /** Lists written one after the other are parsed one after the other. */
  lemma {:induction false} ListsRead(m: seq<Byte>, l: Limits, p: nat, ws: seq<HandlerSpec>)
    requires Mapped(m, l.fileEnd) && StandsAt(m, p, ListsBytes(ws)) && p + |ListsBytes(ws)| <= l.fileEnd
    requires AllInRange(l, ws)
    ensures CatchHandlers(m, l, p, |ws|) == Some(HandlerList(Starts(p, ws), p + |ListsBytes(ws)|))
    decreases |ws|
  {
    hide HandlerSpec.Bytes, HandlerSpec.Handlers, HandlerSpec.InRange, StandsAt, CatchHandler;
    if ws == [] {
      assert Starts(p, ws) == [];
    } else {
      var first, rest := ws[0].Bytes(), ws[1..];
      StartsStep(p, ws);
      StandsInParts(m, p, first, ListsBytes(rest));
      HandlerRead(m, l, p, ws[0]);
      CatchHandlersStep(m, l, p, |ws|);
      hide ListsBytes, CatchHandlers, Starts;
      ListsRead(m, l, p + |first|, rest);
    }
  }

  /** And each can be found where it starts. */
  lemma {:induction false} ListRead(m: seq<Byte>, l: Limits, p: nat, ws: seq<HandlerSpec>, k: nat)
    requires Mapped(m, l.fileEnd) && StandsAt(m, p, ListsBytes(ws)) && p + |ListsBytes(ws)| <= l.fileEnd
    requires AllInRange(l, ws) && k < |ws|
    ensures StartOf(p, ws, k) <= l.fileEnd && CatchHandler(m, l, StartOf(p, ws, k)).Some?
    ensures CatchHandler(m, l, StartOf(p, ws, k)).value.handlers == ws[k].Handlers()
    decreases |ws|
  {
    hide HandlerSpec.Bytes, HandlerSpec.Handlers, HandlerSpec.InRange, StandsAt, CatchHandler;
    var first, rest := ws[0].Bytes(), ws[1..];
    StartsStep(p, ws);
    StandsInParts(m, p, first, ListsBytes(rest));
    if k == 0 {
      assert ws[..0] == [];
      HandlerRead(m, l, p, ws[0]);
    } else {
      StartOfStep(p, ws, k);
      hide ListsBytes, Starts, StartOf;
      ListRead(m, l, p + |first|, rest, k - 1);
    }
  }

  // ----- A whole code item -----

  /** handler is the number of a list of handlers. */
  datatype TrySpec = TrySpec(startAddr: U4, insnCount: U2, handler: nat)

  datatype CodeSpec = CodeSpec(registersSize: U2, insSize: U2, outsSize: U2, debugInfoOff: U4, insns: seq<U2>,
                               tries: seq<TrySpec>, handlers: seq<HandlerSpec>)
  {
    /** Where list k starts, counted from the number of lists. */
    function HandlerOff(k: nat): nat
      requires k <= |handlers|
    {
      StartOf(|Leb128.Encode(|handlers|)|, handlers, k)
    }

    predicate Fits() {
      && |insns| < 0x1_0000_0000 && |tries| < 0x1_0000 && |handlers| < 0x1_0000
      && forall i | 0 <= i < |tries| :: tries[i].handler < |handlers| && HandlerOff(tries[i].handler) < 0x1_0000
    }

    /** What the format asks of the numbers. */
    predicate Legal(l: Limits) {
      && insSize <= registersSize && (outsSize <= registersSize || outsSize <= 5)
      && (tries == [] ==> handlers == []) && l.insnsSize == |insns| && AllInRange(l, handlers)
      && (forall i | 0 <= i < |tries| :: tries[i].startAddr < |insns| && tries[i].startAddr as int + tries[i].insnCount <= |insns|)
      && (forall i | 0 < i < |tries| :: tries[i - 1].startAddr as int + tries[i - 1].insnCount <= tries[i].startAddr)
    }

    function TryBytes(i: nat): seq<Byte>
      requires Fits() && i < |tries|
    {
      Bytes4(tries[i].startAddr) + (Bytes2(tries[i].insnCount) + Bytes2(HandlerOff(tries[i].handler)))
    }

    function TriesBytes(i: nat): seq<Byte>
      requires Fits() && i <= |tries|
      decreases |tries| - i
    {
      if i == |tries| then [] else TryBytes(i) + TriesBytes(i + 1)
    }

    function Front(): seq<Byte>
      requires Fits()
    {
      Bytes2(registersSize) + (Bytes2(insSize) + (Bytes2(outsSize) + (Bytes2(|tries|) + (Bytes4(debugInfoOff) +
      Bytes4(|insns|)))))
    }

    /** Padding after an odd number of instruction units, then tries and handlers. */
    function Back(): seq<Byte>
      requires Fits()
    {
      if tries == [] then []
      else
        (if |insns| % 2 == 1 then Bytes2(0) else []) +
        (TriesBytes(0) + (Leb128.Encode(|handlers|) + ListsBytes(handlers)))
    }

    function Bytes(): seq<Byte>
      requires Fits()
    {
      Front() + (InsnBytes(insns) + Back())
    }
  }

  function InsnBytes(insns: seq<U2>): (bytes: seq<Byte>)
    ensures |bytes| == 2 * |insns|
  {
    if insns == [] then [] else Bytes2(insns[0]) + InsnBytes(insns[1..])
  }

  // ----- Reading it back -----

  /** What a try is to be for a reader. */
  function TryOf(w: CodeSpec, i: nat): Try
    requires w.Fits() && i < |w.tries|
  {
    Try(w.tries[i].startAddr, w.tries[i].insnCount, w.HandlerOff(w.tries[i].handler))
  }

  lemma FrontRead(m: seq<Byte>, c: nat, w: CodeSpec)
    requires w.Fits() && c % 4 == 0 && c + 20 <= |m| && StandsAt(m, c, w.Front())
    ensures Load2(m, c) == w.registersSize && Load2(m, c + 2) == w.insSize && Load2(m, c + 4) == w.outsSize
    ensures TriesSize(m, c) == |w.tries| && InsnsSize(m, c) == |w.insns|
  {
    hide StandsAt, Load2, Load4, Bytes2, Bytes4;
    var e := Bytes4(w.debugInfoOff) + Bytes4(|w.insns|);
    var d := Bytes2(|w.tries|) + e;
    var b := Bytes2(w.outsSize) + d;
    var a := Bytes2(w.insSize) + b;
    assert w.Front() == Bytes2(w.registersSize) + a;
    StandsInParts(m, c, Bytes2(w.registersSize), a);
    StandsInParts(m, c + 2, Bytes2(w.insSize), b);
    StandsInParts(m, c + 4, Bytes2(w.outsSize), d);
    StandsInParts(m, c + 6, Bytes2(|w.tries|), e);
    StandsInParts(m, c + 8, Bytes4(w.debugInfoOff), Bytes4(|w.insns|));
    Load2Written(m, c, w.registersSize);
    Load2Written(m, c + 2, w.insSize);
    Load2Written(m, c + 4, w.outsSize);
    Load2Written(m, c + 6, |w.tries|);
    Load4Written(m, c + 12, |w.insns|);
  }

  /** A try has four, two and two bytes. */
  lemma TryRead(m: seq<Byte>, p: nat, w: CodeSpec, i: nat)
    requires w.Fits() && i < |w.tries| && p + 8 <= |m| && StandsAt(m, p, w.TryBytes(i))
    ensures TryAt(m, p) == TryOf(w, i)
  {
    hide StandsAt, Load2, Load4, Bytes2, Bytes4, CodeSpec.HandlerOff;
    var t := w.tries[i];
    var off := w.HandlerOff(t.handler);
    StandsInParts(m, p, Bytes4(t.startAddr), Bytes2(t.insnCount) + Bytes2(off));
    StandsInParts(m, p + 4, Bytes2(t.insnCount), Bytes2(off));
    Load4Written(m, p, t.startAddr);
    Load2Written(m, p + 4, t.insnCount);
    Load2Written(m, p + 6, off);
  }

  lemma {:induction false} TriesLength(w: CodeSpec, i: nat)
    requires w.Fits() && i <= |w.tries|
    ensures |w.TriesBytes(i)| == 8 * (|w.tries| - i)
    decreases |w.tries| - i
  {
    if i < |w.tries| {
      TriesLength(w, i + 1);
      hide CodeSpec.HandlerOff, Bytes2, Bytes4;
    }
  }

  lemma {:induction false} TriesRead(m: seq<Byte>, p: nat, w: CodeSpec, i: nat, k: nat)
    requires w.Fits() && i <= k < |w.tries| && StandsAt(m, p + 8 * i, w.TriesBytes(i)) && p + 8 * |w.tries| <= |m|
    ensures TryAt(m, p + 8 * k) == TryOf(w, k)
    decreases k - i
  {
    assert |w.TryBytes(i)| == 8;
    hide StandsAt, CodeSpec.HandlerOff, CodeSpec.TryBytes, TryAt, TryOf, CodeSpec.Fits;
    StandsInParts(m, p + 8 * i, w.TryBytes(i), w.TriesBytes(i + 1));
    if i == k {
      TryRead(m, p + 8 * i, w, i);
    } else {
      TriesRead(m, p, w, i + 1, k);
    }
  }

  /** The number of lists, and the lists. */
  function Last(w: CodeSpec): seq<Byte> {
    Leb128.Encode(|w.handlers|) + ListsBytes(w.handlers)
  }

  lemma FrontAndBack(m: seq<Byte>, c: nat, w: CodeSpec)
    requires w.Fits() && StandsAt(m, c, w.Bytes())
    ensures StandsAt(m, c, w.Front()) && StandsAt(m, c + 16 + 2 * |w.insns|, w.Back())
    ensures c + |w.Bytes()| == c + 16 + 2 * |w.insns| + |w.Back()|
  {
    var front := FrontLength(w);
    var back := w.Back();
    hide CodeSpec.Bytes, CodeSpec.Front, CodeSpec.Back, StandsAt, CodeSpec.Fits, InsnBytes;
    StandsInParts(m, c, front, InsnBytes(w.insns) + back);
    StandsInParts(m, c + 16, InsnBytes(w.insns), back);
  }

  lemma FrontLength(w: CodeSpec) returns (front: seq<Byte>)
    requires w.Fits()
    ensures front == w.Front() && |front| == 16 && w.Bytes() == front + (InsnBytes(w.insns) + w.Back())
  {
    hide Bytes2, Bytes4, CodeSpec.Back, InsnBytes;
    front := w.Front();
  }

  /** Padding, tries, and the lists of handlers. */
  lemma BackRead(m: seq<Byte>, end: nat, w: CodeSpec)
    requires w.Fits() && StandsAt(m, end, w.Back()) && w.tries != []
    ensures var pad := |w.insns| % 2;
      var base := end + 2 * pad + 8 * |w.tries|;
      && (pad == 1 ==> end + 2 <= |m| && Load2(m, end) == 0)
      && StandsAt(m, end + 2 * pad, w.TriesBytes(0)) && StandsAt(m, base, Last(w))
      && end + |w.Back()| == base + |Last(w)|
  {
    var pad := BackParts(w);
    hide CodeSpec.Back, CodeSpec.TriesBytes, StandsAt, Load2, Last, CodeSpec.Fits, Bytes2;
    StandsInParts(m, end, pad, w.TriesBytes(0) + Last(w));
    StandsInParts(m, end + |pad|, w.TriesBytes(0), Last(w));
    if |w.insns| % 2 == 1 {
      StandsLength(m, end, pad);
      Load2Written(m, end, 0);
    }
  }

  lemma BackParts(w: CodeSpec) returns (pad: seq<Byte>)
    requires w.Fits() && w.tries != []
    ensures w.Back() == pad + (w.TriesBytes(0) + Last(w)) && |w.TriesBytes(0)| == 8 * |w.tries|
    ensures |pad| == 2 * (|w.insns| % 2) && (|w.insns| % 2 == 1 ==> pad == Bytes2(0))
  {
    hide Bytes2;
    TriesLength(w, 0);
    pad := if |w.insns| % 2 == 1 then Bytes2(0) else [];
    hide CodeSpec.TriesBytes, Last;
    assert w.Back() == pad + (w.TriesBytes(0) + Last(w));
  }

  lemma StandsLength(m: seq<Byte>, p: nat, bytes: seq<Byte>)
    requires StandsAt(m, p, bytes)
    ensures p + |bytes| <= |m|
  {
  }

  ghost predicate WrittenAt(m: seq<Byte>, fileEnd: nat, typeIdsSize: U4, c: nat, w: CodeSpec) {
    && Mapped(m, fileEnd) && c % 4 == 0 && c + 20 <= fileEnd && w.Fits()
    && StandsAt(m, c, w.Bytes()) && c + |w.Bytes()| <= fileEnd
    && w.Legal(Limits(fileEnd, typeIdsSize, |w.insns|))
  }

  lemma EndOfInsns(c: nat, n: nat)
    requires c % 4 == 0
    ensures (c + 16 + 2 * n) % 4 == 2 * (n % 2)
  {
    var q, k := c / 4, n / 2;
    assert c + 16 + 2 * n == 4 * (q + 4 + k) + 2 * (n % 2);
  }

  /** The places in a written item, as the readers compute them. */
  lemma Places(m: seq<Byte>, c: nat, w: CodeSpec)
    requires c % 4 == 0 && c + 20 <= |m| && w.Fits() && StandsAt(m, c, w.Bytes())
    ensures TriesSize(m, c) == |w.tries| && InsnsSize(m, c) == |w.insns|
    ensures InsnsEnd(m, c) == c + 16 + 2 * |w.insns|
    ensures TriesOff(m, c) == InsnsEnd(m, c) + 2 * (|w.insns| % 2)
    ensures HandlersOff(m, c) == TriesOff(m, c) + 8 * |w.tries|
    ensures StandsAt(m, InsnsEnd(m, c), w.Back()) && InsnsEnd(m, c) + |w.Back()| == c + |w.Bytes()|
  {
    hide CodeSpec.Front, CodeSpec.Back, CodeSpec.Fits, CodeSpec.Bytes, StandsAt, TriesSize, InsnsSize, Load2, Load4;
    FrontAndBack(m, c, w);
    FrontRead(m, c, w);
    EndOfInsns(c, |w.insns|);
  }

  lemma NumberOfLists(m: seq<Byte>, l: Limits, base: nat, w: CodeSpec)
    requires Mapped(m, l.fileEnd) && StandsAt(m, base, Last(w)) && base + |Last(w)| <= l.fileEnd && |w.handlers| < 0x1_0000
    ensures Leb128.Valid(m, base, l.fileEnd) && Leb128.Unsigned(m, base) == |w.handlers|
    ensures Leb128.After(m, base) == base + |Leb128.Encode(|w.handlers|)|
    ensures StandsAt(m, Leb128.After(m, base), ListsBytes(w.handlers))
    ensures base + |Last(w)| == Leb128.After(m, base) + |ListsBytes(w.handlers)|
  {
    var n := |w.handlers|;
    hide StandsAt, Leb128.Encode, ListsBytes, Leb128.Valid, Leb128.Unsigned, Leb128.Size;
    StandsInParts(m, base, Leb128.Encode(n), ListsBytes(w.handlers));
    NumberRead(m, l, base, n, 0x1_0000);
  }

  lemma StartFrom(p: nat, q: nat, ws: seq<HandlerSpec>, k: nat)
    requires k <= |ws|
    ensures StartOf(p + q, ws, k) == p + StartOf(q, ws, k)
  {
  }

  /** The tries that the readers see. */
  lemma TriesSeen(m: seq<Byte>, c: nat, w: CodeSpec)
    requires c % 4 == 0 && c + 20 <= |m| && w.Fits() && StandsAt(m, c, w.Bytes())
    ensures HandlersOff(m, c) <= |m| || w.tries == []
    ensures w.tries != [] ==>
      |Tries(m, c)| == |w.tries| && forall i | 0 <= i < |w.tries| :: Tries(m, c)[i] == TryOf(w, i)
  {
    hide CodeSpec.Back, CodeSpec.Fits, CodeSpec.Bytes, StandsAt, TriesSize, InsnsSize, InsnsEnd, TriesOff, TryAt, TryOf;
    hide HandlersOff, Load2, CodeSpec.TriesBytes, Last;
    Places(m, c, w);
    if w.tries != [] {
      BackRead(m, InsnsEnd(m, c), w);
      StandsLength(m, HandlersOff(m, c), Last(w));
      forall i | 0 <= i < |w.tries| ensures Tries(m, c)[i] == TryOf(w, i) {
        TriesRead(m, TriesOff(m, c), w, 0, i);
      }
    }
  }

  /** At base stand the number of lists and the lists, up to end. */
  ghost predicate LastSeen(m: seq<Byte>, l: Limits, base: nat, w: CodeSpec, end: nat) {
    && Mapped(m, l.fileEnd) && base <= l.fileEnd && Leb128.Valid(m, base, l.fileEnd)
    && Leb128.Unsigned(m, base) == |w.handlers|
    && CatchHandlers(m, l, Leb128.After(m, base), |w.handlers|)
       == Some(HandlerList(Starts(Leb128.After(m, base), w.handlers), end))
    && Leb128.After(m, base) == base + |Leb128.Encode(|w.handlers|)|
  }

  /** At its offset stands list k. */
  ghost predicate ListSeen(m: seq<Byte>, l: Limits, base: nat, w: CodeSpec, k: nat)
    requires k < |w.handlers|
  {
    var p := base + w.HandlerOff(k);
    && Mapped(m, l.fileEnd) && p <= l.fileEnd && p == StartOf(base + |Leb128.Encode(|w.handlers|)|, w.handlers, k)
    && CatchHandler(m, l, p).Some? && CatchHandler(m, l, p).value.handlers == w.handlers[k].Handlers()
  }

  /** The lists, in full and one by one. */
  lemma ListsSeen(m: seq<Byte>, l: Limits, base: nat, w: CodeSpec)
    requires Mapped(m, l.fileEnd) && StandsAt(m, base, Last(w)) && base + |Last(w)| <= l.fileEnd
    requires |w.handlers| < 0x1_0000 && AllInRange(l, w.handlers)
    ensures LastSeen(m, l, base, w, base + |Last(w)|)
    ensures forall k | 0 <= k < |w.handlers| :: ListSeen(m, l, base, w, k)
  {
    hide StandsAt, Last, Leb128.Valid, Leb128.Unsigned, Leb128.Size, AllInRange;
    hide CatchHandlers, Starts, CatchHandler, StartOf, Leb128.Encode, ListsBytes, HandlerSpec.Handlers;
    NumberOfLists(m, l, base, w);
    var first := Leb128.After(m, base);
    ListsRead(m, l, first, w.handlers);
    forall k | 0 <= k < |w.handlers| ensures ListSeen(m, l, base, w, k) {
      ListRead(m, l, first, w.handlers, k);
      StartFrom(base, |Leb128.Encode(|w.handlers|)|, w.handlers, k);
    }
  }

  /** What the readers find in a written item that has tries. */
  ghost predicate Seen(m: seq<Byte>, l: Limits, c: nat, w: CodeSpec, end: nat)
    requires CodeAt(m, c)
  {
    && HandlersOff(m, c) <= |m| && TriesAreSeen(Tries(m, c), w)
    && LastSeen(m, l, HandlersOff(m, c), w, end)
    && forall k | 0 <= k < |w.handlers| :: ListSeen(m, l, HandlersOff(m, c), w, k)
  }

  ghost predicate TriesAreSeen(ts: seq<Try>, w: CodeSpec) {
    w.Fits() && |ts| == |w.tries| && forall i | 0 <= i < |ts| :: ts[i] == TryOf(w, i)
  }

  lemma WhereListsStand(m: seq<Byte>, c: nat, w: CodeSpec)
    requires c % 4 == 0 && c + 20 <= |m| && w.Fits() && StandsAt(m, c, w.Bytes()) && w.tries != []
    ensures StandsAt(m, HandlersOff(m, c), Last(w)) && HandlersOff(m, c) + |Last(w)| == c + |w.Bytes()| <= |m|
    ensures HandlersOff(m, c) <= |m| && TriesAreSeen(Tries(m, c), w)
  {
    hide CodeSpec.Back, CodeSpec.Fits, CodeSpec.Bytes, StandsAt, TriesSize, InsnsSize, InsnsEnd, TriesOff, TryOf;
    hide HandlersOff, Load2, Load4, CodeSpec.TriesBytes, Last, Tries, TryAt;
    Places(m, c, w);
    BackRead(m, InsnsEnd(m, c), w);
    StandsLength(m, HandlersOff(m, c), Last(w));
    TriesSeen(m, c, w);
  }

  lemma FewLists(w: CodeSpec)
    requires w.Fits()
    ensures |w.handlers| < 0x1_0000
  {
  }

  lemma ItemSeen(m: seq<Byte>, l: Limits, c: nat, w: CodeSpec)
    requires Mapped(m, l.fileEnd) && c % 4 == 0 && c + 20 <= |m| && w.Fits() && StandsAt(m, c, w.Bytes())
    requires c + |w.Bytes()| <= l.fileEnd && AllInRange(l, w.handlers) && w.tries != []
    ensures Seen(m, l, c, w, c + |w.Bytes()|)
  {
    hide CodeSpec.Fits, CodeSpec.Bytes, StandsAt, HandlersOff, Last, AllInRange, LastSeen, ListSeen, TriesAreSeen, Tries;
    FewLists(w);
    WhereListsStand(m, c, w);
    ListsSeen(m, l, HandlersOff(m, c), w);
  }

  /** The tries of a legal item are in order and point at lists. */
  lemma TriesAreAccepted(m: seq<Byte>, l: Limits, base: nat, w: CodeSpec, ts: seq<Try>)
    requires w.Legal(l) && TriesAreSeen(ts, w) && forall k | 0 <= k < |w.handlers| :: ListSeen(m, l, base, w, k)
    ensures TriesAccepted(ts, base, Starts(base + |Leb128.Encode(|w.handlers|)|, w.handlers), l.insnsSize)
  {
    hide Leb128.Encode, StartOf, CatchHandler, AllInRange, HandlerSpec.Handlers, CodeSpec.HandlerOff, Mapped;
    var starts := Starts(base + |Leb128.Encode(|w.handlers|)|, w.handlers);
    forall i | 0 <= i < |ts| ensures TryOk(ts[i], base, starts, l.insnsSize) {
      assert ts[i] == TryOf(w, i);
      var k := w.tries[i].handler;
      assert ListSeen(m, l, base, w, k);
      assert starts[k] == base + w.HandlerOff(k);
    }
    forall i | 0 < i < |ts| ensures ts[i - 1].End() <= ts[i].startAddr {
      assert ts[i] == TryOf(w, i) && ts[i - 1] == TryOf(w, i - 1);
    }
  }

  lemma TriesAndCatchesRead(m: seq<Byte>, l: Limits, c: nat, w: CodeSpec, end: nat)
    requires Mapped(m, l.fileEnd) && CodeAt(m, c) && InsnsEnd(m, c) <= l.fileEnd
    requires Seen(m, l, c, w, end) && w.Legal(l) && 0 < |w.handlers| < 0x1_0000
    ensures TriesAndCatches(m, l, c) == Some(end)
  {
    hide CodeSpec.Legal, HandlersOff, LastSeen, ListSeen, TriesAreSeen, Tries, Leb128.Valid, Leb128.Unsigned, CatchHandlers;
    hide Starts, TriesAccepted, Leb128.Encode, TriesSize, InsnsSize, InsnsEnd, Leb128.Size, CodeAt;
    var base := HandlersOff(m, c);
    TriesAreAccepted(m, l, base, w, Tries(m, c));
    LastParts(m, l, base, w, end);
  }

  lemma LastParts(m: seq<Byte>, l: Limits, base: nat, w: CodeSpec, end: nat)
    requires LastSeen(m, l, base, w, end)
    ensures Leb128.Valid(m, base, l.fileEnd) && Leb128.Unsigned(m, base) == |w.handlers|
    ensures Leb128.After(m, base) == base + |Leb128.Encode(|w.handlers|)|
    ensures CatchHandlers(m, l, Leb128.After(m, base), |w.handlers|)
      == Some(HandlerList(Starts(base + |Leb128.Encode(|w.handlers|)|, w.handlers), end))
  {
  }

  /** The checks in front of the tries. */
  lemma HeaderAccepted(m: seq<Byte>, fileEnd: nat, typeIdsSize: U4, c: nat, w: CodeSpec)
    requires WrittenAt(m, fileEnd, typeIdsSize, c, w)
    ensures InsnsEnd(m, c) <= fileEnd
    ensures w.tries == [] ==> CodeItem(m, fileEnd, typeIdsSize, c) == Some(c + |w.Bytes()|)
    ensures w.tries != [] ==>
      CodeItem(m, fileEnd, typeIdsSize, c) == TriesAndCatches(m, Limits(fileEnd, typeIdsSize, |w.insns|), c)
  {
    hide TriesAndCatches, CodeSpec.Front, CodeSpec.Back, StandsAt, InsnsSize, InsnsEnd, Load2, Load4, CodeSpec.Bytes;
    hide CodeSpec.Fits, AllInRange, CodeSpec.TriesBytes, Last;
    FrontAndBack(m, c, w);
    FrontRead(m, c, w);
    Places(m, c, w);
    EndOfInsns(c, |w.insns|);
    if w.tries == [] {
      NoBack(w);
    } else {
      BackRead(m, InsnsEnd(m, c), w);
    }
    hide CodeSpec.Legal;
    LegalRegisters(w, Limits(fileEnd, typeIdsSize, |w.insns|));
  }

  lemma NoBack(w: CodeSpec)
    requires w.Fits() && w.tries == []
    ensures w.Back() == []
  {
  }

  lemma LegalRegisters(w: CodeSpec, l: Limits)
    requires w.Legal(l)
    ensures w.insSize <= w.registersSize && w.outsSize <= if w.registersSize < 5 then 5 else w.registersSize
  {
  }

  lemma WrittenParts(m: seq<Byte>, fileEnd: nat, typeIdsSize: U4, c: nat, w: CodeSpec)
    requires WrittenAt(m, fileEnd, typeIdsSize, c, w)
    ensures Mapped(m, fileEnd) && c % 4 == 0 && c + 20 <= fileEnd && w.Fits()
    ensures StandsAt(m, c, w.Bytes()) && c + |w.Bytes()| <= fileEnd
    ensures |w.insns| < 0x1_0000_0000
    ensures var l := Limits(fileEnd, typeIdsSize, |w.insns|); w.Legal(l) && AllInRange(l, w.handlers)
    ensures |w.handlers| < 0x1_0000 && (w.tries != [] ==> w.handlers != [])
  {
    hide StandsAt, AllInRange, CodeSpec.HandlerOff, CodeSpec.Bytes;
    if w.tries != [] {
      assert w.tries[0].handler < |w.handlers|;
    }
  }

  /** A legal code item is accepted wherever it is written, up to its end. */
  lemma CodeAccepted(m: seq<Byte>, fileEnd: nat, typeIdsSize: U4, c: nat, w: CodeSpec)
    requires WrittenAt(m, fileEnd, typeIdsSize, c, w)
    ensures CodeItem(m, fileEnd, typeIdsSize, c) == Some(c + |w.Bytes()|)
  {
    hide CodeItem, TriesAndCatches, CodeSpec.Legal, CodeSpec.Fits, CodeSpec.Bytes, StandsAt, AllInRange, Seen, InsnsEnd;
    hide WrittenAt;
    WrittenParts(m, fileEnd, typeIdsSize, c, w);
    var l := Limits(fileEnd, typeIdsSize, |w.insns|);
    HeaderAccepted(m, fileEnd, typeIdsSize, c, w);
    if w.tries != [] {
      ItemSeen(m, l, c, w);
      TriesAndCatchesRead(m, l, c, w, c + |w.Bytes()|);
    }
  }

  // ----- Looking addresses up in a written item -----

  predicate Covers(t: TrySpec, address: U4) {
    t.startAddr <= address < t.startAddr as int + t.insnCount
  }

  /** A reader gets for an address the list of the try that covers it, and none if no try does. */
  lemma LookupRead(m: seq<Byte>, l: Limits, c: nat, w: CodeSpec, end: nat, address: U4)
    requires Mapped(m, l.fileEnd) && CodeAt(m, c) && Seen(m, l, c, w, end) && w.Legal(l)
    ensures (forall i | 0 <= i < |w.tries| :: !Covers(w.tries[i], address)) ==> HandlersFor(m, l, c, address) == None
    ensures forall i | 0 <= i < |w.tries| && Covers(w.tries[i], address) ::
      && HandlersFor(m, l, c, address).Some? && w.tries[i].handler < |w.handlers|
      && HandlersFor(m, l, c, address).value.handlers == w.handlers[w.tries[i].handler].Handlers()
  {
    hide HandlersOff, LastSeen, CatchHandler, CodeAt, Tries, CodeSpec.HandlerOff, HandlerSpec.Handlers, Leb128.Encode, StartOf;
    var base, ts := HandlersOff(m, c), Tries(m, c);
    TriesAreAccepted(m, l, base, w, ts);
    AcceptedInOrder(ts, base, Starts(base + |Leb128.Encode(|w.handlers|)|, w.handlers), l.insnsSize);
    hide TriesAccepted, CodeSpec.Legal, FirstCovering, InOrder, Starts;
    if forall i | 0 <= i < |w.tries| :: !Covers(w.tries[i], address) {
      forall i | 0 <= i < |ts| ensures !ts[i].Covers(address) {
        assert ts[i] == TryOf(w, i) && !Covers(w.tries[i], address);
      }
      NoneCovers(ts, address);
    }
    forall i | 0 <= i < |w.tries| && Covers(w.tries[i], address)
      ensures HandlersFor(m, l, c, address).Some? && w.tries[i].handler < |w.handlers|
      ensures HandlersFor(m, l, c, address).value.handlers == w.handlers[w.tries[i].handler].Handlers()
    {
      assert ts[i] == TryOf(w, i);
      OneCovers(ts, address, i);
      assert ListSeen(m, l, base, w, w.tries[i].handler);
      hide ListSeen;
    }
  }

  /** The lookup and the iterator of DexCatch on a written item: the caller gets the clauses that were
      written for the try around the address, the catch-all last, or nothing. */
  method WrittenHandlers(m: seq<Byte>, c: nat, address: U4, ghost fileEnd: nat, ghost typeIdsSize: U4, ghost w: CodeSpec)
    returns (handlers: seq<Handler>)
    requires WrittenAt(m, fileEnd, typeIdsSize, c, w) && w.tries != []
    ensures (forall i | 0 <= i < |w.tries| :: !Covers(w.tries[i], address)) ==> handlers == []
    ensures forall i | 0 <= i < |w.tries| && Covers(w.tries[i], address) ::
      w.tries[i].handler < |w.handlers| && handlers == w.handlers[w.tries[i].handler].Handlers()
  {
    hide CodeItem, CodeSpec.Legal, CodeSpec.Fits, CodeSpec.Bytes, StandsAt, AllInRange, Seen, InsnsSize, HandlersFor, Covers;
    hide WrittenAt, TriesSize, HandlersOff;
    WrittenParts(m, fileEnd, typeIdsSize, c, w);
    ghost var l := Limits(fileEnd, typeIdsSize, |w.insns|);
    CodeAccepted(m, fileEnd, typeIdsSize, c, w);
    Places(m, c, w);
    ItemSeen(m, l, c, w);
    LookupRead(m, l, c, w, c + |w.Bytes()|, address);
    handlers := HandlersAt(m, c, address, fileEnd, typeIdsSize);
  }
}
