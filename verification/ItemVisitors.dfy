/** The intra-item checks of this project as visitors of the section walk
    (swapEverythingButHeaderAndMap in libdex/DexSwapVerify.cpp). */
module ItemVisitors {
  import opened Memory
  import opened ItemTypes
  import opened DataMap
  import IdTables
  import DebugVerify
  import DexCatch
  import EncodedValue
  import Leb128
  import Mutf8
  import SectionWalk

  const VISIBILITY_SYSTEM := 0x02

  /** intraVerifyAnnotationItem: a visibility, then the annotation without cross-verification. */
  function AnnotationItem(m: seq<Byte>, e: EncodedValue.Env, p: nat): (end: Option<nat>)
    requires Readable(m, e.fileEnd)
    ensures end.Some? ==> end.value > p + 1
  {
    if p + 1 > e.fileEnd || m[p] > VISIBILITY_SYSTEM then None
    else EncodedValue.VerifyAnnotation(m, e.(crossVerify := false), p + 1)
  }

  method IntraVerifyAnnotationItem(m: seq<Byte>, e: EncodedValue.Env, p: nat) returns (end: Option<nat>)
    requires Readable(m, e.fileEnd)
    ensures end == AnnotationItem(m, e, p)
  {
    if p + 1 > e.fileEnd {
      return None;
    }
    if m[p] > VISIBILITY_SYSTEM {
      return None;
    }
    end := EncodedValue.VerifyEncodedAnnotation(m, e.(crossVerify := false), p + 1);
  }

  /** Strings, code, debug information, annotations and arrays are visited by their own checks, the
      other item types by the given ones. */
  function Visit(m: seq<Byte>, e: EncodedValue.Env, others: SectionWalk.Visitor, t: U2, p: nat): Option<nat>
    requires DexCatch.Mapped(m, e.fileEnd)
  {
    if t == CODE_ITEM then
      if p % 4 == 0 then DexCatch.CodeItem(m, e.fileEnd, e.typeIdsSize, p) else None
    else if p > e.fileEnd then
      if t in {STRING_DATA_ITEM, DEBUG_INFO_ITEM, ANNOTATION_ITEM, ENCODED_ARRAY_ITEM} then None else others(t, p)
    else if t == STRING_DATA_ITEM then Mutf8.StringDataItem(m, p, e.fileEnd)
    else if t == DEBUG_INFO_ITEM then DebugInfoItem(m, e, p)
    else if t == ANNOTATION_ITEM then AnnotationItem(m, e, p)
    else if t == ENCODED_ARRAY_ITEM then EncodedValue.VerifyArray(m, e.(crossVerify := false), p)
    else others(t, p)
  }

  function DebugInfoItem(m: seq<Byte>, e: EncodedValue.Env, p: nat): Option<nat>
    requires Readable(m, e.fileEnd) && p <= e.fileEnd
  {
    var d := DebugVerify.Env(e.fileEnd, e.stringIdsSize, e.typeIdsSize);
    match DebugVerify.VerifiedHeader(m, d, p)
    case None => None
    case Some(q) => DebugVerify.VerifiedOps(m, d, q)
  }

  lemma StringAdvances(m: seq<Byte>, p: nat, fileEnd: nat)
    requires fileEnd + 16 <= |m| && p <= fileEnd
    ensures Mutf8.StringDataItem(m, p, fileEnd).Some? ==> Mutf8.StringDataItem(m, p, fileEnd).value > p
  {
    if Mutf8.StringDataItem(m, p, fileEnd).Some? {
      ScanAdvances(m, Leb128.After(m, p), Leb128.Unsigned(m, p), fileEnd);
    }
  }

  lemma {:induction false} ScanAdvances(m: seq<Byte>, p: nat, n: nat, fileEnd: nat)
    requires fileEnd + 16 <= |m| && p <= fileEnd + 2 && Mutf8.Scan(m, p, n, fileEnd).Some?
    ensures Mutf8.Scan(m, p, n, fileEnd).value > p
    decreases n
  {
    if n > 0 {
      ScanAdvances(m, Mutf8.CheckedUnit(m, p).value, n - 1, fileEnd);
    }
  }

  lemma {:induction false} HandlersAdvance(m: seq<Byte>, l: DexCatch.Limits, p: nat, count: nat)
    requires DexCatch.Mapped(m, l.fileEnd) && p <= l.fileEnd && DexCatch.CatchHandlers(m, l, p, count).Some?
    ensures DexCatch.CatchHandlers(m, l, p, count).value.end >= p
    decreases count
  {
    if count > 0 {
      DexCatch.CatchHandlersStep(m, l, p, count);
      DexCatch.HandlerEnd(m, l, p);
      HandlersAdvance(m, l, DexCatch.CatchHandler(m, l, p).value.end, count - 1);
    }
  }

  lemma CodeAdvances(m: seq<Byte>, fileEnd: nat, typeIdsSize: U4, c: nat)
    requires DexCatch.Mapped(m, fileEnd) && c % 4 == 0 && DexCatch.CodeItem(m, fileEnd, typeIdsSize, c).Some?
    ensures DexCatch.CodeItem(m, fileEnd, typeIdsSize, c).value > c
  {
    if DexCatch.TriesSize(m, c) > 0 {
      var starts := DexCatch.AcceptedIsTrusted(m, fileEnd, typeIdsSize, c);
      hide DexCatch.CodeItem, DexCatch.CatchHandlers, Leb128.Unsigned;
      var base := DexCatch.HandlersOff(m, c);
      HandlersAdvance(m, DexCatch.CodeLimits(m, fileEnd, typeIdsSize, c), Leb128.After(m, base), Leb128.Unsigned(m, base));
    }
  }

  lemma {:induction false} NamesAdvance(m: seq<Byte>, e: DebugVerify.Env, p: nat, n: nat)
    requires Readable(m, e.fileEnd) && p <= e.fileEnd && DebugVerify.VerifiedNames(m, e, p, n).Some?
    ensures DebugVerify.VerifiedNames(m, e, p, n).value >= p
    decreases n
  {
    if n > 0 {
      NamesAdvance(m, e, Leb128.After(m, p), n - 1);
    }
  }

  lemma DebugAdvances(m: seq<Byte>, e: EncodedValue.Env, p: nat)
    requires Readable(m, e.fileEnd) && p <= e.fileEnd
    ensures DebugInfoItem(m, e, p).Some? ==> DebugInfoItem(m, e, p).value > p
  {
    if DebugInfoItem(m, e, p).Some? {
      var d := DebugVerify.Env(e.fileEnd, e.stringIdsSize, e.typeIdsSize);
      var sizeAt := Leb128.After(m, p);
      NamesAdvance(m, d, Leb128.After(m, sizeAt), Leb128.Unsigned(m, sizeAt));
      DebugVerify.EndsAfter(m, d, DebugVerify.VerifiedHeader(m, d, p).value);
    }
  }

  lemma VisitAdvances(m: seq<Byte>, e: EncodedValue.Env, others: SectionWalk.Visitor, t: U2, p: nat)
    requires DexCatch.Mapped(m, e.fileEnd) && SectionWalk.Advances(others)
    ensures Visit(m, e, others, t, p).Some? ==> Visit(m, e, others, t, p).value > p
  {
    hide DebugInfoItem, DexCatch.CodeItem, Mutf8.StringDataItem, EncodedValue.VerifyArray, AnnotationItem;
    if t == CODE_ITEM {
      if p % 4 == 0 && DexCatch.CodeItem(m, e.fileEnd, e.typeIdsSize, p).Some? {
        CodeAdvances(m, e.fileEnd, e.typeIdsSize, p);
      }
    } else if p <= e.fileEnd {
      if t == STRING_DATA_ITEM {
        StringAdvances(m, p, e.fileEnd);
      } else if t == DEBUG_INFO_ITEM {
        DebugAdvances(m, e, p);
      }
    }
  }

  /** The item checks meet what the section walk asks of its visitors. */
  lemma VisitorAdvances(m: seq<Byte>, e: EncodedValue.Env, others: SectionWalk.Visitor)
    requires DexCatch.Mapped(m, e.fileEnd) && SectionWalk.Advances(others)
    ensures SectionWalk.Advances(VisitorOf(m, e, others))
  {
    forall t: U2, p: nat
      ensures VisitorOf(m, e, others)(t, p).Some? ==> VisitorOf(m, e, others)(t, p).value > p
    {
      VisitAdvances(m, e, others, t, p);
    }
  }

  function VisitorOf(m: seq<Byte>, e: EncodedValue.Env, others: SectionWalk.Visitor): SectionWalk.Visitor
    requires DexCatch.Mapped(m, e.fileEnd)
  {
    (t: U2, p: nat) => Visit(m, e, others, t, p)
  }

  // ----- What the index of an accepted file is good for -----

  /** The walk with these visitors. */
  function Accepted(m: seq<Byte>, e: EncodedValue.Env, others: SectionWalk.Visitor, h: SectionWalk.Header,
                    sections: seq<SectionWalk.MapItem>): Option<SectionWalk.Walked>
    requires DexCatch.Mapped(m, e.fileEnd) && h.Complete()
  {
    SectionWalk.Walk(m, e.fileEnd, VisitorOf(m, e, others), h, sections, 0, 0)
  }

  lemma IndexedIsVisited(m: seq<Byte>, e: EncodedValue.Env, others: SectionWalk.Visitor, h: SectionWalk.Header,
                         sections: seq<SectionWalk.MapItem>, offset: nat, t: U2)
    requires DexCatch.Mapped(m, e.fileEnd) && h.Complete() && t != MAP_LIST
    requires Accepted(m, e, others, h, sections).Some?
    requires Entry(offset, t) in SectionWalk.DataEntries(Accepted(m, e, others, h, sections).value.items)
    ensures Visit(m, e, others, t, offset).Some? && Visit(m, e, others, t, offset).value <= e.fileEnd
  {
    hide Visit, SectionWalk.Walk, SectionWalk.Visited;
    var visit := VisitorOf(m, e, others);
    SectionWalk.WalkVisited(m, e.fileEnd, visit, h, sections, 0, 0);
    SectionWalk.EntryVisited(visit, e.fileEnd, Accepted(m, e, others, h, sections).value.items, offset, t);
  }

  /** Wherever the index has a code item, the verifier accepted one: the lookup of handlers and the
      code size can be asked. */
  lemma IndexedCode(m: seq<Byte>, e: EncodedValue.Env, others: SectionWalk.Visitor, h: SectionWalk.Header,
                    sections: seq<SectionWalk.MapItem>, offset: nat)
    requires DexCatch.Mapped(m, e.fileEnd) && h.Complete()
    requires Accepted(m, e, others, h, sections).Some?
    requires Entry(offset, CODE_ITEM) in SectionWalk.DataEntries(Accepted(m, e, others, h, sections).value.items)
    ensures offset % 4 == 0 && DexCatch.CodeItem(m, e.fileEnd, e.typeIdsSize, offset).Some?
    ensures DexCatch.CodeItem(m, e.fileEnd, e.typeIdsSize, offset).value <= e.fileEnd
  {
    IndexedIsVisited(m, e, others, h, sections, offset, CODE_ITEM);
    hide DexCatch.CodeItem;
  }

  /** Where dexGetStringData finds the units: behind the count. */
  method GetStringData(m: seq<Byte>, p: nat, ghost limit: nat) returns (q: nat)
    requires p + 5 <= |m| && Leb128.Valid(m, p, limit)
    ensures q == Leb128.After(m, p)
  {
    q := p;
    while m[q] > 0x7f
      invariant p <= q < p + 5 && forall k | p <= k < q :: m[k] > 0x7f
      decreases p + 5 - q
    {
      q := q + 1;
    }
    q := q + 1;
  }

  /** The string at an offset: as many units as announced and a NUL, inside the file. */
  ghost predicate StringDataAt(m: seq<Byte>, fileEnd: nat, p: nat, us: Mutf8.Units) {
    && p + 5 <= |m| && Leb128.Valid(m, p, fileEnd)
    && Mutf8.StringAt(m, Leb128.After(m, p), us) && |us| == Leb128.Unsigned(m, p)
    && Leb128.After(m, p) + |Mutf8.Encode(us)| < fileEnd
  }

  /** Wherever the index has a string, one stands, and only one. */
  lemma IndexedString(m: seq<Byte>, e: EncodedValue.Env, others: SectionWalk.Visitor, h: SectionWalk.Header,
                      sections: seq<SectionWalk.MapItem>, offset: nat) returns (us: Mutf8.Units)
    requires DexCatch.Mapped(m, e.fileEnd) && h.Complete()
    requires Accepted(m, e, others, h, sections).Some?
    requires Entry(offset, STRING_DATA_ITEM) in SectionWalk.DataEntries(Accepted(m, e, others, h, sections).value.items)
    ensures forall us' :: StringDataAt(m, e.fileEnd, offset, us') <==> us' == us
  {
    IndexedIsVisited(m, e, others, h, sections, offset, STRING_DATA_ITEM);
    hide Accepted;
    var end := Mutf8.StringDataItem(m, offset, e.fileEnd).value;
    Mutf8.StringDataItemIff(m, offset, e.fileEnd, end);
    hide Mutf8.StringDataItem, Mutf8.StringAt, Mutf8.Encode, Leb128.Unsigned, Leb128.Size;
    us :| Mutf8.StringEnds(m, Leb128.After(m, offset), Leb128.Unsigned(m, offset), us, end);
    forall us' | StringDataAt(m, e.fileEnd, offset, us') ensures us' == us {
      Mutf8.OneString(m, Leb128.After(m, offset), us, us');
    }
  }

  /** The strings of a file are those that stand at their offsets. */
  ghost predicate HoldsStrings(m: seq<Byte>, fileEnd: nat, f: IdTables.DexFile) {
    && |f.strings| == |f.stringOffs|
    && forall i | 0 <= i < |f.strings| :: StringDataAt(m, fileEnd, f.stringOffs[i], f.strings[i])
  }

  /** If the index knows all offsets, as the verifier of string_ids asks first, the bytes of the file
      determine the strings that it then compares. */
  lemma FileHasStrings(m: seq<Byte>, e: EncodedValue.Env, others: SectionWalk.Visitor, h: SectionWalk.Header,
                       sections: seq<SectionWalk.MapItem>, offs: seq<U4>) returns (strings: seq<Mutf8.Units>)
    requires DexCatch.Mapped(m, e.fileEnd) && h.Complete()
    requires Accepted(m, e, others, h, sections).Some?
    requires forall i | 0 <= i < |offs| ::
      Entry(offs[i], STRING_DATA_ITEM) in SectionWalk.DataEntries(Accepted(m, e, others, h, sections).value.items)
    ensures forall f: IdTables.DexFile | f.stringOffs == offs :: HoldsStrings(m, e.fileEnd, f) <==> f.strings == strings
  {
    hide StringDataAt, Accepted;
    strings := [];
    for n := 0 to |offs|
      invariant |strings| == n
      invariant forall i, us | 0 <= i < n :: StringDataAt(m, e.fileEnd, offs[i], us) <==> us == strings[i]
    {
      var us := IndexedString(m, e, others, h, sections, offs[n]);
      strings := strings + [us];
    }
  }
}
