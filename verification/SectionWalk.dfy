/** The map of a dex file and the walk over all its sections
    (swapMap and swapEverythingButHeaderAndMap in libdex/DexSwapVerify.cpp). The
    visitors of the item types are a parameter. */
module SectionWalk {
  import opened Memory
  import opened ItemTypes
  import opened DataMap

  /** The types of items, one by one: the id sections, and the items of the data section that stand
      at multiples of four or anywhere. */
  predicate IdSection(t: U2) {
    || t == STRING_ID_ITEM || t == TYPE_ID_ITEM || t == PROTO_ID_ITEM
    || t == FIELD_ID_ITEM || t == METHOD_ID_ITEM || t == CLASS_DEF_ITEM
  }

  predicate OnWords(t: U2) {
    || t == TYPE_LIST || t == ANNOTATION_SET_REF_LIST || t == ANNOTATION_SET_ITEM
    || t == CODE_ITEM || t == ANNOTATIONS_DIRECTORY_ITEM
  }

  predicate Packed(t: U2) {
    || t == CLASS_DATA_ITEM || t == STRING_DATA_ITEM || t == DEBUG_INFO_ITEM
    || t == ANNOTATION_ITEM || t == ENCODED_ARRAY_ITEM
  }

  predicate InDataSection(t: U2) { t == MAP_LIST || OnWords(t) || Packed(t) }

  predicate IsListed(t: U2) { t == HEADER_ITEM || IdSection(t) || InDataSection(t) }

  predicate IsIdType(t: U2) { STRING_ID_ITEM <= t <= CLASS_DEF_ITEM }

  /** The types whose items go into the data map. */
  predicate IsItemizedDataType(t: U2) {
    || t == TYPE_LIST || t == ANNOTATION_SET_REF_LIST || t == ANNOTATION_SET_ITEM
    || CLASS_DATA_ITEM <= t <= ANNOTATIONS_DIRECTORY_ITEM
  }

  /** Whether mapTypeToBitMask gives a bit; every known type has a bit of its own. */
  predicate HasBit(t: U2) { t == HEADER_ITEM || IsIdType(t) || t == MAP_LIST || IsItemizedDataType(t) }

  /** isDataSectionType. */
  predicate IsDataSectionType(t: U2) { !(HEADER_ITEM <= t <= CLASS_DEF_ITEM) }

  /** The ranges in the code are these types. */
  lemma TypesAreListed(t: U2)
    ensures IsIdType(t) <==> IdSection(t)
    ensures IsItemizedDataType(t) <==> OnWords(t) || Packed(t)
    ensures HasBit(t) <==> IsListed(t)
    ensures HasBit(t) ==> (IsDataSectionType(t) <==> InDataSection(t))
  {
  }

  /** sizeof(u4) or sizeof(u1), by section type. */
  function Alignment(t: U2): (a: nat)
    ensures a == 1 || a == 4
  {
    if IsIdType(t) || TYPE_LIST <= t <= ANNOTATION_SET_ITEM || t == CODE_ITEM || t == ANNOTATIONS_DIRECTORY_ITEM
    then 4 else 1
  }

  datatype MapItem = MapItem(itemType: U2, size: U4, offset: U4)

  /** The parts of the header that matter here; idSize and idOff by id section type. */
  datatype Header = Header(fileSize: U4, headerSize: U4, mapOff: U4, dataSize: U4, dataOff: U4,
                           idSize: map<U2, U4>, idOff: map<U2, U4>)
  {
    predicate Complete() {
      forall t: U2 | IsIdType(t) :: t in idSize && t in idOff
    }
  }

  /** The end of the item of this type at this offset, if the visitor accepts it. */
  type Visitor = (U2, nat) -> Option<nat>

  ghost predicate Advances(visit: Visitor) {
    forall t: U2, p: nat :: visit(t, p).Some? ==> visit(t, p).value > p
  }

  // ----- swapMap -----

  /** The items announced for the data section. */
  function DataItems(sections: seq<MapItem>): nat {
    if sections == [] then 0 else DataItems(sections[..|sections| - 1]) + Share(sections[|sections| - 1])
  }

  function Share(section: MapItem): nat {
    if InDataSection(section.itemType) then section.size else 0
  }

  ghost predicate HasType(sections: seq<MapItem>, t: U2) {
    exists i :: 0 <= i < |sections| && sections[i].itemType == t
  }

  ghost predicate GoodMap(h: Header, fileEnd: nat, sections: seq<MapItem>)
    requires h.Complete()
  {
    && h.mapOff + 4 + 12 * |sections| <= fileEnd
    && (forall i | 0 < i < |sections| :: sections[i - 1].offset < sections[i].offset)
    && (forall i | 0 <= i < |sections| :: sections[i].offset < h.fileSize && IsListed(sections[i].itemType))
    && (forall i, j | 0 <= i < j < |sections| :: sections[i].itemType != sections[j].itemType)
    && DataItems(sections) <= h.dataSize
    && HasType(sections, HEADER_ITEM) && HasType(sections, MAP_LIST)
    && (forall t: U2 | IsIdType(t) && !HasType(sections, t) :: h.idOff[t] == 0 && h.idSize[t] == 0)
  }

  /** Before item i the earlier items were good. */
  ghost predicate GoodSoFar(h: Header, sections: seq<MapItem>, n: nat) {
    && n <= |sections|
    && (forall i | 0 < i < n :: sections[i - 1].offset < sections[i].offset)
    && (forall i | 0 <= i < n :: sections[i].offset < h.fileSize && HasBit(sections[i].itemType))
    && (forall i, j | 0 <= i < j < n :: sections[i].itemType != sections[j].itemType)
    && DataItems(sections[..n]) <= h.dataSize
  }

  lemma DataItemsStep(sections: seq<MapItem>, n: nat)
    requires n < |sections|
    ensures DataItems(sections[..n + 1]) == DataItems(sections[..n]) + Share(sections[n])
  {
    assert sections[..n + 1][..n] == sections[..n];
  }

  lemma {:induction false} DataItemsGrow(sections: seq<MapItem>, n: nat)
    requires n <= |sections|
    ensures DataItems(sections[..n]) <= DataItems(sections)
    decreases |sections| - n
  {
    if n < |sections| {
      DataItemsStep(sections, n);
      DataItemsGrow(sections, n + 1);
    } else {
      assert sections[..n] == sections;
    }
  }

  /** What the loop of swapMap checks of item n, given that the ones before are good. */
  predicate GoodItem(h: Header, sections: seq<MapItem>, n: nat)
    requires n < |sections|
  {
    var item := sections[n];
    && (n > 0 ==> sections[n - 1].offset < item.offset)
    && item.offset < h.fileSize && HasBit(item.itemType)
    && Share(item) <= h.dataSize - DataItems(sections[..n])
    && forall i | 0 <= i < n :: sections[i].itemType != item.itemType
  }

  lemma GoodStep(h: Header, sections: seq<MapItem>, n: nat)
    requires n < |sections| && GoodSoFar(h, sections, n)
    ensures GoodSoFar(h, sections, n + 1) <==> GoodItem(h, sections, n)
  {
    DataItemsStep(sections, n);
  }

  lemma GoodPrefix(h: Header, sections: seq<MapItem>, n: nat)
    requires n <= |sections| && GoodSoFar(h, sections, |sections|)
    ensures GoodSoFar(h, sections, n)
  {
    DataItemsGrow(sections, n);
    assert sections[..|sections|] == sections;
  }

  ghost predicate TypesUpTo(usedBits: set<U2>, sections: seq<MapItem>, n: nat)
    requires n <= |sections|
  {
    forall t: U2 :: t in usedBits <==> exists k :: 0 <= k < n && sections[k].itemType == t
  }

  lemma TypesStep(usedBits: set<U2>, sections: seq<MapItem>, n: nat)
    requires n < |sections| && TypesUpTo(usedBits, sections, n)
    ensures TypesUpTo(usedBits + {sections[n].itemType}, sections, n + 1)
  {
  }

  lemma TypeIsNew(usedBits: set<U2>, sections: seq<MapItem>, n: nat)
    requires n < |sections| && TypesUpTo(usedBits, sections, n)
    ensures sections[n].itemType !in usedBits <==> forall i | 0 <= i < n :: sections[i].itemType != sections[n].itemType
  {
  }

  /** The loop of swapMap; usedBits is kept as the set of types whose bits are on. */
  method ScanMap(h: Header, sections: seq<MapItem>) returns (ok: bool, usedBits: set<U2>, dataItemCount: int)
    ensures ok <==> GoodSoFar(h, sections, |sections|)
    ensures ok ==> TypesUpTo(usedBits, sections, |sections|) && dataItemCount == DataItems(sections)
  {
    usedBits, dataItemCount := {}, 0;
    var dataItemsLeft: int := h.dataSize;
    var first, lastOffset := true, 0;
    for i := 0 to |sections|
      invariant GoodSoFar(h, sections, i)
      invariant first <==> i == 0
      invariant i > 0 ==> lastOffset == sections[i - 1].offset
      invariant dataItemCount == DataItems(sections[..i]) && dataItemsLeft == h.dataSize - dataItemCount
      invariant TypesUpTo(usedBits, sections, i)
    {
      TypeIsNew(usedBits, sections, i);
      GoodStep(h, sections, i);
      hide GoodSoFar, DataItems, TypesUpTo;
      var item := sections[i];
      TypesAreListed(item.itemType);
      hide IsListed, HasBit, IsDataSectionType, InDataSection;
      if !first && lastOffset >= item.offset {
        NotGood(h, sections, i);
        return false, {}, 0;
      }
      first := false;
      if item.offset >= h.fileSize {
        NotGood(h, sections, i);
        return false, {}, 0;
      }
      if IsDataSectionType(item.itemType) {
        var icount: int := item.size;
        if icount > dataItemsLeft {
          NotGood(h, sections, i);
          return false, {}, 0;
        }
        dataItemsLeft := dataItemsLeft - icount;
        dataItemCount := dataItemCount + icount;
      }
      DataItemsStep(sections, i);
      if !HasBit(item.itemType) {
        NotGood(h, sections, i);
        return false, {}, 0;
      }
      if item.itemType in usedBits {
        NotGood(h, sections, i);
        return false, {}, 0;
      }
      TypesStep(usedBits, sections, i);
      usedBits := usedBits + {item.itemType};
      lastOffset := item.offset;
    }
    assert sections[..|sections|] == sections;
    return true, usedBits, dataItemCount;
  }

  lemma NotGood(h: Header, sections: seq<MapItem>, n: nat)
    requires n < |sections| && GoodSoFar(h, sections, n) && !GoodItem(h, sections, n)
    ensures !GoodSoFar(h, sections, |sections|)
  {
    hide GoodItem;
    GoodStep(h, sections, n);
    hide GoodSoFar;
    if GoodSoFar(h, sections, |sections|) {
      GoodPrefix(h, sections, n + 1);
    }
  }

  /** swapMap: the capacity of the data map is the number of items announced. */
  method SwapMap(h: Header, fileEnd: nat, sections: seq<MapItem>) returns (dataMap: DexDataMap?)
    requires h.Complete()
    ensures dataMap != null <==> GoodMap(h, fileEnd, sections)
    ensures dataMap != null ==>
      fresh(dataMap) && fresh(dataMap.offsets) && fresh(dataMap.types)
      && dataMap.Valid() && dataMap.count == 0 && dataMap.max == DataItems(sections)
  {
    dataMap := null;
    if h.mapOff + 4 + 12 * |sections| > fileEnd {
      return;
    }
    var ok, usedBits, dataItemCount := ScanMap(h, sections);
    assert sections[..|sections|] == sections;
    if !ok {
      return;
    }
    assert forall t: U2 :: t in usedBits <==> HasType(sections, t);
    hide HasType, DataItems;
    var present := RequiredSectionsPresent(h, usedBits);
    if !present {
      return;
    }
    dataMap := new DexDataMap(dataItemCount);
  }

  predicate MissingIsEmpty(h: Header, usedBits: set<U2>, t: U2)
    requires IsIdType(t) && h.Complete()
  {
    t in usedBits || (h.idOff[t] == 0 && h.idSize[t] == 0)
  }

  /** The checks after the loop of swapMap. */
  method RequiredSectionsPresent(h: Header, usedBits: set<U2>) returns (ok: bool)
    requires h.Complete()
    ensures ok <==> (HEADER_ITEM in usedBits && MAP_LIST in usedBits
                     && forall t: U2 | IsIdType(t) :: MissingIsEmpty(h, usedBits, t))
  {
    if HEADER_ITEM !in usedBits {
      return false;
    }
    if MAP_LIST !in usedBits {
      return false;
    }
    if STRING_ID_ITEM !in usedBits && (h.idOff[STRING_ID_ITEM] != 0 || h.idSize[STRING_ID_ITEM] != 0) {
      assert !MissingIsEmpty(h, usedBits, STRING_ID_ITEM);
      return false;
    }
    if TYPE_ID_ITEM !in usedBits && (h.idOff[TYPE_ID_ITEM] != 0 || h.idSize[TYPE_ID_ITEM] != 0) {
      assert !MissingIsEmpty(h, usedBits, TYPE_ID_ITEM);
      return false;
    }
    if PROTO_ID_ITEM !in usedBits && (h.idOff[PROTO_ID_ITEM] != 0 || h.idSize[PROTO_ID_ITEM] != 0) {
      assert !MissingIsEmpty(h, usedBits, PROTO_ID_ITEM);
      return false;
    }
    if FIELD_ID_ITEM !in usedBits && (h.idOff[FIELD_ID_ITEM] != 0 || h.idSize[FIELD_ID_ITEM] != 0) {
      assert !MissingIsEmpty(h, usedBits, FIELD_ID_ITEM);
      return false;
    }
    if METHOD_ID_ITEM !in usedBits && (h.idOff[METHOD_ID_ITEM] != 0 || h.idSize[METHOD_ID_ITEM] != 0) {
      assert !MissingIsEmpty(h, usedBits, METHOD_ID_ITEM);
      return false;
    }
    if CLASS_DEF_ITEM !in usedBits && (h.idOff[CLASS_DEF_ITEM] != 0 || h.idSize[CLASS_DEF_ITEM] != 0) {
      assert !MissingIsEmpty(h, usedBits, CLASS_DEF_ITEM);
      return false;
    }
    return true;
  }

  // ----- The walk, as a function -----

  datatype Item = Item(itemType: U2, start: nat, end: nat)

  datatype Walked = Walked(items: seq<Item>, next: nat)

  function AlignUp(x: nat, alignment: nat): (y: nat)
    requires alignment == 1 || alignment == 4
    ensures x <= y < x + alignment && y % alignment == 0
  {
    (x + alignment - 1) / alignment * alignment
  }

  predicate ZeroRange(m: seq<Byte>, p: nat, q: nat)
    requires q <= |m|
  {
    forall i | p <= i < q :: m[i] == 0
  }

  /** A gap is passed only inside the file and only over zeros. */
  predicate GapOk(m: seq<Byte>, fileEnd: nat, p: nat, q: nat)
    requires fileEnd <= |m|
  {
    p < q ==> q <= fileEnd && ZeroRange(m, p, q)
  }

  /** count items of one type from offset on. */
  function Items(m: seq<Byte>, fileEnd: nat, visit: Visitor, t: U2, offset: nat, count: nat): Option<Walked>
    requires fileEnd <= |m|
    decreases count
  {
    if count == 0 then Some(Walked([], offset))
    else
      var start := AlignUp(offset, Alignment(t));
      if !GapOk(m, fileEnd, offset, start) then None
      else
        match visit(t, start)
        case None => None
        case Some(end) =>
          if end > fileEnd then None
          else
            match Items(m, fileEnd, visit, t, end, count - 1)
            case None => None
            case Some(w) => Some(Walked([Item(t, start, end)] + w.items, w.next))
  }

  /** One section, by its type. */
  function Section(m: seq<Byte>, fileEnd: nat, visit: Visitor, h: Header, mapSize: nat, s: MapItem): Option<Walked>
    requires fileEnd <= |m| && h.Complete()
  {
    var t := s.itemType;
    if t == HEADER_ITEM then
      if s.size != 1 || s.offset != 0 then None
      else Some(Walked([Item(t, 0, h.headerSize)], h.headerSize))
    else if t == MAP_LIST then
      if s.size != 1 || s.offset != h.mapOff then None
      else Some(Walked([Item(t, s.offset, s.offset + 4 + 12 * mapSize)], s.offset + 4 + 12 * mapSize))
    else if IsIdType(t) then
      if s.offset != h.idOff[t] || s.size != h.idSize[t] then None
      else Items(m, fileEnd, visit, t, s.offset, s.size)
    else if IsItemizedDataType(t) then
      if s.offset < h.dataOff || s.offset >= h.dataOff + h.dataSize then None
      else
        match Items(m, fileEnd, visit, t, s.offset, s.size)
        case None => None
        case Some(w) => if w.next > h.dataOff + h.dataSize then None else Some(w)
    else None
  }

  /** All sections from the n-th on; last is where the previous one ended. */
  function Walk(m: seq<Byte>, fileEnd: nat, visit: Visitor, h: Header, sections: seq<MapItem>, n: nat, last: nat): Option<Walked>
    requires fileEnd <= |m| && h.Complete() && n <= |sections|
    decreases |sections| - n
  {
    if n == |sections| then Some(Walked([], last))
    else if last > sections[n].offset || !GapOk(m, fileEnd, last, sections[n].offset) then None
    else
      match Section(m, fileEnd, visit, h, |sections|, sections[n])
      case None => None
      case Some(w) =>
        match Walk(m, fileEnd, visit, h, sections, n + 1, w.next)
        case None => None
        case Some(rest) => Some(Walked(w.items + rest.items, rest.next))
  }

  // ----- What an accepted walk means -----

  /** The items go up from p to q without overlap. */
  ghost predicate Tiles(items: seq<Item>, p: nat, q: nat) {
    if items == [] then p <= q
    else p <= items[0].start < items[0].end && Tiles(items[1..], items[0].end, q)
  }

  ghost predicate Covered(items: seq<Item>, i: nat) {
    exists k :: 0 <= k < |items| && items[k].start <= i < items[k].end
  }

  /** Every byte from p to q is in an item or zero. */
  ghost predicate GapsZero(m: seq<Byte>, items: seq<Item>, p: nat, q: nat) {
    forall i | p <= i < q :: Covered(items, i) || (i < |m| && m[i] == 0)
  }

  ghost predicate Aligned(items: seq<Item>) {
    forall k | 0 <= k < |items| && (IdSection(items[k].itemType) || OnWords(items[k].itemType)) :: items[k].start % 4 == 0
  }

  lemma {:induction false} TilesAppend(a: seq<Item>, b: seq<Item>, p: nat, q: nat, r: nat)
    requires Tiles(a, p, q) && Tiles(b, q, r)
    ensures Tiles(a + b, p, r)
  {
    if a == [] {
      assert a + b == b;
      TilesWiden(b, p, q, r);
    } else {
      assert (a + b)[1..] == a[1..] + b;
      TilesAppend(a[1..], b, a[0].end, q, r);
    }
  }

  lemma {:induction false} TilesWiden(b: seq<Item>, p: nat, q: nat, r: nat)
    requires p <= q && Tiles(b, q, r)
    ensures Tiles(b, p, r)
  {
  }

  lemma GapsAppend(m: seq<Byte>, a: seq<Item>, b: seq<Item>, p: nat, q: nat, r: nat)
    requires GapsZero(m, a, p, q) && GapsZero(m, b, q, r)
    ensures GapsZero(m, a + b, p, r)
  {
    forall i | p <= i < r && !(i < |m| && m[i] == 0)
      ensures Covered(a + b, i)
    {
      if i < q {
        assert Covered(a, i);
        var k :| 0 <= k < |a| && a[k].start <= i < a[k].end;
        assert (a + b)[k] == a[k];
      } else {
        assert Covered(b, i);
        var k :| 0 <= k < |b| && b[k].start <= i < b[k].end;
        assert (a + b)[|a| + k] == b[k];
      }
    }
  }

  lemma GapBeforeItem(m: seq<Byte>, fileEnd: nat, p: nat, item: Item)
    requires fileEnd <= |m| && p <= item.start && GapOk(m, fileEnd, p, item.start)
    ensures GapsZero(m, [item], p, item.end)
  {
    forall i | item.start <= i < item.end
      ensures Covered([item], i)
    {
      assert [item][0].start <= i < [item][0].end;
    }
  }

  lemma {:induction false} ItemsTile(m: seq<Byte>, fileEnd: nat, visit: Visitor, t: U2, offset: nat, count: nat)
    requires fileEnd <= |m| && Advances(visit) && Items(m, fileEnd, visit, t, offset, count).Some?
    ensures var w := Items(m, fileEnd, visit, t, offset, count).value;
      && Tiles(w.items, offset, w.next) && GapsZero(m, w.items, offset, w.next) && Aligned(w.items)
      && |w.items| == count && forall k | 0 <= k < count :: w.items[k].itemType == t
    decreases count
  {
    if count > 0 {
      var start := AlignUp(offset, Alignment(t));
      var end := visit(t, start).value;
      ItemsTile(m, fileEnd, visit, t, end, count - 1);
      var w := Items(m, fileEnd, visit, t, end, count - 1).value;
      var item := Item(t, start, end);
      assert ([item] + w.items)[1..] == w.items;
      GapBeforeItem(m, fileEnd, offset, item);
      GapsAppend(m, [item], w.items, offset, end, w.next);
    }
  }

  lemma SectionTiles(m: seq<Byte>, fileEnd: nat, visit: Visitor, h: Header, mapSize: nat, s: MapItem)
    requires fileEnd <= |m| && h.Complete() && Advances(visit) && h.headerSize > 0
    requires Section(m, fileEnd, visit, h, mapSize, s).Some?
    ensures var w := Section(m, fileEnd, visit, h, mapSize, s).value;
      && Tiles(w.items, s.offset, w.next) && GapsZero(m, w.items, s.offset, w.next) && Aligned(w.items)
      && |w.items| == s.size && forall k | 0 <= k < |w.items| :: w.items[k].itemType == s.itemType
  {
    var w := Section(m, fileEnd, visit, h, mapSize, s).value;
    if s.itemType == HEADER_ITEM || s.itemType == MAP_LIST {
      GapBeforeItem(m, fileEnd, s.offset, w.items[0]);
    } else {
      ItemsTile(m, fileEnd, visit, s.itemType, s.offset, s.size);
    }
  }

  /** An accepted file: from the first byte to the end of the last section the items
      stand in ascending, disjoint, aligned ranges and the bytes between them are zero. */
  lemma {:induction false} WalkTiles(m: seq<Byte>, fileEnd: nat, visit: Visitor, h: Header, sections: seq<MapItem>, n: nat, last: nat)
    requires fileEnd <= |m| && h.Complete() && Advances(visit) && h.headerSize > 0 && n <= |sections|
    requires Walk(m, fileEnd, visit, h, sections, n, last).Some?
    ensures var w := Walk(m, fileEnd, visit, h, sections, n, last).value;
      Tiles(w.items, last, w.next) && GapsZero(m, w.items, last, w.next) && Aligned(w.items)
    decreases |sections| - n
  {
    if n < |sections| {
      var s := sections[n];
      var w := Section(m, fileEnd, visit, h, |sections|, s).value;
      var rest := Walk(m, fileEnd, visit, h, sections, n + 1, w.next).value;
      SectionTiles(m, fileEnd, visit, h, |sections|, s);
      WalkTiles(m, fileEnd, visit, h, sections, n + 1, w.next);
      hide Section, Walk, Tiles, GapsZero;
      TilesWiden(w.items, last, s.offset, w.next);
      GapOnly(m, fileEnd, last, s.offset);
      GapsAppend(m, [], w.items, last, s.offset, w.next);
      assert [] + w.items == w.items;
      TilesAppend(w.items, rest.items, last, w.next, rest.next);
      GapsAppend(m, w.items, rest.items, last, w.next, rest.next);
    }
  }

  lemma GapOnly(m: seq<Byte>, fileEnd: nat, p: nat, q: nat)
    requires fileEnd <= |m| && GapOk(m, fileEnd, p, q)
    ensures GapsZero(m, [], p, q)
  {
  }

  lemma {:induction false} ItemsEnd(m: seq<Byte>, fileEnd: nat, visit: Visitor, t: U2, offset: nat, count: nat)
    requires fileEnd <= |m| && offset <= fileEnd && Items(m, fileEnd, visit, t, offset, count).Some?
    ensures Items(m, fileEnd, visit, t, offset, count).value.next <= fileEnd
    decreases count
  {
    if count > 0 {
      ItemsEnd(m, fileEnd, visit, t, visit(t, AlignUp(offset, Alignment(t))).value, count - 1);
    }
  }

  lemma {:induction false} WalkEndsAfter(m: seq<Byte>, fileEnd: nat, visit: Visitor, h: Header, sections: seq<MapItem>,
                                         n: nat, last: nat)
    requires fileEnd <= |m| && h.Complete() && n < |sections| && h.fileSize <= fileEnd
    requires GoodMap(h, fileEnd, sections) && sections[|sections| - 1].itemType != HEADER_ITEM
    requires Walk(m, fileEnd, visit, h, sections, n, last).Some?
    ensures Walk(m, fileEnd, visit, h, sections, n, last).value.next <= fileEnd
    decreases |sections| - n
  {
    var s := sections[n];
    var w := Section(m, fileEnd, visit, h, |sections|, s).value;
    if n + 1 < |sections| {
      WalkEndsAfter(m, fileEnd, visit, h, sections, n + 1, w.next);
    } else if s.itemType != MAP_LIST {
      ItemsEnd(m, fileEnd, visit, s.itemType, s.offset, s.size);
    }
  }

  /** The last end of an accepted file is in the file, however large the header says it is: the
      header stands at the start, so something follows it. */
  lemma WalkEndsInFile(m: seq<Byte>, fileEnd: nat, visit: Visitor, h: Header, sections: seq<MapItem>)
    requires fileEnd <= |m| && h.Complete() && GoodMap(h, fileEnd, sections) && h.fileSize <= fileEnd
    requires Walk(m, fileEnd, visit, h, sections, 0, 0).Some?
    ensures Walk(m, fileEnd, visit, h, sections, 0, 0).value.next <= fileEnd
  {
    var n := |sections|;
    HeaderComesFirst(m, fileEnd, visit, h, sections, 0, 0, n - 1);
    WalkEndsAfter(m, fileEnd, visit, h, sections, 0, 0);
  }

  lemma {:induction false} HeaderComesFirst(m: seq<Byte>, fileEnd: nat, visit: Visitor, h: Header,
                                            sections: seq<MapItem>, n: nat, last: nat, k: nat)
    requires fileEnd <= |m| && h.Complete() && GoodMap(h, fileEnd, sections) && n <= k == |sections| - 1
    requires Walk(m, fileEnd, visit, h, sections, n, last).Some?
    ensures k > 0 && sections[k].itemType != HEADER_ITEM
    decreases |sections| - n
  {
    if n < k {
      HeaderComesFirst(m, fileEnd, visit, h, sections, n + 1,
                       Section(m, fileEnd, visit, h, |sections|, sections[n]).value.next, k);
    } else {
      assert HasType(sections, HEADER_ITEM) && HasType(sections, MAP_LIST);
      if k > 0 {
        assert sections[k - 1].offset < sections[k].offset;
      }
    }
  }

  /** In a tiling any earlier item ends before any later one starts. */
  lemma {:induction false} TilesDisjoint(items: seq<Item>, p: nat, q: nat, i: nat, j: nat)
    requires Tiles(items, p, q) && i < j < |items|
    ensures p <= items[i].start < items[i].end <= items[j].start < items[j].end <= q
  {
    if i > 0 {
      TilesDisjoint(items[1..], items[0].end, q, i - 1, j - 1);
    } else {
      TilesBounds(items[1..], items[0].end, q, j - 1);
    }
  }

  lemma {:induction false} TilesBounds(items: seq<Item>, p: nat, q: nat, i: nat)
    requires Tiles(items, p, q) && i < |items|
    ensures p <= items[i].start < items[i].end <= q
  {
    if i > 0 {
      TilesBounds(items[1..], items[0].end, q, i - 1);
    } else {
      TilesEnd(items[1..], items[0].end, q);
    }
  }

  lemma {:induction false} TilesEnd(items: seq<Item>, p: nat, q: nat)
    requires Tiles(items, p, q)
    ensures p <= q
  {
    if items != [] {
      TilesEnd(items[1..], items[0].end, q);
    }
  }

  // ----- The layouts that are accepted -----

  datatype Span = Span(start: nat, end: nat)

  /** Where an item of this type starts behind p: at once, or at the next multiple of four over zeros. */
  ghost predicate Follows(m: seq<Byte>, t: U2, p: nat, start: nat) {
    if Packed(t) then start == p
    else p <= start < p + 4 && start % 4 == 0 && Zeros(m, p, start)
  }

  ghost predicate Zeros(m: seq<Byte>, p: nat, q: nat) {
    forall i | p <= i < q :: i < |m| && m[i] == 0
  }

  function EndOf(offset: nat, spans: seq<Span>): nat {
    if spans == [] then offset else spans[|spans| - 1].end
  }

  /** Spans that the visitor accepts inside the file, each behind the one before. */
  ghost predicate InARow(m: seq<Byte>, fileEnd: nat, visit: Visitor, t: U2, offset: nat, spans: seq<Span>) {
    forall k | 0 <= k < |spans| ::
      && Follows(m, t, EndOf(offset, spans[..k]), spans[k].start)
      && visit(t, spans[k].start) == Some(spans[k].end) && spans[k].end <= fileEnd
  }

  /** What a section of each type has to look like. */
  ghost predicate SectionLaidOut(m: seq<Byte>, fileEnd: nat, visit: Visitor, h: Header, mapSize: nat, s: MapItem,
                                 spans: seq<Span>)
    requires h.Complete()
  {
    var t := s.itemType;
    && |spans| == s.size
    && (t == HEADER_ITEM ==> s.offset == 0 && spans == [Span(0, h.headerSize)])
    && (t == MAP_LIST ==> s.offset == h.mapOff && spans == [Span(h.mapOff, h.mapOff + 4 + 12 * mapSize)])
    && (IdSection(t) ==>
          s.offset == h.idOff[t] && s.size == h.idSize[t] && InARow(m, fileEnd, visit, t, s.offset, spans))
    && (OnWords(t) || Packed(t) ==>
          && h.dataOff <= s.offset < h.dataOff + h.dataSize && EndOf(s.offset, spans) <= h.dataOff + h.dataSize
          && InARow(m, fileEnd, visit, t, s.offset, spans))
    && IsListed(t)
  }

  /** Where what stands before section k ends; before section n that is last. */
  function EndBefore(sections: seq<MapItem>, spans: seq<seq<Span>>, n: nat, last: nat, k: nat): nat
    requires n <= k < |sections| == |spans|
  {
    if k == n then last else EndOf(sections[k - 1].offset, spans[k - 1])
  }

  /** The sections from the n-th on, one after the other behind last, with zeros between them. */
  ghost predicate LaidOut(m: seq<Byte>, fileEnd: nat, visit: Visitor, h: Header, sections: seq<MapItem>, n: nat,
                          last: nat, spans: seq<seq<Span>>)
    requires h.Complete()
  {
    && |spans| == |sections|
    && forall k | n <= k < |sections| ::
         && SectionLaidOut(m, fileEnd, visit, h, |sections|, sections[k], spans[k])
         && Between(m, fileEnd, EndBefore(sections, spans, n, last, k), sections[k].offset)
  }

  ghost predicate Between(m: seq<Byte>, fileEnd: nat, p: nat, q: nat) {
    p <= q && Zeros(m, p, q) && (p < q ==> q <= fileEnd)
  }

  function ItemsOf(t: U2, spans: seq<Span>): seq<Item> {
    seq(|spans|, i requires 0 <= i < |spans| => Item(t, spans[i].start, spans[i].end))
  }

  function AllItems(sections: seq<MapItem>, spans: seq<seq<Span>>, n: nat): seq<Item>
    requires n <= |spans| == |sections|
    decreases |spans| - n
  {
    if n == |spans| then [] else ItemsOf(sections[n].itemType, spans[n]) + AllItems(sections, spans, n + 1)
  }

  /** The alignment is the one that the type stands for. */
  lemma AlignedFollows(m: seq<Byte>, fileEnd: nat, t: U2, p: nat, start: nat)
    requires fileEnd <= |m| && start < fileEnd && (IdSection(t) || OnWords(t) || Packed(t))
    ensures Follows(m, t, p, start) <==> start == AlignUp(p, Alignment(t)) && GapOk(m, fileEnd, p, start)
  {
    var up := AlignUp(p, Alignment(t));
    if !Packed(t) && p <= start < p + 4 && start % 4 == 0 {
      assert start == up;
    }
  }

  lemma InARowStep(m: seq<Byte>, fileEnd: nat, visit: Visitor, t: U2, offset: nat, spans: seq<Span>)
    requires spans != []
    ensures InARow(m, fileEnd, visit, t, offset, spans) <==>
      && Follows(m, t, offset, spans[0].start) && visit(t, spans[0].start) == Some(spans[0].end)
      && spans[0].end <= fileEnd && InARow(m, fileEnd, visit, t, spans[0].end, spans[1..])
    ensures EndOf(offset, spans) == EndOf(spans[0].end, spans[1..])
  {
    hide Follows;
    var rest := spans[1..];
    assert EndOf(offset, spans[..0]) == offset;
    forall k | 0 < k < |spans| ensures EndOf(offset, spans[..k]) == EndOf(spans[0].end, rest[..k - 1]) {
      assert k > 1 ==> rest[..k - 1][k - 2] == spans[..k][k - 1];
    }
    if InARow(m, fileEnd, visit, t, spans[0].end, rest) {
      forall k | 0 < k < |spans|
        ensures Follows(m, t, EndOf(offset, spans[..k]), spans[k].start)
        ensures visit(t, spans[k].start) == Some(spans[k].end) && spans[k].end <= fileEnd
      {
        assert rest[k - 1] == spans[k];
      }
    }
    if InARow(m, fileEnd, visit, t, offset, spans) {
      assert visit(t, spans[0].start) == Some(spans[0].end);
      forall k | 0 <= k < |rest|
        ensures Follows(m, t, EndOf(spans[0].end, rest[..k]), rest[k].start)
        ensures visit(t, rest[k].start) == Some(rest[k].end) && rest[k].end <= fileEnd
      {
        assert rest[k] == spans[k + 1];
      }
    }
  }

  /** Items in a row are the ones that are walked. */
  lemma {:induction false} RowIsWalked(m: seq<Byte>, fileEnd: nat, visit: Visitor, t: U2, offset: nat, spans: seq<Span>)
    requires fileEnd <= |m| && Advances(visit) && (IdSection(t) || OnWords(t) || Packed(t))
    requires InARow(m, fileEnd, visit, t, offset, spans)
    ensures Items(m, fileEnd, visit, t, offset, |spans|) == Some(Walked(ItemsOf(t, spans), EndOf(offset, spans)))
    decreases |spans|
  {
    if spans == [] {
      assert ItemsOf(t, spans) == [];
    } else {
      InARowStep(m, fileEnd, visit, t, offset, spans);
      AlignedFollows(m, fileEnd, t, offset, spans[0].start);
      RowIsWalked(m, fileEnd, visit, t, spans[0].end, spans[1..]);
      hide InARow, Follows, GapOk, AlignUp;
      assert [Item(t, spans[0].start, spans[0].end)] + ItemsOf(t, spans[1..]) == ItemsOf(t, spans);
    }
  }

  /** And the other way round. */
  lemma {:induction false} WalkedIsRow(m: seq<Byte>, fileEnd: nat, visit: Visitor, t: U2, offset: nat, count: nat)
    returns (spans: seq<Span>)
    requires fileEnd <= |m| && Advances(visit) && (IdSection(t) || OnWords(t) || Packed(t))
    requires Items(m, fileEnd, visit, t, offset, count).Some?
    ensures |spans| == count && InARow(m, fileEnd, visit, t, offset, spans)
    decreases count
  {
    if count == 0 {
      spans := [];
    } else {
      var start := AlignUp(offset, Alignment(t));
      var end := visit(t, start).value;
      var rest := WalkedIsRow(m, fileEnd, visit, t, end, count - 1);
      spans := [Span(start, end)] + rest;
      assert spans[1..] == rest;
      AlignedFollows(m, fileEnd, t, offset, start);
      hide InARow, Follows, GapOk, AlignUp;
      InARowStep(m, fileEnd, visit, t, offset, spans);
    }
  }

  lemma SectionIsWalked(m: seq<Byte>, fileEnd: nat, visit: Visitor, h: Header, mapSize: nat, s: MapItem, spans: seq<Span>)
    requires fileEnd <= |m| && h.Complete() && Advances(visit)
    requires SectionLaidOut(m, fileEnd, visit, h, mapSize, s, spans)
    ensures Section(m, fileEnd, visit, h, mapSize, s) == Some(Walked(ItemsOf(s.itemType, spans), EndOf(s.offset, spans)))
  {
    TypesAreListed(s.itemType);
    hide InARow, Items;
    if s.itemType == HEADER_ITEM || s.itemType == MAP_LIST {
      assert ItemsOf(s.itemType, spans) == [Item(s.itemType, spans[0].start, spans[0].end)];
    } else {
      RowIsWalked(m, fileEnd, visit, s.itemType, s.offset, spans);
    }
  }

  lemma WalkedIsSection(m: seq<Byte>, fileEnd: nat, visit: Visitor, h: Header, mapSize: nat, s: MapItem)
    returns (spans: seq<Span>)
    requires fileEnd <= |m| && h.Complete() && Advances(visit) && Section(m, fileEnd, visit, h, mapSize, s).Some?
    ensures SectionLaidOut(m, fileEnd, visit, h, mapSize, s, spans)
  {
    TypesAreListed(s.itemType);
    hide InARow, Items;
    if s.itemType == HEADER_ITEM {
      spans := [Span(0, h.headerSize)];
    } else if s.itemType == MAP_LIST {
      spans := [Span(h.mapOff, h.mapOff + 4 + 12 * mapSize)];
    } else {
      spans := WalkedIsRow(m, fileEnd, visit, s.itemType, s.offset, s.size);
      RowIsWalked(m, fileEnd, visit, s.itemType, s.offset, spans);
    }
  }

  lemma LaidOutStep(m: seq<Byte>, fileEnd: nat, visit: Visitor, h: Header, sections: seq<MapItem>, n: nat, last: nat,
                    spans: seq<seq<Span>>)
    requires h.Complete() && n < |sections| == |spans|
    ensures LaidOut(m, fileEnd, visit, h, sections, n, last, spans) <==>
      && SectionLaidOut(m, fileEnd, visit, h, |sections|, sections[n], spans[n])
      && Between(m, fileEnd, last, sections[n].offset)
      && LaidOut(m, fileEnd, visit, h, sections, n + 1, EndOf(sections[n].offset, spans[n]), spans)
  {
    hide SectionLaidOut, Between, EndOf;
    var end := EndOf(sections[n].offset, spans[n]);
    forall k | n < k < |sections|
      ensures EndBefore(sections, spans, n, last, k) == EndBefore(sections, spans, n + 1, end, k)
    {
    }
    assert EndBefore(sections, spans, n, last, n) == last;
    assert spans[n] == spans[n];
  }

  /** A file that is laid out is walked, and its items are those of the layout. */
  lemma {:induction false} LayoutIsWalked(m: seq<Byte>, fileEnd: nat, visit: Visitor, h: Header, sections: seq<MapItem>,
                                          n: nat, last: nat, spans: seq<seq<Span>>)
    requires fileEnd <= |m| && h.Complete() && Advances(visit) && n <= |sections|
    requires LaidOut(m, fileEnd, visit, h, sections, n, last, spans)
    ensures var w := Walk(m, fileEnd, visit, h, sections, n, last);
      w.Some? && w.value.items == AllItems(sections, spans, n)
    decreases |sections| - n
  {
    if n < |sections| {
      LaidOutStep(m, fileEnd, visit, h, sections, n, last, spans);
      SectionIsWalked(m, fileEnd, visit, h, |sections|, sections[n], spans[n]);
      LayoutIsWalked(m, fileEnd, visit, h, sections, n + 1, EndOf(sections[n].offset, spans[n]), spans);
      hide LaidOut, SectionLaidOut, Section, ItemsOf, EndOf;
    }
  }

  lemma {:induction false} WalkedIsLayout(m: seq<Byte>, fileEnd: nat, visit: Visitor, h: Header, sections: seq<MapItem>,
                                          n: nat, last: nat) returns (spans: seq<seq<Span>>)
    requires fileEnd <= |m| && h.Complete() && Advances(visit) && n <= |sections|
    requires Walk(m, fileEnd, visit, h, sections, n, last).Some?
    ensures LaidOut(m, fileEnd, visit, h, sections, n, last, spans)
    decreases |sections| - n
  {
    if n == |sections| {
      spans := seq(n, _ => []);
    } else {
      var first := WalkedIsSection(m, fileEnd, visit, h, |sections|, sections[n]);
      SectionIsWalked(m, fileEnd, visit, h, |sections|, sections[n], first);
      var end := EndOf(sections[n].offset, first);
      var rest := WalkedIsLayout(m, fileEnd, visit, h, sections, n + 1, end);
      spans := rest[n := first];
      hide SectionLaidOut, Section, ItemsOf, EndOf;
      SameFrom(m, fileEnd, visit, h, sections, n, end, rest, first);
      LaidOutStep(m, fileEnd, visit, h, sections, n, last, spans);
    }
  }

  /** What stands in section n does not matter behind it. */
  lemma SameFrom(m: seq<Byte>, fileEnd: nat, visit: Visitor, h: Header, sections: seq<MapItem>, n: nat, last: nat,
                 spans: seq<seq<Span>>, first: seq<Span>)
    requires h.Complete() && n < |sections| && LaidOut(m, fileEnd, visit, h, sections, n + 1, last, spans)
    ensures LaidOut(m, fileEnd, visit, h, sections, n + 1, last, spans[n := first])
  {
    hide SectionLaidOut, Between, EndOf;
    var spans' := spans[n := first];
    forall k | n + 1 <= k < |sections|
      ensures spans'[k] == spans[k]
      ensures EndBefore(sections, spans', n + 1, last, k) == EndBefore(sections, spans, n + 1, last, k)
    {
    }
  }

  ghost predicate HasLayout(m: seq<Byte>, fileEnd: nat, visit: Visitor, h: Header, sections: seq<MapItem>)
    requires h.Complete()
  {
    exists spans :: LaidOut(m, fileEnd, visit, h, sections, 0, 0, spans)
  }

  /** The entries are those of the items in the data section, whatever the layout. */
  ghost predicate IndexesLayout(m: seq<Byte>, fileEnd: nat, visit: Visitor, h: Header, sections: seq<MapItem>,
                                es: seq<Entry>)
    requires h.Complete()
  {
    forall spans | LaidOut(m, fileEnd, visit, h, sections, 0, 0, spans) :: es == DataEntries(AllItems(sections, spans, 0))
  }

  /** The walk accepts exactly the files that are laid out, with the items of their one layout. */
  lemma WalkedExactly(m: seq<Byte>, fileEnd: nat, visit: Visitor, h: Header, sections: seq<MapItem>)
    requires fileEnd <= |m| && h.Complete() && Advances(visit)
    ensures Walk(m, fileEnd, visit, h, sections, 0, 0).Some? <==> HasLayout(m, fileEnd, visit, h, sections)
    ensures forall spans | LaidOut(m, fileEnd, visit, h, sections, 0, 0, spans) ::
      Walk(m, fileEnd, visit, h, sections, 0, 0).value.items == AllItems(sections, spans, 0)
  {
    forall spans | LaidOut(m, fileEnd, visit, h, sections, 0, 0, spans)
      ensures Walk(m, fileEnd, visit, h, sections, 0, 0).Some?
      ensures Walk(m, fileEnd, visit, h, sections, 0, 0).value.items == AllItems(sections, spans, 0)
    {
      LayoutIsWalked(m, fileEnd, visit, h, sections, 0, 0, spans);
    }
    if Walk(m, fileEnd, visit, h, sections, 0, 0).Some? {
      var spans := WalkedIsLayout(m, fileEnd, visit, h, sections, 0, 0);
    }
  }

  // ----- What the visitors accepted -----

  /** Every item but the header and the map was accepted by its visitor, up to its end in the file. */
  ghost predicate Visited(visit: Visitor, fileEnd: nat, items: seq<Item>) {
    forall k | 0 <= k < |items| && items[k].itemType != HEADER_ITEM && items[k].itemType != MAP_LIST ::
      visit(items[k].itemType, items[k].start) == Some(items[k].end) && items[k].end <= fileEnd
  }

  lemma VisitedAppend(visit: Visitor, fileEnd: nat, a: seq<Item>, b: seq<Item>)
    requires Visited(visit, fileEnd, a) && Visited(visit, fileEnd, b)
    ensures Visited(visit, fileEnd, a + b)
  {
  }

  lemma {:induction false} ItemsVisited(m: seq<Byte>, fileEnd: nat, visit: Visitor, t: U2, offset: nat, count: nat)
    requires fileEnd <= |m| && Items(m, fileEnd, visit, t, offset, count).Some?
    ensures Visited(visit, fileEnd, Items(m, fileEnd, visit, t, offset, count).value.items)
    decreases count
  {
    if count > 0 {
      var start := AlignUp(offset, Alignment(t));
      var end := visit(t, start).value;
      ItemsVisited(m, fileEnd, visit, t, end, count - 1);
      VisitedAppend(visit, fileEnd, [Item(t, start, end)], Items(m, fileEnd, visit, t, end, count - 1).value.items);
    }
  }

  /** An accepted walk has asked the visitors about every item. */
  lemma {:induction false} WalkVisited(m: seq<Byte>, fileEnd: nat, visit: Visitor, h: Header, sections: seq<MapItem>,
                                       n: nat, last: nat)
    requires fileEnd <= |m| && h.Complete() && n <= |sections|
    requires Walk(m, fileEnd, visit, h, sections, n, last).Some?
    ensures Visited(visit, fileEnd, Walk(m, fileEnd, visit, h, sections, n, last).value.items)
    decreases |sections| - n
  {
    if n < |sections| {
      var s := sections[n];
      var w := Section(m, fileEnd, visit, h, |sections|, s).value;
      if s.itemType != HEADER_ITEM && s.itemType != MAP_LIST {
        ItemsVisited(m, fileEnd, visit, s.itemType, s.offset, s.size);
      }
      assert Visited(visit, fileEnd, w.items);
      WalkVisited(m, fileEnd, visit, h, sections, n + 1, w.next);
      hide Section, Visited;
      VisitedAppend(visit, fileEnd, w.items, Walk(m, fileEnd, visit, h, sections, n + 1, w.next).value.items);
    }
  }

  // ----- The data map an accepted walk leaves behind -----

  /** The entries of the items of the itemized data types, in order. */
  function DataEntries(items: seq<Item>): seq<Entry> {
    if items == [] then []
    else if OnWords(items[0].itemType) || Packed(items[0].itemType) then
      [Entry(items[0].start, items[0].itemType)] + DataEntries(items[1..])
    else DataEntries(items[1..])
  }

  lemma {:induction false} DataEntriesAppend(a: seq<Item>, b: seq<Item>)
    ensures DataEntries(a + b) == DataEntries(a) + DataEntries(b)
  {
    if a == [] {
      assert a + b == b;
    } else {
      assert (a + b)[1..] == a[1..] + b;
      DataEntriesAppend(a[1..], b);
    }
  }

  function Prepend(done: seq<Item>, o: Option<Walked>): Option<Walked> {
    match o
    case None => None
    case Some(w) => Some(Walked(done + w.items, w.next))
  }

  lemma PrependStep(done: seq<Item>, item: Item, o: Option<Walked>)
    ensures Prepend(done, Prepend([item], o)) == Prepend(done + [item], o)
    ensures DataEntries(done + [item]) ==
      if IsItemizedDataType(item.itemType) then DataEntries(done) + [Entry(item.start, item.itemType)] else DataEntries(done)
  {
    if o.Some? {
      assert done + ([item] + o.value.items) == done + [item] + o.value.items;
    }
    DataEntriesAppend(done, [item]);
  }

  ghost predicate AllBelow(es: seq<Entry>, p: nat) {
    forall i | 0 <= i < |es| :: es[i].offset < p
  }

  /** The optional update; the item is above all entries, so nothing is dropped. */
  method Record(dataMap: DexDataMap, item: Item)
    requires dataMap.Valid() && AllBelow(dataMap.Entries(), item.start)
    requires item.start < item.end && item.start < 0x1_0000_0000
    requires IsItemizedDataType(item.itemType) ==> dataMap.count < dataMap.max
    modifies dataMap, dataMap.offsets, dataMap.types
    ensures dataMap.Valid() && AllBelow(dataMap.Entries(), item.end)
    ensures dataMap.Entries() == old(dataMap.Entries()) +
      (if IsItemizedDataType(item.itemType) then [Entry(item.start, item.itemType)] else [])
  {
    hide Ascending;
    if IsItemizedDataType(item.itemType) {
      dataMap.Add(item.start, item.itemType);
    }
  }

  lemma BelowHigher(es: seq<Entry>, p: nat, q: nat)
    requires AllBelow(es, p) && p <= q
    ensures AllBelow(es, q)
  {
  }

  /** iterateSectionWithOptionalUpdate; the data map is updated for the itemized types. */
  method IterateSection(m: seq<Byte>, fileEnd: nat, visit: Visitor, t: U2, start: nat, count: nat, dataMap: DexDataMap)
    returns (ok: bool, next: nat)
    requires fileEnd <= |m| && fileEnd < 0x8000_0000 && Advances(visit)
    requires dataMap.Valid() && AllBelow(dataMap.Entries(), start)
    requires IsItemizedDataType(t) ==> dataMap.count + count <= dataMap.max
    modifies dataMap, dataMap.offsets, dataMap.types
    ensures dataMap.Valid()
    ensures var r := Items(m, fileEnd, visit, t, start, count);
      && (ok <==> r.Some?)
      && (ok ==> next == r.value.next && dataMap.Entries() == old(dataMap.Entries()) + DataEntries(r.value.items)
                 && AllBelow(dataMap.Entries(), next))
  {
    hide Items, DataEntries, Prepend, AllBelow, GapOk;
    var alignment := Alignment(t);
    var offset := start;
    ghost var done: seq<Item> := [];
    NoItems(m, fileEnd, visit, t, start);
    ghost var total := Items(m, fileEnd, visit, t, start, count);
    PrependNothing(total);
    var i := 0;
    while i < count
      invariant 0 <= i <= count
      invariant total == Prepend(done, Items(m, fileEnd, visit, t, offset, count - i))
      invariant dataMap.Valid() && AllBelow(dataMap.Entries(), offset)
      invariant dataMap.Entries() == old(dataMap.Entries()) + DataEntries(done)
      invariant IsItemizedDataType(t) ==> dataMap.count + (count - i) <= dataMap.max
    {
      var newOffset := AlignUp(offset, alignment);
      ItemsStep(m, fileEnd, visit, t, offset, count - i, done);
      if offset < newOffset {
        var padded := SkipZeros(m, fileEnd, offset, newOffset);
        if !padded {
          return false, 0;
        }
        BelowHigher(dataMap.Entries(), offset, newOffset);
        offset := newOffset;
      }
      var visited := visit(t, newOffset);
      if visited.None? {
        return false, 0;
      }
      if visited.value > fileEnd {
        return false, 0;
      }
      var item := Item(t, newOffset, visited.value);
      hide AlignUp, Ascending;
      Record(dataMap, item);
      done := done + [item];
      offset := visited.value;
      i := i + 1;
    }
    NoItems(m, fileEnd, visit, t, offset);
    PrependEnds(done, offset);
    return true, offset;
  }

  lemma NoItems(m: seq<Byte>, fileEnd: nat, visit: Visitor, t: U2, offset: nat)
    requires fileEnd <= |m|
    ensures Items(m, fileEnd, visit, t, offset, 0) == Some(Walked([], offset)) && DataEntries([]) == []
  {
  }

  lemma PrependNothing(o: Option<Walked>)
    ensures Prepend([], o) == o
  {
    if o.Some? {
      assert [] + o.value.items == o.value.items;
    }
  }

  lemma PrependEnds(done: seq<Item>, next: nat)
    ensures Prepend(done, Some(Walked([], next))) == Some(Walked(done, next))
  {
    assert done + [] == done;
  }

  /** The next item, or the reason why there is none. */
  lemma ItemsStep(m: seq<Byte>, fileEnd: nat, visit: Visitor, t: U2, offset: nat, count: nat, done: seq<Item>)
    requires fileEnd <= |m| && count > 0
    ensures var start := AlignUp(offset, Alignment(t));
      var total := Prepend(done, Items(m, fileEnd, visit, t, offset, count));
      && (!GapOk(m, fileEnd, offset, start) || visit(t, start).None? || visit(t, start).value > fileEnd ==> total == None)
      && (offset == start ==> GapOk(m, fileEnd, offset, start))
      && (GapOk(m, fileEnd, offset, start) && visit(t, start).Some? && visit(t, start).value <= fileEnd ==>
            var end := visit(t, start).value;
            var item := Item(t, start, end);
            && total == Prepend(done + [item], Items(m, fileEnd, visit, t, end, count - 1))
            && DataEntries(done + [item]) ==
                 DataEntries(done) + if IsItemizedDataType(t) then [Entry(start, t)] else [])
  {
    var start := AlignUp(offset, Alignment(t));
    if GapOk(m, fileEnd, offset, start) && visit(t, start).Some? && visit(t, start).value <= fileEnd {
      var end := visit(t, start).value;
      PrependStep(done, Item(t, start, end), Items(m, fileEnd, visit, t, end, count - 1));
    }
  }

  /** The loops over padding. */
  method SkipZeros(m: seq<Byte>, fileEnd: nat, p: nat, q: nat) returns (ok: bool)
    requires fileEnd <= |m| && p <= q
    ensures ok <==> GapOk(m, fileEnd, p, q)
  {
    if p < q && q > fileEnd {
      return false;
    }
    var i := p;
    while i < q
      invariant p <= i <= q && (p < q ==> q <= fileEnd) && (i <= |m| ==> ZeroRange(m, p, i))
    {
      if m[i] != 0 {
        return false;
      }
      i := i + 1;
    }
    return true;
  }

  /** One case of the switch in swapEverythingButHeaderAndMap. */
  method VisitSection(m: seq<Byte>, fileEnd: nat, visit: Visitor, h: Header, mapSize: nat, s: MapItem, dataMap: DexDataMap)
    returns (ok: bool, next: nat)
    requires fileEnd <= |m| && fileEnd < 0x8000_0000 && Advances(visit) && h.Complete()
    requires dataMap.Valid() && AllBelow(dataMap.Entries(), s.offset)
    requires IsItemizedDataType(s.itemType) ==> dataMap.count + s.size <= dataMap.max
    requires h.headerSize > 0
    modifies dataMap, dataMap.offsets, dataMap.types
    ensures dataMap.Valid()
    ensures var r := Section(m, fileEnd, visit, h, mapSize, s);
      && (ok <==> r.Some?)
      && (ok ==> next == r.value.next && dataMap.Entries() == old(dataMap.Entries()) + DataEntries(r.value.items)
                 && AllBelow(dataMap.Entries(), next))
  {
    var t := s.itemType;
    next := 0;
    if t == HEADER_ITEM {
      ok := s.size == 1 && s.offset == 0;
      next := h.headerSize;
    } else if t == MAP_LIST {
      ok := s.size == 1 && s.offset == h.mapOff;
      next := s.offset + 4 + 12 * mapSize;
    } else if IsIdType(t) {
      if s.offset != h.idOff[t] || s.size != h.idSize[t] {
        return false, 0;
      }
      ok, next := IterateSection(m, fileEnd, visit, t, s.offset, s.size, dataMap);
    } else if IsItemizedDataType(t) {
      var dataEnd := h.dataOff as int + h.dataSize;
      if s.offset < h.dataOff || s.offset >= dataEnd {
        return false, 0;
      }
      ok, next := IterateSection(m, fileEnd, visit, t, s.offset, s.size, dataMap);
      if ok && next > dataEnd {
        ok := false;
      }
    } else {
      ok := false;
    }
  }

  lemma {:induction false} EntriesOfOneType(items: seq<Item>, t: U2)
    requires forall k | 0 <= k < |items| :: items[k].itemType == t
    ensures |DataEntries(items)| == if IsItemizedDataType(t) then |items| else 0
  {
    if items != [] {
      EntriesOfOneType(items[1..], t);
    }
  }

  /** swapEverythingButHeaderAndMap after swapMap: the data map gets an entry for every
      item of an itemized type, none is dropped, and the capacity suffices. */
  method SwapEverythingButHeaderAndMap(m: seq<Byte>, fileEnd: nat, visit: Visitor, h: Header, sections: seq<MapItem>,
      dataMap: DexDataMap) returns (ok: bool)
    requires fileEnd <= |m| && fileEnd < 0x8000_0000 && Advances(visit) && h.Complete() && h.headerSize > 0
    requires dataMap.Valid() && dataMap.count == 0 && dataMap.max == DataItems(sections)
    modifies dataMap, dataMap.offsets, dataMap.types
    ensures dataMap.Valid()
    ensures var r := Walk(m, fileEnd, visit, h, sections, 0, 0);
      (ok <==> r.Some?) && (ok ==> dataMap.Entries() == DataEntries(r.value.items))
  {
    var lastOffset: nat := 0;
    ghost var done: seq<Item> := [];
    ghost var total := Walk(m, fileEnd, visit, h, sections, 0, 0);
    assert total == Prepend([], total) by {
      if total.Some? {
        assert [] + total.value.items == total.value.items;
      }
    }
    assert sections[..0] == [];
    for n := 0 to |sections|
      invariant dataMap.Valid() && AllBelow(dataMap.Entries(), lastOffset)
      invariant total == Prepend(done, Walk(m, fileEnd, visit, h, sections, n, lastOffset))
      invariant dataMap.Entries() == DataEntries(done)
      invariant dataMap.count <= DataItems(sections[..n])
    {
      var s := sections[n];
      if lastOffset < s.offset {
        var padded := SkipZeros(m, fileEnd, lastOffset, s.offset);
        if !padded {
          return false;
        }
      } else if lastOffset > s.offset {
        return false;
      }
      DataItemsStep(sections, n);
      DataItemsGrow(sections, n + 1);
      ghost var r := Section(m, fileEnd, visit, h, |sections|, s);
      ghost var rest := if r.Some? then Walk(m, fileEnd, visit, h, sections, n + 1, r.value.next) else None;
      assert Walk(m, fileEnd, visit, h, sections, n, lastOffset) == (if r.Some? then Prepend(r.value.items, rest) else None);
      hide Walk, DataItems, Section;
      var okay, next := VisitSection(m, fileEnd, visit, h, |sections|, s, dataMap);
      if !okay {
        return false;
      }
      SectionTiles(m, fileEnd, visit, h, |sections|, s);
      EntriesOfOneType(r.value.items, s.itemType);
      PrependSection(done, r.value.items, rest);
      hide Prepend, DataEntries;
      done := done + r.value.items;
      lastOffset := next;
    }
    assert done + [] == done;
    return true;
  }

  lemma PrependSection(done: seq<Item>, items: seq<Item>, o: Option<Walked>)
    ensures Prepend(done, Prepend(items, o)) == Prepend(done + items, o)
    ensures DataEntries(done + items) == DataEntries(done) + DataEntries(items)
  {
    if o.Some? {
      assert done + (items + o.value.items) == done + items + o.value.items;
    }
    DataEntriesAppend(done, items);
  }

  lemma {:induction false} EntryIsItem(items: seq<Item>, offset: nat, t: U2)
    ensures Entry(offset, t) in DataEntries(items) <==>
      exists k :: 0 <= k < |items| && items[k].start == offset && items[k].itemType == t && (OnWords(t) || Packed(t))
  {
    if items != [] {
      EntryIsItem(items[1..], offset, t);
      assert forall k | 0 < k < |items| :: items[k] == items[1..][k - 1];
    }
  }

  /** What the index knows was accepted by the visitor of its type. */
  lemma EntryVisited(visit: Visitor, fileEnd: nat, items: seq<Item>, offset: nat, t: U2)
    requires Visited(visit, fileEnd, items) && Entry(offset, t) in DataEntries(items) && t != MAP_LIST
    ensures visit(t, offset).Some? && visit(t, offset).value <= fileEnd
  {
    EntryIsItem(items, offset, t);
  }

  /** After an accepted walk a lookup answers the type at exactly the starts of the data
      section items and -1 everywhere else. */
  lemma {:induction false} LookupFindsItems(items: seq<Item>, offset: nat, r: int)
    requires Answers(DataEntries(items), offset, r)
    ensures r == -1 || (r >= 0 && exists k :: 0 <= k < |items| && items[k].start == offset && items[k].itemType == r)
    ensures r == -1 <==>
      forall k | 0 <= k < |items| && (OnWords(items[k].itemType) || Packed(items[k].itemType)) :: items[k].start != offset
  {
    var es := DataEntries(items);
    if r >= 0 {
      var i :| 0 <= i < |es| && es[i].offset == offset && es[i].itemType == r;
      assert es[i] in es;
      EntryIsItem(items, offset, es[i].itemType);
    } else {
      forall k | 0 <= k < |items| && (OnWords(items[k].itemType) || Packed(items[k].itemType))
        ensures items[k].start != offset
      {
        EntryIsItem(items, offset, items[k].itemType);
      }
    }
  }

  /** The two passes of dexSwapAndVerify over the map, and what an accepted file looks like. */
  method SwapMapAndItems(m: seq<Byte>, fileEnd: nat, visit: Visitor, h: Header, sections: seq<MapItem>)
    returns (ok: bool, dataMap: DexDataMap?)
    requires fileEnd <= |m| && fileEnd < 0x8000_0000 && Advances(visit) && h.Complete() && h.headerSize > 0
    ensures ok <==> GoodMap(h, fileEnd, sections) && HasLayout(m, fileEnd, visit, h, sections)
    ensures ok <==> GoodMap(h, fileEnd, sections) && Walk(m, fileEnd, visit, h, sections, 0, 0).Some?
    ensures ok ==> dataMap != null && dataMap.Valid()
    ensures ok ==> IndexesLayout(m, fileEnd, visit, h, sections, dataMap.Entries())
    ensures ok ==>
      var w := Walk(m, fileEnd, visit, h, sections, 0, 0).value;
      && Tiles(w.items, 0, w.next) && GapsZero(m, w.items, 0, w.next) && Aligned(w.items)
      && dataMap.Entries() == DataEntries(w.items) && Visited(visit, fileEnd, w.items)
      && (h.fileSize <= fileEnd ==> w.next <= fileEnd)
  {
    ok := false;
    dataMap := SwapMap(h, fileEnd, sections);
    hide GoodMap, Walk, Tiles, GapsZero, Aligned, Visited;
    if dataMap == null {
      return;
    }
    ok := SwapEverythingButHeaderAndMap(m, fileEnd, visit, h, sections, dataMap);
    WalkedExactly(m, fileEnd, visit, h, sections);
    hide HasLayout, LaidOut, AllItems;
    if ok {
      WalkTiles(m, fileEnd, visit, h, sections, 0, 0);
      WalkVisited(m, fileEnd, visit, h, sections, 0, 0);
      if h.fileSize <= fileEnd {
        WalkEndsInFile(m, fileEnd, visit, h, sections);
      }
    }
  }
}
