/** The types of a map_item (libdex/DexFile.h). */
module ItemTypes {
  import opened Memory

  const HEADER_ITEM: U2 := 0x0000
  const STRING_ID_ITEM: U2 := 0x0001
  const TYPE_ID_ITEM: U2 := 0x0002
  const PROTO_ID_ITEM: U2 := 0x0003
  const FIELD_ID_ITEM: U2 := 0x0004
  const METHOD_ID_ITEM: U2 := 0x0005
  const CLASS_DEF_ITEM: U2 := 0x0006
  const MAP_LIST: U2 := 0x1000
  const TYPE_LIST: U2 := 0x1001
  const ANNOTATION_SET_REF_LIST: U2 := 0x1002
  const ANNOTATION_SET_ITEM: U2 := 0x1003
  const CLASS_DATA_ITEM: U2 := 0x2000
  const CODE_ITEM: U2 := 0x2001
  const STRING_DATA_ITEM: U2 := 0x2002
  const DEBUG_INFO_ITEM: U2 := 0x2003
  const ANNOTATION_ITEM: U2 := 0x2004
  const ENCODED_ARRAY_ITEM: U2 := 0x2005
  const ANNOTATIONS_DIRECTORY_ITEM: U2 := 0x2006
}

/** The verification-time index of data section items (libdex/DexDataMap.cpp). */
module DataMap {
  import opened Memory

  datatype Entry = Entry(offset: nat, itemType: U2)

  ghost predicate Ascending(es: seq<Entry>) {
    forall i, j | 0 <= i < j < |es| :: es[i].offset < es[j].offset
  }

  /** What a lookup answers: the type at the offset, or -1. */
  ghost predicate Answers(es: seq<Entry>, offset: nat, r: int) {
    (r == -1 && forall i | 0 <= i < |es| :: es[i].offset != offset)
    || (r >= 0 && exists i :: 0 <= i < |es| && es[i].offset == offset && es[i].itemType == r)
  }

  class DexDataMap {
    var count: nat
    const max: nat
    const offsets: array<U4>
    const types: array<U2>

    ghost predicate Valid()
      reads this, offsets, types
    {
      && offsets.Length == types.Length == max && offsets as object != types && count <= max
      && Ascending(Entries())
    }

    ghost function Entries(): (es: seq<Entry>)
      requires offsets.Length == types.Length == max && count <= max
      reads this, offsets, types
      ensures |es| == count && forall i | 0 <= i < count :: es[i] == Entry(offsets[i], types[i])
    {
      var os, ts := offsets[..count], types[..count];
      seq(count, i requires 0 <= i < |os| && i < |ts| => Entry(os[i], ts[i]))
    }

    /** dexDataMapAlloc. */
    constructor (maxCount: nat)
      ensures Valid() && count == 0 && max == maxCount
      ensures fresh(offsets) && fresh(types)
    {
      count := 0;
      max := maxCount;
      offsets := new U4[maxCount];
      types := new U2[maxCount];
    }

    /** dexDataMapAdd: an offset that is not greater than the last one is dropped. */
    method Add(offset: U4, itemType: U2)
      requires Valid() && count < max
      modifies this, offsets, types
      ensures Valid()
      ensures var es := old(Entries());
        Entries() == if es != [] && es[|es| - 1].offset >= offset then es else es + [Entry(offset, itemType)]
    {
      if count != 0 && offsets[count - 1] >= offset {
        return;
      }
      offsets[count] := offset;
      types[count] := itemType;
      count := count + 1;
    }

    /** dexDataMapGet. */
    method Get(offset: U4) returns (r: int)
      requires Valid()
      ensures Answers(Entries(), offset, r)
    {
      var lo: int, hi: int := 0, count - 1;
      ghost var es := Entries();
      while hi >= lo
        invariant 0 <= lo <= count && -1 <= hi < count
        invariant forall i | 0 <= i < lo :: es[i].offset < offset
        invariant forall i | hi < i < count :: es[i].offset > offset
      {
        var guessIdx := (lo + hi) / 2;
        var guess := offsets[guessIdx];
        assert guess == es[guessIdx].offset;
        if offset < guess {
          hi := guessIdx - 1;
        } else if offset > guess {
          lo := guessIdx + 1;
        } else {
          assert es[guessIdx].itemType == types[guessIdx];
          return types[guessIdx];
        }
      }
      return -1;
    }

    /** dexDataMapVerify. */
    method Verify(offset: U4, itemType: U2) returns (ok: bool)
      requires Valid()
      ensures ok <==> Entry(offset, itemType) in Entries()
    {
      var found := Get(offset);
      ok := found == itemType;
      OneTypePerOffset(Entries(), offset, found);
    }

    /** dexDataMapVerify0Ok. */
    method Verify0Ok(offset: U4, itemType: U2) returns (ok: bool)
      requires Valid()
      ensures ok <==> offset == 0 || Entry(offset, itemType) in Entries()
    {
      if offset == 0 {
        return true;
      }
      ok := Verify(offset, itemType);
    }
  }

  /** In an ascending list an offset has one answer. */
  lemma OneTypePerOffset(es: seq<Entry>, offset: nat, r: int)
    requires Ascending(es) && Answers(es, offset, r)
    ensures forall t: U2 :: Entry(offset, t) in es <==> t == r
  {
    forall t: U2
      ensures Entry(offset, t) in es <==> t == r
    {
      if Entry(offset, t) in es {
        var i :| 0 <= i < |es| && es[i] == Entry(offset, t);
        var j :| 0 <= j < |es| && es[j].offset == offset && es[j].itemType == r;
        assert i == j;
      }
    }
  }
}
