/** The name index of a Zip archive (libdex/ZipArchive.cpp): walking the central directory
    (section 4.3.12 of PKWARE's APPNOTE), filling the hash table, and looking names up. */
module ZipArchive {
  import opened Memory
  import Leb128
  import CStrings
  import Probing
  import Words

  const CDE_SIGNATURE: U4 := 0x02014b50
  const CDE_LEN := 46
  const CDE_METHOD := 10
  const CDE_MOD_WHEN := 12
  const CDE_CRC := 16
  const CDE_COMP_LEN := 20
  const CDE_UNCOMP_LEN := 24
  const CDE_NAME_LEN := 28
  const CDE_EXTRA_LEN := 30
  const CDE_COMMENT_LEN := 32
  const CDE_LOCAL_OFFSET := 42
  const ZIP_ENTRY_ADJ := 10000

  /** The mapped directory, and where it starts in the file. */
  datatype Directory = Directory(start: nat, end: nat, fileOffset: nat)

  /** A signature and a name may be read before they are known to lie in the directory. */
  ghost predicate Mapped(m: seq<Byte>, dir: Directory) {
    dir.start <= dir.end && dir.end + 0x1_0000 <= |m|
  }

  // ----- Records -----

  function NameLen(m: seq<Byte>, p: nat): U2
    requires p + CDE_LEN <= |m|
  {
    Load2(m, p + CDE_NAME_LEN)
  }

  function Next(m: seq<Byte>, p: nat): nat
    requires p + CDE_LEN <= |m|
  {
    p + CDE_LEN + NameLen(m, p) + Load2(m, p + CDE_EXTRA_LEN) + Load2(m, p + CDE_COMMENT_LEN)
  }

  predicate RecordOk(m: seq<Byte>, dir: Directory, p: nat)
    requires p + CDE_LEN <= |m|
  {
    && Load4(m, p) == CDE_SIGNATURE && p + CDE_LEN <= dir.end
    && Leb128.AsSigned(Load4(m, p + CDE_LOCAL_OFFSET)) < dir.fileOffset
    && Next(m, p) <= dir.end
  }

  /** The positions of the next n records from p on. */
  ghost function Walk(m: seq<Byte>, dir: Directory, p: nat, n: nat): Option<seq<nat>>
    requires Mapped(m, dir) && p <= dir.end
    decreases n
  {
    if n == 0 then Some([])
    else if !RecordOk(m, dir, p) then None
    else match Walk(m, dir, Next(m, p), n - 1) case None => None case Some(rest) => Some([p] + rest)
  }

  /** A record that lies in the directory, with a signature and an offset that is none behind the
      directory: an offset of 2^31 or more is negative. */
  ghost predicate RecordIn(m: seq<Byte>, dir: Directory, p: nat) {
    && p + 46 <= |m| && m[p..p + 4] == [0x50, 0x4b, 0x01, 0x02] && RecordEnd(m, p) <= dir.end
    && (Load4(m, p + 42) >= 0x8000_0000 || Load4(m, p + 42) < dir.fileOffset)
  }

  /** A record is 46 bytes and what its three lengths say. */
  ghost function RecordEnd(m: seq<Byte>, p: nat): nat
    requires p + 46 <= |m|
  {
    p + 46 + Load2(m, p + 28) + Load2(m, p + 30) + Load2(m, p + 32)
  }

  /** Records without a gap, from p on. */
  ghost predicate Chained(m: seq<Byte>, dir: Directory, p: nat, recs: seq<nat>)
    decreases |recs|
  {
    recs == [] || (recs[0] == p && RecordIn(m, dir, p) && Chained(m, dir, RecordEnd(m, p), recs[1..]))
  }

  lemma RecordInIsOk(m: seq<Byte>, dir: Directory, p: nat)
    requires p + CDE_LEN <= |m|
    ensures RecordIn(m, dir, p) <==> RecordOk(m, dir, p)
    ensures Next(m, p) == RecordEnd(m, p)
  {
    assert m[p..p + 4] == [m[p], m[p + 1], m[p + 2], m[p + 3]];
  }

  /** The walk succeeds exactly over such records. */
  lemma {:induction false} WalkIsChain(m: seq<Byte>, dir: Directory, p: nat, recs: seq<nat>)
    requires Mapped(m, dir) && p <= dir.end
    ensures Walk(m, dir, p, |recs|) == Some(recs) <==> Chained(m, dir, p, recs)
    decreases |recs|
  {
    if recs != [] {
      RecordInIsOk(m, dir, p);
      hide RecordIn, RecordEnd;
      if RecordOk(m, dir, p) {
        WalkIsChain(m, dir, Next(m, p), recs[1..]);
        assert recs == [recs[0]] + recs[1..];
      }
    }
  }

  lemma {:induction false} WalkLength(m: seq<Byte>, dir: Directory, p: nat, n: nat)
    requires Mapped(m, dir) && p <= dir.end && Walk(m, dir, p, n).Some?
    ensures |Walk(m, dir, p, n).value| == n
    decreases n
  {
    if n > 0 {
      WalkLength(m, dir, Next(m, p), n - 1);
    }
  }

  /** A directory is refused exactly if there are no such records. */
  lemma RefusedExactly(m: seq<Byte>, dir: Directory, n: nat)
    requires Mapped(m, dir)
    ensures Walk(m, dir, dir.start, n).None? <==> forall recs | |recs| == n :: !Chained(m, dir, dir.start, recs)
  {
    hide Walk, Chained;
    if Walk(m, dir, dir.start, n).Some? {
      var recs := Walk(m, dir, dir.start, n).value;
      WalkLength(m, dir, dir.start, n);
      WalkIsChain(m, dir, dir.start, recs);
      assert Chained(m, dir, dir.start, recs);
    } else {
      forall recs: seq<nat> | |recs| == n ensures !Chained(m, dir, dir.start, recs) {
        WalkIsChain(m, dir, dir.start, recs);
      }
    }
  }

  ghost function Ahead(done: seq<nat>, o: Option<seq<nat>>): Option<seq<nat>> {
    match o case None => None case Some(rest) => Some(done + rest)
  }

  lemma WalkStep(m: seq<Byte>, dir: Directory, done: seq<nat>, p: nat, n: nat)
    requires Mapped(m, dir) && p <= dir.end && n > 0
    ensures !RecordOk(m, dir, p) ==> Ahead(done, Walk(m, dir, p, n)) == None
    ensures RecordOk(m, dir, p) ==> Ahead(done, Walk(m, dir, p, n)) == Ahead(done + [p], Walk(m, dir, Next(m, p), n - 1))
  {
    if RecordOk(m, dir, p) {
      var o := Walk(m, dir, Next(m, p), n - 1);
      if o.Some? {
        assert done + ([p] + o.value) == done + [p] + o.value;
      }
    }
  }

  lemma WalkEnds(m: seq<Byte>, dir: Directory, done: seq<nat>, p: nat)
    requires Mapped(m, dir) && p <= dir.end
    ensures Ahead(done, Walk(m, dir, p, 0)) == Some(done)
  {
    assert done + [] == done;
  }

  lemma NothingAhead(o: Option<seq<nat>>)
    ensures Ahead([], o) == o
  {
    if o.Some? {
      assert [] + o.value == o.value;
    }
  }

  /** What dexZipGetEntryInfo reports about the record at p. */
  datatype Info = Info(compression: U2, modWhen: U4, crc: U4, compLen: U4, uncompLen: U4)

  function InfoAt(m: seq<Byte>, p: nat): Info
    requires p + CDE_LEN <= |m|
  {
    Info(Load2(m, p + CDE_METHOD), Load4(m, p + CDE_MOD_WHEN), Load4(m, p + CDE_CRC), Load4(m, p + CDE_COMP_LEN),
         Load4(m, p + CDE_UNCOMP_LEN))
  }

  // ----- Names -----

  /** A record whose name is readable. */
  predicate At(m: seq<Byte>, p: nat) {
    p + CDE_LEN <= |m| && p + CDE_LEN + NameLen(m, p) <= |m|
  }

  function Name(m: seq<Byte>, p: nat): seq<Byte>
    requires At(m, p)
  {
    m[p + CDE_LEN..p + CDE_LEN + NameLen(m, p)]
  }

  ghost predicate AllAt(m: seq<Byte>, recs: seq<nat>) {
    forall i | 0 <= i < |recs| :: At(m, recs[i])
  }

  ghost function Homes(m: seq<Byte>, recs: seq<nat>, n: nat): (homes: seq<nat>)
    requires AllAt(m, recs) && n > 0
    ensures |homes| == |recs| && forall i | 0 <= i < |homes| :: homes[i] == CStrings.Hash(Name(m, recs[i]), 0) % n
  {
    seq(|recs|, i requires 0 <= i < |recs| => CStrings.Hash(Name(m, recs[i]), 0) % n)
  }

  /** Which records have the given name. */
  ghost function Hits(m: seq<Byte>, recs: seq<nat>, name: seq<Byte>): (hits: seq<bool>)
    requires AllAt(m, recs)
    ensures |hits| == |recs| && forall i | 0 <= i < |hits| :: hits[i] == (Name(m, recs[i]) == name)
  {
    seq(|recs|, i requires 0 <= i < |recs| => Name(m, recs[i]) == name)
  }

  method ComputeHash(m: seq<Byte>, str: nat, len: nat) returns (hash: U4)
    requires str + len <= |m|
    ensures hash == CStrings.Hash(m[str..str + len], 0)
  {
    hash := 0;
    ghost var whole := m[str..str + len];
    for i := 0 to len
      invariant CStrings.Hash(whole[i..], hash) == CStrings.Hash(whole, 0)
    {
      assert whole[i..][0] == m[str + i] && whole[i..][1..] == whole[i + 1..];
      var x: int := hash * 31 + m[str + i];
      hash := x % 0x1_0000_0000;
    }
  }

  // ----- The archive -----

  /** The name is a null pointer, or points into the directory. */
  datatype Slot = Empty | Taken(name: nat, nameLen: nat)

  class Archive {
    const m: seq<Byte>
    const dir: Directory
    const hashTableSize: nat
    const hashTable: array<Slot>
    ghost var t: Probing.Table
    ghost var recs: seq<nat>

    /** The table has exactly the records in recs, in the order of the directory. */
    ghost predicate Holds()
      reads this, hashTable
    {
      && hashTable.Length == hashTableSize == |t.slots| && Words.IsPowerOf2(hashTableSize)
      && AllAt(m, recs) && |t.dist| == |recs| && Probing.Valid(t, Homes(m, recs, hashTableSize))
      && (forall s | 0 <= s < hashTableSize :: SlotIs(m, recs, t.slots[s], hashTable[s]))
    }

    static ghost predicate SlotIs(m: seq<Byte>, recs: seq<nat>, i: int, slot: Slot)
      requires AllAt(m, recs)
    {
      if i == Probing.FREE then slot == Empty
      else 0 <= i < |recs| && slot == Taken(recs[i] + CDE_LEN, NameLen(m, recs[i]))
    }

    constructor (m: seq<Byte>, dir: Directory, hashTableSize: nat)
      requires Words.IsPowerOf2(hashTableSize)
      ensures this.m == m && this.dir == dir && this.hashTableSize == hashTableSize
      ensures Holds() && recs == [] && fresh(hashTable)
    {
      this.m := m;
      this.dir := dir;
      this.hashTableSize := hashTableSize;
      hashTable := new Slot[hashTableSize](_ => Empty);
      t := Probing.Table(Probing.AllFree(hashTableSize), []);
      recs := [];
      new;
      Probing.EmptyTable(hashTableSize, []);
    }

    /** addToHash. */
    method AddToHash(str: nat, strLen: nat, hash: U4, ghost p: nat)
      requires Holds() && |recs| < hashTableSize && At(m, p)
      requires str == p + CDE_LEN && strLen == NameLen(m, p) && hash == CStrings.Hash(Name(m, p), 0)
      modifies this, hashTable
      ensures Holds() && recs == old(recs) + [p]
    {
      hide Probing.Valid, Probing.At, Probing.TakenBefore;
      ghost var homes, home := Homes(m, recs, hashTableSize), hash % hashTableSize;
      Probing.MoreHomes(t, homes, [home]);
      ghost var d;
      var ent;
      ent, d := FreeSlot(hash);
      ghost var more := homes + [home];
      assert more[|t.dist|] == home;
      Probing.AddKeeps(t, more, d);
      hashTable[ent] := Taken(str, strLen);
      t := Probing.Added(t, home, d);
      recs := recs + [p];
      assert Homes(m, recs, hashTableSize) == more;
      assert forall s | 0 <= s < hashTableSize && s != ent :: SlotIs(m, old(recs), old(t.slots[s]), old(hashTable[s]));
    }

    /** The probe loop of addToHash. */
    method FreeSlot(hash: U4) returns (ent: nat, ghost d: nat)
      requires Holds() && |recs| < hashTableSize
      ensures var home := hash % hashTableSize;
        && d < hashTableSize && ent == Probing.At(home, d, hashTableSize)
        && Probing.TakenBefore(t, home, d) && t.slots[ent] == Probing.FREE
    {
      hide Probing.Valid, Probing.At, Probing.TakenBefore, Words.And;
      ghost var home := hash % hashTableSize;
      Probing.StartProbe(hash, hashTableSize);
      ent := Words.And(hash, hashTableSize - 1);
      d := 0;
      ghost var free := Probing.FindsFree(t, Homes(m, recs, hashTableSize), home);
      Probing.TakenMore(t, home, 0);
      while hashTable[ent] != Empty
        invariant d <= free < hashTableSize && ent == Probing.At(home, d, hashTableSize)
        invariant Probing.TakenBefore(t, home, d)
        decreases free - d
      {
        assert SlotIs(m, recs, t.slots[ent], hashTable[ent]);
        Probing.NextProbe(home, d, hashTableSize);
        Probing.TakenMore(t, home, d);
        ent := Words.And(ent + 1, hashTableSize - 1);
        d := d + 1;
      }
      assert SlotIs(m, recs, t.slots[ent], hashTable[ent]);
    }

    /** dexZipFindEntry: zero, or the slot of the first record of that name. The name is
        given without its terminator. */
    method FindEntry(entryName: seq<Byte>) returns (entry: nat)
      requires Holds() && |recs| < hashTableSize
      ensures var i := Probing.First(Hits(m, recs, entryName));
        if i == -1 then entry == 0
        else 0 <= entry - ZIP_ENTRY_ADJ < hashTableSize && t.slots[entry - ZIP_ENTRY_ADJ] == i
    {
      var nameLen := |entryName|;
      var hash := ComputeHash(entryName, 0, nameLen);
      assert entryName[0..nameLen] == entryName;
      entry := Probe(entryName, hash);
    }

    method Probe(entryName: seq<Byte>, hash: U4) returns (entry: nat)
      requires Holds() && |recs| < hashTableSize && hash == CStrings.Hash(entryName, 0)
      ensures var i := Probing.First(Hits(m, recs, entryName));
        if i == -1 then entry == 0
        else 0 <= entry - ZIP_ENTRY_ADJ < hashTableSize && t.slots[entry - ZIP_ENTRY_ADJ] == i
    {
      hide Probing.Valid, Probing.First, Probing.At, Probing.Missed, Words.And, Words.IsPowerOf2, Name, NameLen, CStrings.Hash;
      hide At;
      ghost var homes, n := Homes(m, recs, hashTableSize), hashTableSize;
      ghost var hits := Hits(m, recs, entryName);
      ghost var home := hash % n;
      assert forall i | 0 <= i < |hits| :: hits[i] ==> homes[i] == home;
      Probing.StartProbe(hash, n);
      var ent := Words.And(hash, hashTableSize - 1);
      ghost var free := Probing.FindsFree(t, homes, home);
      ghost var d: nat := 0;
      Probing.MissedMore(t, hits, home, 0);
      while hashTable[ent] != Empty
        invariant d <= free < n && ent == Probing.At(home, d, n) && Probing.Missed(t, hits, home, d)
        decreases free - d
      {
        Probing.ProbeIsLinearSearch(t, homes, hits, home, d);
        assert SlotIs(m, recs, t.slots[ent], hashTable[ent]);
        var same := SameName(hashTable[ent], entryName, t.slots[ent]);
        if same {
          return ent + ZIP_ENTRY_ADJ;
        }
        Probing.NextProbe(home, d, n);
        Probing.MissedMore(t, hits, home, d);
        ent := Words.And(ent + 1, hashTableSize - 1);
        d := d + 1;
      }
      Probing.ProbeIsLinearSearch(t, homes, hits, home, d);
      assert SlotIs(m, recs, t.slots[ent], hashTable[ent]);
      return 0;
    }

    /** The comparison in dexZipFindEntry. */
    method SameName(slot: Slot, entryName: seq<Byte>, ghost i: int) returns (same: bool)
      requires AllAt(m, recs) && i != Probing.FREE && SlotIs(m, recs, i, slot)
      ensures same <==> Name(m, recs[i]) == entryName
    {
      return slot.nameLen == |entryName| && m[slot.name..slot.name + slot.nameLen] == entryName;
    }

    /** entryToIndex. */
    method EntryToIndex(entry: int) returns (ent: int)
      requires Holds()
      ensures var e := entry - ZIP_ENTRY_ADJ;
        ent == if 0 <= e < hashTableSize && t.slots[e] != Probing.FREE then e else -1
    {
      ent := entry - ZIP_ENTRY_ADJ;
      if 0 <= ent < hashTableSize {
        assert SlotIs(m, recs, t.slots[ent], hashTable[ent]);
      }
      if ent < 0 || ent >= hashTableSize || hashTable[ent] == Empty {
        return -1;
      }
    }

    /** The central directory part of dexZipGetEntryInfo: back from the name to its record. */
    method GetEntryInfo(entry: int) returns (info: Option<Info>)
      requires Holds()
      ensures var e := entry - ZIP_ENTRY_ADJ;
        if 0 <= e < hashTableSize && t.slots[e] != Probing.FREE
        then 0 <= t.slots[e] < |recs| && info == Some(InfoAt(m, recs[t.slots[e]]))
        else info == None
    {
      var ent := EntryToIndex(entry);
      if ent < 0 {
        return None;
      }
      assert SlotIs(m, recs, t.slots[ent], hashTable[ent]);
      var ptr := hashTable[ent].name - CDE_LEN;
      return Some(InfoAt(m, ptr));
    }

    /** What is found by name is described by the first record that has the name. */
    method Lookup(entryName: seq<Byte>) returns (info: Option<Info>)
      requires Holds() && |recs| < hashTableSize
      ensures var i := Probing.First(Hits(m, recs, entryName));
        info == if i == -1 then None else Some(InfoAt(m, recs[i]))
    {
      hide Probing.Valid, Probing.First;
      var entry := FindEntry(entryName);
      if entry == 0 {
        return None;
      }
      info := GetEntryInfo(entry);
    }
  }

  /** parseZipArchive: the archive, unless the directory is malformed. */
  method ParseZipArchive(m: seq<Byte>, dir: Directory, numEntries: U2) returns (archive: Option<Archive>)
    requires Mapped(m, dir)
    ensures archive.None? <==> Walk(m, dir, dir.start, numEntries).None?
    ensures archive.Some? ==>
      var a := archive.value;
      fresh(a) && a.m == m && a.Holds() && Walk(m, dir, dir.start, numEntries) == Some(a.recs) && |a.recs| < a.hashTableSize
  {
    hide Walk, Ahead, RecordOk, Next, Probing.Valid, Words.IsPowerOf2, CStrings.Hash, Archive.SlotIs, AllAt;
    var hashTableSize := Words.RoundUpPower2(1 + numEntries * 4 / 3);
    var a := new Archive(m, dir, hashTableSize);
    var ptr: nat := dir.start;
    ghost var total := Walk(m, dir, ptr, numEntries);
    NothingAhead(total);
    for i := 0 to numEntries
      invariant ptr <= dir.end && a.Holds() && |a.recs| == i && fresh(a) && fresh(a.hashTable)
      invariant total == Ahead(a.recs, Walk(m, dir, ptr, numEntries - i))
    {
      WalkStep(m, dir, a.recs, ptr, numEntries - i);
      NoFailure(m, dir, ptr);
      if Load4(m, ptr) != CDE_SIGNATURE {
        return None;
      }
      if ptr + CDE_LEN > dir.end {
        return None;
      }
      var localHdrOffset := Leb128.AsSigned(Load4(m, ptr + CDE_LOCAL_OFFSET));
      if localHdrOffset >= dir.fileOffset {
        return None;
      }
      var fileNameLen := NameLen(m, ptr);
      var hash := ComputeHash(m, ptr + CDE_LEN, fileNameLen);
      a.AddToHash(ptr + CDE_LEN, fileNameLen, hash, ptr);
      ptr := Next(m, ptr);
      if ptr > dir.end {
        return None;
      }
    }
    WalkEnds(m, dir, a.recs, ptr);
    return Some(a);
  }

  lemma NoFailure(m: seq<Byte>, dir: Directory, p: nat)
    requires p + CDE_LEN <= |m|
    ensures RecordOk(m, dir, p) <==>
      && Load4(m, p) == CDE_SIGNATURE && p + CDE_LEN <= dir.end
      && Leb128.AsSigned(Load4(m, p + CDE_LOCAL_OFFSET)) < dir.fileOffset && Next(m, p) <= dir.end
  {
  }
}
