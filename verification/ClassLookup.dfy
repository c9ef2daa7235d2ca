/** NUL-terminated strings, and the hash that both indexes use. */
module CStrings {
  import opened Memory

  function CString(m: seq<Byte>, p: nat): seq<Byte>
    requires p <= |m|
    decreases |m| - p
  {
    if p == |m| || m[p] == 0 then [] else [m[p]] + CString(m, p + 1)
  }

  predicate Terminated(m: seq<Byte>, p: nat) {
    p <= |m| && p + |CString(m, p)| < |m|
  }

  /** hash * 31 + c in 32 bits, over the bytes. */
  function Hash(s: seq<Byte>, h: U4): U4
    decreases |s|
  {
    if s == [] then h else Hash(s[1..], Mix(h, s[0]))
  }

  function Mix(h: U4, c: Byte): U4 {
    var x: int := h * 31 + c; x % 0x1_0000_0000
  }

  function Power31(n: nat): (r: nat)
    ensures r > 0
  {
    if n == 0 then 1 else 31 * Power31(n - 1)
  }

  /** The bytes as the digits of a number in base 31, the first one most significant. */
  function Base31(s: seq<Byte>): nat {
    if s == [] then 0 else 31 * Base31(s[..|s| - 1]) + s[|s| - 1] as int
  }

  /** The hash is that number, with the start value as one more digit in front, in 32 bits. */
  lemma {:induction false} HashIsBase31(s: seq<Byte>, h: U4)
    ensures Hash(s, h) == (h * Power31(|s|) + Base31(s)) % 0x1_0000_0000
    decreases |s|
  {
    if s != [] {
      var front, last := s[..|s| - 1], s[|s| - 1];
      HashIsBase31(front, h);
      HashOfMore(front, last, h);
      assert front + [last] == s;
      var x: int := h * Power31(|front|);
      assert h * Power31(|s|) == 31 * x by {
        TimesPower(h, |s|);
      }
      OneMoreDigit(x + Base31(front), last);
    }
  }

  lemma TimesPower(h: nat, n: nat)
    requires n > 0
    ensures h * Power31(n) == 31 * (h * Power31(n - 1))
  {
  }

  lemma {:induction false} HashOfMore(s: seq<Byte>, c: Byte, h: U4)
    ensures Hash(s + [c], h) == Mix(Hash(s, h), c)
    decreases |s|
  {
    if s == [] {
      assert [] + [c] == [c] && [c][1..] == [];
    } else {
      assert (s + [c])[1..] == s[1..] + [c];
      HashOfMore(s[1..], c, Mix(h, s[0]));
    }
  }

  lemma OneMoreDigit(x: nat, c: Byte)
    ensures Mix(x % 0x1_0000_0000, c) == (31 * x + c) % 0x1_0000_0000
  {
  }

  /** strcmp(...) == 0. */
  method SameString(m: seq<Byte>, p: nat, q: nat) returns (same: bool)
    requires Terminated(m, p) && Terminated(m, q)
    ensures same <==> CString(m, p) == CString(m, q)
  {
    var i: nat, j: nat := p, q;
    while m[i] == m[j] && m[i] != 0
      invariant Terminated(m, i) && Terminated(m, j)
      invariant CString(m, p) == CString(m, q) <==> CString(m, i) == CString(m, j)
      decreases |m| - i
    {
      SameHeads(m, i, j);
      i, j := i + 1, j + 1;
    }
    assert m[i] != 0 ==> CString(m, i)[0] == m[i];
    assert m[j] != 0 ==> CString(m, j)[0] == m[j];
    return m[i] == m[j];
  }

  lemma SameHeads(m: seq<Byte>, i: nat, j: nat)
    requires i < |m| && j < |m| && m[i] == m[j] != 0
    ensures CString(m, i) == CString(m, j) <==> CString(m, i + 1) == CString(m, j + 1)
  {
    assert CString(m, i)[1..] == CString(m, i + 1);
    assert CString(m, j)[1..] == CString(m, j + 1);
  }
}

/** The class index of libdex/DexFile.cpp: classLookupAdd, dexCreateClassLookup, dexFindClass. */
module ClassLookup {
  import opened Memory
  import opened CStrings
  import Probing
  import Words

  /** A class definition, in file order: the offsets of its descriptor and of itself. */
  datatype ClassDef = ClassDef(descriptorOff: nat, defOff: nat)

  /** An entry of the table; a descriptor offset of zero is an empty slot. */
  datatype Entry = Entry(hash: U4, descriptorOffset: nat, classDefOffset: nat)

  ghost predicate Named(m: seq<Byte>, classes: seq<ClassDef>) {
    forall i | 0 <= i < |classes| :: classes[i].descriptorOff > 0 && Terminated(m, classes[i].descriptorOff)
  }

  ghost function Name(m: seq<Byte>, c: ClassDef): seq<Byte>
    requires Terminated(m, c.descriptorOff)
  {
    CString(m, c.descriptorOff)
  }

  ghost function EntryOf(m: seq<Byte>, c: ClassDef): Entry
    requires Terminated(m, c.descriptorOff)
  {
    Entry(Hash(Name(m, c), 1), c.descriptorOff, c.defOff)
  }

  ghost function Homes(m: seq<Byte>, classes: seq<ClassDef>, n: nat): (homes: seq<nat>)
    requires Named(m, classes) && n > 0
    ensures |homes| == |classes| && forall i | 0 <= i < |homes| :: homes[i] == Hash(Name(m, classes[i]), 1) % n
  {
    seq(|classes|, i requires 0 <= i < |classes| => Hash(Name(m, classes[i]), 1) % n)
  }

  /** Which classes have the given descriptor. */
  ghost function Hits(m: seq<Byte>, classes: seq<ClassDef>, name: seq<Byte>): (hits: seq<bool>)
    requires Named(m, classes)
    ensures |hits| == |classes| && forall i | 0 <= i < |hits| :: hits[i] == (Name(m, classes[i]) == name)
  {
    seq(|classes|, i requires 0 <= i < |classes| => Name(m, classes[i]) == name)
  }

  /** classDescriptorHash. */
  method ClassDescriptorHash(m: seq<Byte>, str: nat) returns (hash: U4)
    requires Terminated(m, str)
    ensures hash == Hash(CString(m, str), 1)
  {
    hash := 1;
    var p := str;
    while m[p] != 0
      invariant Terminated(m, p)
      invariant Hash(CString(m, p), hash) == Hash(CString(m, str), 1)
      decreases |m| - p
    {
      assert CString(m, p)[1..] == CString(m, p + 1);
      var x: int := hash * 31 + m[p];
      hash := x % 0x1_0000_0000;
      p := p + 1;
    }
  }

  class DexClassLookup {
    const numEntries: nat
    const table: array<Entry>
    ghost var t: Probing.Table

    /** The first classes are in the table, and nothing else. */
    ghost predicate Holds(m: seq<Byte>, classes: seq<ClassDef>)
      reads this, table
    {
      && table.Length == numEntries == |t.slots| && Words.IsPowerOf2(numEntries)
      && Named(m, classes) && Probing.Valid(t, Homes(m, classes, numEntries))
      && (forall s | 0 <= s < numEntries :: SlotIs(m, classes, t.slots[s], table[s]))
    }

    static ghost predicate SlotIs(m: seq<Byte>, classes: seq<ClassDef>, i: int, e: Entry)
      requires Named(m, classes)
    {
      if i == Probing.FREE then e.descriptorOffset == 0
      else 0 <= i < |classes| && e == EntryOf(m, classes[i])
    }

    /** The calloc in dexCreateClassLookup. */
    constructor (numEntries: nat, ghost m: seq<Byte>, ghost classes: seq<ClassDef>)
      requires (numEntries == 0 || Words.IsPowerOf2(numEntries)) && Named(m, classes)
      ensures this.numEntries == numEntries == table.Length && t.dist == [] && fresh(table)
      ensures numEntries > 0 ==> Holds(m, classes)
    {
      this.numEntries := numEntries;
      table := new Entry[numEntries](_ => Entry(0, 0, 0));
      t := Probing.Table(Probing.AllFree(numEntries), []);
      new;
      if numEntries > 0 {
        Probing.EmptyTable(numEntries, Homes(m, classes, numEntries));
      }
    }

    method Add(m: seq<Byte>, stringOff: nat, classDefOff: nat, ghost classes: seq<ClassDef>) returns (probes: nat)
      requires Holds(m, classes) && |t.dist| < |classes| && |t.dist| < numEntries
      requires classes[|t.dist|] == ClassDef(stringOff, classDefOff)
      modifies this, table
      ensures Holds(m, classes) && t.dist == old(t.dist) + [probes]
    {
      hide Probing.Valid, Probing.At, Probing.TakenBefore;
      ghost var homes := Homes(m, classes, numEntries);
      ghost var k := |t.dist|;
      var hash := ClassDescriptorHash(m, stringOff);
      var idx;
      idx, probes := FreeSlot(hash, m, classes);
      Probing.AddKeeps(t, homes, probes);
      table[idx] := Entry(hash, stringOff, classDefOff);
      t := Probing.Added(t, homes[k], probes);
      assert forall s | 0 <= s < numEntries && s != idx :: SlotIs(m, classes, old(t.slots[s]), old(table[s]));
    }

    /** The probe loop of classLookupAdd. */
    method FreeSlot(hash: U4, ghost m: seq<Byte>, ghost classes: seq<ClassDef>) returns (idx: nat, probes: nat)
      requires Holds(m, classes) && |t.dist| < numEntries
      ensures var home := hash % numEntries;
        && probes < numEntries && idx == Probing.At(home, probes, numEntries)
        && Probing.TakenBefore(t, home, probes) && t.slots[idx] == Probing.FREE
    {
      hide Probing.Valid, Probing.At, Probing.TakenBefore, Words.And, Words.IsPowerOf2, Hash, CString, Power31, Base31;
      ghost var home := hash % numEntries;
      var mask := numEntries - 1;
      Probing.StartProbe(hash, numEntries);
      idx := Words.And(hash, mask);
      probes := 0;
      ghost var free := Probing.FindsFree(t, Homes(m, classes, numEntries), home);
      Probing.TakenMore(t, home, 0);
      while table[idx].descriptorOffset != 0
        invariant probes <= free < numEntries && idx == Probing.At(home, probes, numEntries)
        invariant Probing.TakenBefore(t, home, probes)
        decreases free - probes
      {
        assert SlotIs(m, classes, t.slots[idx], table[idx]);
        Probing.NextProbe(home, probes, numEntries);
        Probing.TakenMore(t, home, probes);
        idx := Words.And(idx + 1, mask);
        probes := probes + 1;
      }
      assert SlotIs(m, classes, t.slots[idx], table[idx]);
    }

    /** dexFindClass gives the first class of that descriptor in file order, or none. */
    method Find(m: seq<Byte>, descriptor: nat, ghost classes: seq<ClassDef>) returns (r: Option<nat>)
      requires Holds(m, classes) && |t.dist| == |classes| < numEntries && Terminated(m, descriptor)
      ensures var i := Probing.First(Hits(m, classes, CString(m, descriptor)));
        r == if i == -1 then None else Some(classes[i].defOff)
    {
      hide Probing.Valid, Probing.First, Probing.At, Probing.Missed, Words.And, Words.IsPowerOf2, Hash, CString;
      ghost var homes, n := Homes(m, classes, numEntries), numEntries;
      ghost var hits := Hits(m, classes, CString(m, descriptor));
      var hash := ClassDescriptorHash(m, descriptor);
      ghost var home := hash % n;
      var mask := numEntries - 1;
      Probing.StartProbe(hash, n);
      var idx := Words.And(hash, mask);
      ghost var free := Probing.FindsFree(t, homes, home);
      ghost var d: nat := 0;
      Probing.MissedMore(t, hits, home, 0);
      while true
        invariant d <= free < n && idx == Probing.At(home, d, n) && Probing.Missed(t, hits, home, d)
        decreases free - d
      {
        Probing.ProbeIsLinearSearch(t, homes, hits, home, d);
        assert SlotIs(m, classes, t.slots[idx], table[idx]);
        var offset := table[idx].descriptorOffset;
        if offset == 0 {
          return None;
        }
        if table[idx].hash == hash {
          var same := SameString(m, offset, descriptor);
          if same {
            return Some(table[idx].classDefOffset);
          }
        }
        Probing.NextProbe(home, d, n);
        Probing.MissedMore(t, hits, home, d);
        idx := Words.And(idx + 1, mask);
        d := d + 1;
      }
    }
  }

  /** Each class definition takes 32 bytes, and files are shorter than 2^31. */
  const MAX_CLASSES := 0x400_0000

  /** dexCreateClassLookup. A file that defines no class gets a table without a slot, in which there
      is nowhere to probe. */
  method CreateClassLookup(m: seq<Byte>, classes: seq<ClassDef>) returns (lookup: DexClassLookup)
    requires |classes| <= MAX_CLASSES && Named(m, classes)
    ensures fresh(lookup) && fresh(lookup.table)
    ensures classes == [] ==> lookup.numEntries == lookup.table.Length == 0
    ensures classes != [] ==> lookup.Holds(m, classes) && |lookup.t.dist| == |classes| < lookup.numEntries
  {
    var numEntries := Words.RoundUpPower2(|classes| * 2);
    lookup := new DexClassLookup(numEntries, m, classes);
    for i := 0 to |classes|
      invariant classes != [] ==> lookup.Holds(m, classes)
      invariant |lookup.t.dist| == i
      invariant fresh(lookup) && fresh(lookup.table)
    {
      var probes := lookup.Add(m, classes[i].descriptorOff, classes[i].defOff, classes);
    }
  }

  /** Looking a descriptor up in the index of a file that defines classes: the first class in file
      order with that descriptor, or none if there is no such class. */
  method FindClass(m: seq<Byte>, classes: seq<ClassDef>, descriptor: nat) returns (defOff: Option<nat>)
    requires 0 < |classes| <= MAX_CLASSES && Named(m, classes) && Terminated(m, descriptor)
    ensures defOff.None? <==>
      forall i | 0 <= i < |classes| :: CString(m, classes[i].descriptorOff) != CString(m, descriptor)
    ensures forall i | FirstNamed(m, classes, CString(m, descriptor), i) :: defOff == Some(classes[i].defOff)
  {
    hide CString, Hash, Words.IsPowerOf2, DexClassLookup.Holds;
    var lookup := CreateClassLookup(m, classes);
    defOff := lookup.Find(m, descriptor, classes);
    ghost var hits := Hits(m, classes, CString(m, descriptor));
    assert forall i | 0 <= i < |classes| :: hits[i] == (CString(m, classes[i].descriptorOff) == CString(m, descriptor));
  }

  ghost predicate FirstNamed(m: seq<Byte>, classes: seq<ClassDef>, name: seq<Byte>, i: int)
    requires Named(m, classes)
  {
    && 0 <= i < |classes| && CString(m, classes[i].descriptorOff) == name
    && forall k | 0 <= k < i :: CString(m, classes[k].descriptorOff) != name
  }
}
