/** Bits of one 32-bit word. */
module WordBits {
  import opened Memory
  import opened Words

  const ALL_ONES: U4 := 0xFFFF_FFFF

  lemma {:induction false} BitOfAnd(a: nat, b: nat, i: nat)
    ensures Bit(And(a, b), i) == (Bit(a, i) && Bit(b, i))
    decreases i
  {
    BitOfZero(i);
    if a != 0 && b != 0 && i > 0 {
      BitOfAnd(a / 2, b / 2, i - 1);
      assert And(a, b) / 2 == And(a / 2, b / 2);
    }
  }

  /** 1 << b. */
  lemma {:induction false} BitOfPower(b: nat, i: nat)
    ensures Power2(b) > 0 && (Bit(Power2(b), i) <==> i == b)
    decreases b
  {
    if b == 0 {
      if i > 0 {
        BitOfZero(i - 1);
      }
    } else {
      BitOfPower(b - 1, if i == 0 then 0 else i - 1);
      assert Power2(b) / 2 == Power2(b - 1) && Power2(b) % 2 == 0;
    }
  }

  lemma {:induction false} PowerGrows(b: nat, n: nat)
    requires b < n
    ensures 0 < Power2(b) < Power2(n)
  {
    if b < n - 1 {
      PowerGrows(b, n - 1);
    } else {
      BitOfPower(b, 0);
    }
  }

  /** All ones in n bits, less w, is the complement of w. */
  lemma {:induction false} BitOfNot(w: nat, n: nat, i: nat)
    requires w < Power2(n)
    ensures Bit(Power2(n) - 1 - w, i) <==> i < n && !Bit(w, i)
    decreases n
  {
    BitOfZero(i);
    if n > 0 {
      var not := Power2(n) - 1 - w;
      assert not / 2 == Power2(n - 1) - 1 - w / 2 && not % 2 == 1 - w % 2;
      if i > 0 {
        BitOfNot(w / 2, n - 1, i - 1);
      }
    }
  }

  lemma {:induction false} BitIsBelow(w: nat, n: nat, i: nat)
    requires w < Power2(n) && n <= i
    ensures !Bit(w, i)
    decreases n
  {
    if n == 0 {
      BitOfZero(i);
    } else {
      BitIsBelow(w / 2, n - 1, i - 1);
    }
  }

  lemma {:induction false} OrIsBelow(a: nat, b: nat, n: nat)
    requires a < Power2(n) && b < Power2(n)
    ensures Or(a, b) < Power2(n)
    decreases n
  {
    if a != 0 && b != 0 {
      OrIsBelow(a / 2, b / 2, n - 1);
    }
  }

  function OrWord(a: U4, b: U4): U4 {
    PowersOf2();
    OrIsBelow(a, b, 32);
    Or(a, b)
  }

  function Not(w: U4): U4 { ALL_ONES - w }

  /** 1 << b in a word. */
  function BitMask(b: nat): (r: U4)
    requires b < 32
    ensures r > 0
  {
    PowersOf2();
    PowerGrows(b, 32);
    Power2(b)
  }

  lemma BitOfMask(b: nat, i: nat)
    requires b < 32
    ensures Bit(BitMask(b), i) <==> i == b
  {
    BitOfPower(b, i);
  }

  lemma BitOfNotWord(w: U4, i: nat)
    ensures Bit(Not(w), i) <==> i < 32 && !Bit(w, i)
  {
    PowersOf2();
    hide Power2, Bit;
    BitOfNot(w, 32, i);
  }

  /** (1 << n) - 1: the lower bits. */
  lemma BitOfLow(n: nat, i: nat)
    requires n < 32
    ensures Bit(BitMask(n) - 1, i) <==> i < n
  {
    BitOfPower(n, 0);
    BitOfNot(0, n, i);
    BitOfZero(i);
  }

  /** ffs(w) - 1. */
  function LowestBit(w: nat): nat
    requires w > 0
  {
    if w % 2 == 1 then 0 else 1 + LowestBit(w / 2)
  }

  lemma {:induction false} LowestBitIsLeast(w: nat)
    requires w > 0
    ensures Bit(w, LowestBit(w)) && forall i | 0 <= i < LowestBit(w) :: !Bit(w, i)
  {
    if w % 2 == 0 {
      LowestBitIsLeast(w / 2);
      forall i | 0 <= i < LowestBit(w) ensures !Bit(w, i) {
        if i > 0 {
          assert Bit(w, i) == Bit(w / 2, i - 1);
        }
      }
    }
  }

  /** Number of one bits. */
  function BitCount(w: nat): nat {
    if w == 0 then 0 else w % 2 + BitCount(w / 2)
  }

  lemma {:induction false} AndSelf(v: nat)
    ensures And(v, v) == v
  {
    if v > 0 {
      AndSelf(v / 2);
    }
  }

  /** val &= val - 1 removes one bit. */
  lemma {:induction false} DropLowest(v: nat)
    requires v > 0
    ensures And(v, v - 1) < v && BitCount(And(v, v - 1)) == BitCount(v) - 1
  {
    if v % 2 == 1 {
      assert (v - 1) / 2 == v / 2;
      AndSelf(v / 2);
      assert And(v, v - 1) == 2 * (v / 2);
    } else {
      assert (v - 1) / 2 == v / 2 - 1;
      DropLowest(v / 2);
      assert And(v, v - 1) == 2 * And(v / 2, v / 2 - 1);
    }
  }

  lemma {:induction false} FullCount(n: nat)
    ensures Power2(n) > 0 && BitCount(Power2(n) - 1) == n
  {
    if n > 0 {
      FullCount(n - 1);
      assert (Power2(n) - 1) / 2 == Power2(n - 1) - 1;
    }
  }
}

/** The expandable bit vector (vm/BitVector.cpp) as a set of numbers. num >> 5 is num / 32,
    num & 0x1f is num % 32, and (word << 5) | bit is 32 * word + bit. */
module BitVectors {
  import opened Memory
  import opened Words
  import opened WordBits

  // ----- A sequence of words as a set -----

  ghost predicate Has(ws: seq<U4>, n: nat) {
    n / 32 < |ws| && Bit(ws[n / 32], n % 32)
  }

  ghost function SetOf(ws: seq<U4>): (s: set<nat>)
    ensures forall n: nat :: n in s <==> n < 32 * |ws| && Has(ws, n)
  {
    set n: nat | n < 32 * |ws| && Has(ws, n)
  }

  ghost predicate AllBelow(s: set<nat>, n: nat) {
    forall i: nat | i < n :: i in s
  }

  lemma HasAt(ws: seq<U4>, k: nat, b: nat)
    requires k < |ws| && b < 32
    ensures 32 * k + b in SetOf(ws) <==> Bit(ws[k], b)
  {
    assert (32 * k + b) / 32 == k && (32 * k + b) % 32 == b;
  }

  lemma SetBitOf(ws: seq<U4>, k: nat, b: nat)
    requires k < |ws| && b < 32
    ensures SetOf(ws[k := OrWord(ws[k], BitMask(b))]) == SetOf(ws) + {32 * k + b}
  {
    var ws' := ws[k := OrWord(ws[k], BitMask(b))];
    forall i: nat ensures Bit(ws'[k], i) <==> Bit(ws[k], i) || i == b {
      BitOfOr(ws[k], BitMask(b), i);
      BitOfMask(b, i);
    }
    hide Bit, OrWord, BitMask;
    forall n: nat ensures n in SetOf(ws') <==> n in SetOf(ws) + {32 * k + b} {
      if n / 32 == k {
        assert n == 32 * k + n % 32;
      }
    }
  }

  lemma ClearBitOf(ws: seq<U4>, k: nat, b: nat)
    requires k < |ws| && b < 32
    ensures SetOf(ws[k := And(ws[k], Not(BitMask(b)))]) == SetOf(ws) - {32 * k + b}
  {
    var ws' := ws[k := And(ws[k], Not(BitMask(b)))];
    PowersOf2();
    forall i: nat ensures Bit(ws'[k], i) <==> Bit(ws[k], i) && i != b {
      BitOfAnd(ws[k], Not(BitMask(b)), i);
      BitOfNotWord(BitMask(b), i);
      BitOfMask(b, i);
      if i >= 32 {
        BitIsBelow(ws[k], 32, i);
      }
    }
    hide Bit, And, Not, BitMask;
    forall n: nat ensures n in SetOf(ws') <==> n in SetOf(ws) - {32 * k + b} {
      if n / 32 == k {
        assert n == 32 * k + n % 32;
      }
    }
  }

  lemma SetOfZeros(ws: seq<U4>)
    requires forall k | 0 <= k < |ws| :: ws[k] == 0
    ensures SetOf(ws) == {}
  {
    forall i: nat ensures !Bit(0, i) {
      BitOfZero(i);
    }
  }

  lemma SetOfGrown(ws: seq<U4>, ws': seq<U4>)
    requires |ws| <= |ws'| && ws'[..|ws|] == ws && forall k | |ws| <= k < |ws'| :: ws'[k] == 0
    ensures SetOf(ws') == SetOf(ws)
  {
    forall n: nat ensures n in SetOf(ws') <==> n in SetOf(ws) {
      if n / 32 < |ws| {
        assert ws'[n / 32] == ws[n / 32];
      }
      BitOfZero(n % 32);
    }
  }

  /** Different words are different sets. */
  lemma SameSets(ws: seq<U4>, ws': seq<U4>)
    requires |ws| == |ws'| && SetOf(ws) == SetOf(ws')
    ensures ws == ws'
  {
    forall k | 0 <= k < |ws| ensures ws[k] == ws'[k] {
      PowersOf2();
      forall i: nat ensures Bit(ws[k], i) == Bit(ws'[k], i) {
        if i < 32 {
          HasAt(ws, k, i);
          HasAt(ws', k, i);
        } else {
          BitIsBelow(ws[k], 32, i);
          BitIsBelow(ws'[k], 32, i);
        }
      }
      SameBits(ws[k], ws'[k]);
    }
  }

  lemma SetOfOr(ws: seq<U4>, vs: seq<U4>, r: seq<U4>)
    requires |r| == |ws| == |vs| && forall k | 0 <= k < |r| :: r[k] == OrWord(ws[k], vs[k])
    ensures SetOf(r) == SetOf(ws) + SetOf(vs)
  {
    forall n: nat | n < 32 * |r| ensures n in SetOf(r) <==> n in SetOf(ws) + SetOf(vs) {
      BitOfOr(ws[n / 32], vs[n / 32], n % 32);
    }
  }

  lemma SetOfAnd(ws: seq<U4>, vs: seq<U4>, r: seq<U4>)
    requires |r| == |ws| == |vs| && forall k | 0 <= k < |r| :: r[k] == And(ws[k], vs[k])
    ensures SetOf(r) == SetOf(ws) * SetOf(vs)
  {
    forall n: nat | n < 32 * |r| ensures n in SetOf(r) <==> n in SetOf(ws) * SetOf(vs) {
      BitOfAnd(ws[n / 32], vs[n / 32], n % 32);
    }
  }

  // ----- Counting -----

  /** The members below n. */
  ghost function Below(ws: seq<U4>, n: nat): (s: set<nat>)
    ensures forall i :: i in s <==> i < n && i in SetOf(ws)
  {
    set i: nat | i < n && i in SetOf(ws)
  }

  lemma BelowNext(ws: seq<U4>, n: nat)
    ensures |Below(ws, n + 1)| == |Below(ws, n)| + if n in SetOf(ws) then 1 else 0
  {
    if n in SetOf(ws) {
      assert Below(ws, n + 1) == Below(ws, n) + {n};
    } else {
      assert Below(ws, n + 1) == Below(ws, n);
    }
  }

  lemma {:induction false} BelowWord(ws: seq<U4>, k: nat, j: nat)
    requires k < |ws| && j <= 32
    ensures |Below(ws, 32 * k + j)| + BitCount(ShiftRight(ws[k], j)) == |Below(ws, 32 * k)| + BitCount(ws[k])
  {
    if j > 0 {
      BelowWord(ws, k, j - 1);
      BelowNext(ws, 32 * k + j - 1);
      HasAt(ws, k, j - 1);
      ShiftOnce(ws[k], j - 1);
      hide Below, SetOf;
    }
  }

  lemma CountWord(ws: seq<U4>, k: nat)
    requires k < |ws|
    ensures |Below(ws, 32 * (k + 1))| == |Below(ws, 32 * k)| + BitCount(ws[k])
  {
    BelowWord(ws, k, 32);
    PowersOf2();
    hide Power2;
    WordEnds(ws[k], 32);
  }

  lemma {:induction false} WordEnds(w: nat, n: nat)
    requires w < Power2(n)
    ensures ShiftRight(w, n) == 0
    decreases n
  {
    if n > 0 {
      WordEnds(w / 2, n - 1);
    }
  }

  // ----- Operations -----

  /** Numbers of bits are ints, and so is 8 * sizeof(u4) * storageSize. */
  const MAX_WORDS := 0x400_0000

  const GROWTH := 4

  class BitVector {
    const expandable: bool
    var storage: array<U4>

    /** storageSize is storage.Length. */
    function Capacity(): nat
      reads this
    {
      32 * storage.Length
    }

    ghost function Members(): set<nat>
      reads this, storage
    {
      SetOf(storage[..])
    }

    /** dvmAllocBitVector. */
    constructor (startBits: nat, expandable: bool)
      requires startBits <= 32 * MAX_WORDS
      ensures this.expandable == expandable && fresh(storage)
      ensures startBits <= Capacity() < startBits + 32 && Members() == {}
    {
      this.expandable := expandable;
      storage := new U4[(startBits + 31) / 32](_ => 0);
      new;
      SetOfZeros(storage[..]);
    }

    /** realloc and memset. */
    method Resize(newSize: nat)
      requires newSize >= storage.Length
      modifies this
      ensures fresh(storage) && storage.Length == newSize && Members() == old(Members())
    {
      var bigger := new U4[newSize](_ => 0);
      forall k | 0 <= k < storage.Length {
        bigger[k] := storage[k];
      }
      SetOfGrown(storage[..], bigger[..]);
      storage := bigger;
    }

    /** storage[word] |= 1 << bit. */
    method Raise(word: nat, bit: nat)
      requires word < storage.Length && bit < 32
      modifies storage
      ensures Members() == old(Members()) + {32 * word + bit}
    {
      SetBitOf(storage[..], word, bit);
      hide SetOf;
      ghost var ws := storage[..];
      storage[word] := OrWord(storage[word], BitMask(bit));
      assert storage[..] == ws[word := OrWord(ws[word], BitMask(bit))];
    }

    /** dvmAllocBit: the least number that is absent, after at most one growth; or -1 when the
        vector is full and may not grow. */
    method AllocBit() returns (bit: int)
      requires storage.Length + GROWTH <= MAX_WORDS
      modifies this, storage
      ensures var full := AllBelow(old(Members()), old(Capacity()));
        && (bit == -1 <==> full && !expandable)
        && storage.Length == old(storage.Length) + if full && expandable then GROWTH else 0
      ensures bit == -1 ==> Members() == old(Members())
      ensures bit != -1 ==>
        && bit >= 0 && bit !in old(Members()) && AllBelow(old(Members()), bit)
        && Members() == old(Members()) + {bit}
      ensures storage == old(storage) || fresh(storage)
    {
      bit := TryAllocBit();
      if bit != -1 {
        return;
      }
      if !expandable {
        return -1;
      }
      Resize(storage.Length + GROWTH);
      assert old(Capacity()) !in Members();
      bit := TryAllocBit();
    }

    /** The search loop of dvmAllocBit. */
    method TryAllocBit() returns (bit: int)
      requires storage.Length <= MAX_WORDS
      modifies storage
      ensures bit == -1 ==> Members() == old(Members()) && AllBelow(Members(), Capacity())
      ensures bit != -1 ==>
        && 0 <= bit < Capacity() && bit !in old(Members()) && AllBelow(old(Members()), bit)
        && Members() == old(Members()) + {bit}
    {
      for word := 0 to storage.Length
        invariant storage[..] == old(storage[..])
        invariant AllBelow(Members(), 32 * word)
      {
        if storage[word] != ALL_ONES {
          var b := LowestBit(Not(storage[word]));
          LeastAbsent(storage[..], word);
          Raise(word, b);
          return 32 * word + b;
        }
        FullWord(storage[..], word);
      }
      return -1;
    }

    /** dvmSetBit; a number past the end of a fixed vector aborts. */
    method SetBit(num: nat)
      requires num < Capacity() || (expandable && num < 32 * MAX_WORDS)
      modifies this, storage
      ensures Members() == old(Members()) + {num}
      ensures storage.Length == if num < old(Capacity()) then old(storage.Length) else num / 32 + 1
      ensures storage == old(storage) || fresh(storage)
    {
      if num >= Capacity() {
        Resize((num + 1 + 31) / 32);
      }
      Raise(num / 32, num % 32);
    }

    method ClearBit(num: nat)
      requires num < Capacity()
      modifies storage
      ensures Members() == old(Members()) - {num}
    {
      ClearBitOf(storage[..], num / 32, num % 32);
      hide SetOf;
      ghost var ws := storage[..];
      storage[num / 32] := And(storage[num / 32], Not(BitMask(num % 32)));
      assert storage[..] == ws[num / 32 := And(ws[num / 32], Not(BitMask(num % 32)))];
    }

    method ClearAllBits()
      modifies storage
      ensures Members() == {}
    {
      forall k | 0 <= k < storage.Length {
        storage[k] := 0;
      }
      SetOfZeros(storage[..]);
    }

    /** dvmSetInitialBits also clears what is above in the last word that it writes. */
    method SetInitialBits(numBits: nat)
      requires (numBits + 31) / 32 <= storage.Length
      modifies storage
      ensures forall n: nat ::
        n in Members() <==> n < numBits || (n >= 32 * ((numBits + 31) / 32) && n in old(Members()))
      ensures old(Members()) <= Members() <==>
        forall n: nat | numBits <= n < 32 * ((numBits + 31) / 32) :: n !in old(Members())
    {
      ghost var ws := storage[..];
      for idx := 0 to numBits / 32
        invariant forall k | 0 <= k < storage.Length :: storage[k] == if k < idx then ALL_ONES else ws[k]
      {
        storage[idx] := ALL_ONES;
      }
      var remNumBits := numBits % 32;
      if remNumBits != 0 {
        storage[numBits / 32] := BitMask(remNumBits) - 1;
      }
      InitialBits(ws, storage[..], numBits);
    }

    method IsBitSet(num: nat) returns (r: bool)
      requires num < Capacity()
      ensures r <==> num in Members()
    {
      var w, b := storage[num / 32], num % 32;
      MaskIsZero(w, b);
      HasAt(storage[..], num / 32, b);
      return And(w, BitMask(b)) != 0;
    }

    /** dvmCountSetBits is the number of members. */
    method CountSetBits() returns (count: nat)
      ensures count == |Members()|
    {
      count := 0;
      for word := 0 to storage.Length
        invariant count == |Below(storage[..], 32 * word)|
      {
        CountWord(storage[..], word);
        hide Below, BitCount, And;
        var val := storage[word];
        ZeroAndFullCount();
        if val != 0 {
          if val == ALL_ONES {
            count := count + 32;
          } else {
            var ones := CountOnes(val);
            count := count + ones;
          }
        }
      }
      assert Below(storage[..], 32 * storage.Length) == Members();
    }

    /** The inner loop of dvmCountSetBits. */
    static method CountOnes(w: U4) returns (count: nat)
      ensures count == BitCount(w)
    {
      hide BitCount, And;
      ZeroAndFullCount();
      count := 0;
      var val: nat := w;
      while val != 0
        invariant count + BitCount(val) == BitCount(w)
        decreases val
      {
        DropLowest(val);
        val := And(val, val - 1);
        count := count + 1;
      }
    }

    /** dvmCopyBitVector, for vectors of one size. */
    method Copy(src: BitVector)
      requires storage.Length == src.storage.Length
      modifies storage
      ensures Members() == old(src.Members())
    {
      forall k | 0 <= k < storage.Length {
        storage[k] := src.storage[k];
      }
      assert storage[..] == old(src.storage[..]);
    }

    ghost predicate Alike(other: BitVector)
      reads this, other
    {
      storage.Length == other.storage.Length && expandable == other.expandable
    }

    /** dvmIntersectBitVectors; the destination may be one of the sources. */
    method Intersect(src1: BitVector, src2: BitVector) returns (ok: bool)
      modifies storage
      ensures ok <==> Alike(src1) && Alike(src2)
      ensures Members() == if ok then old(src1.Members()) * old(src2.Members()) else old(Members())
    {
      if storage.Length != src1.storage.Length || storage.Length != src2.storage.Length
        || expandable != src1.expandable || expandable != src2.expandable
      {
        return false;
      }
      for idx := 0 to storage.Length
        invariant forall k | 0 <= k < idx :: storage[k] == And(old(src1.storage[k]), old(src2.storage[k]))
        invariant forall k | idx <= k < storage.Length ::
          storage[k] == old(storage[k]) && src1.storage[k] == old(src1.storage[k]) && src2.storage[k] == old(src2.storage[k])
      {
        storage[idx] := And(src1.storage[idx], src2.storage[idx]);
      }
      SetOfAnd(old(src1.storage[..]), old(src2.storage[..]), storage[..]);
      return true;
    }

    /** dvmUnifyBitVectors; the destination may be one of the sources. */
    method Unify(src1: BitVector, src2: BitVector) returns (ok: bool)
      modifies storage
      ensures ok <==> Alike(src1) && Alike(src2)
      ensures Members() == if ok then old(src1.Members()) + old(src2.Members()) else old(Members())
    {
      if storage.Length != src1.storage.Length || storage.Length != src2.storage.Length
        || expandable != src1.expandable || expandable != src2.expandable
      {
        return false;
      }
      for idx := 0 to storage.Length
        invariant forall k | 0 <= k < idx :: storage[k] == OrWord(old(src1.storage[k]), old(src2.storage[k]))
        invariant forall k | idx <= k < storage.Length ::
          storage[k] == old(storage[k]) && src1.storage[k] == old(src1.storage[k]) && src2.storage[k] == old(src2.storage[k])
      {
        storage[idx] := OrWord(src1.storage[idx], src2.storage[idx]);
      }
      SetOfOr(old(src1.storage[..]), old(src2.storage[..]), storage[..]);
      return true;
    }

    /** dvmCompareBitVectors: true for a difference. */
    method Compare(other: BitVector) returns (differ: bool)
      ensures !differ <==> Alike(other) && Members() == other.Members()
    {
      if storage.Length != other.storage.Length || expandable != other.expandable {
        return true;
      }
      for idx := 0 to storage.Length
        invariant forall k | 0 <= k < idx :: storage[k] == other.storage[k]
      {
        if storage[idx] != other.storage[idx] {
          if Members() == other.Members() {
            SameSets(storage[..], other.storage[..]);
            assert false;
          }
          return true;
        }
      }
      assert storage[..] == other.storage[..];
      return false;
    }

    /** dvmCheckMergeBitVectors: the union, and whether it is more than there was. */
    method CheckMerge(src: BitVector) returns (changed: bool)
      requires storage.Length == src.storage.Length
      modifies storage
      ensures Members() == old(Members()) + old(src.Members())
      ensures changed <==> Members() != old(Members())
    {
      changed := false;
      ghost var ws := storage[..];
      for idx := 0 to storage.Length
        invariant forall k | 0 <= k < idx :: storage[k] == OrWord(old(src.storage[k]), ws[k])
        invariant forall k | idx <= k < storage.Length :: storage[k] == ws[k] && src.storage[k] == old(src.storage[k])
        invariant changed <==> exists k | 0 <= k < idx :: storage[k] != ws[k]
      {
        var merged := OrWord(src.storage[idx], storage[idx]);
        if storage[idx] != merged {
          storage[idx] := merged;
          changed := true;
        }
      }
      SetOfOr(old(src.storage[..]), ws, storage[..]);
      if Members() == old(Members()) {
        SameSets(storage[..], ws);
        assert forall k | 0 <= k < storage.Length :: storage[..][k] == ws[k];
      } else {
        assert storage[..] != ws;
      }
    }
  }

  lemma LeastAbsent(ws: seq<U4>, k: nat)
    requires k < |ws| && ws[k] != ALL_ONES && AllBelow(SetOf(ws), 32 * k)
    ensures var b := LowestBit(Not(ws[k]));
      b < 32 && 32 * k + b !in SetOf(ws) && AllBelow(SetOf(ws), 32 * k + b)
  {
    var b := LowestBit(Not(ws[k]));
    LowestBitIsLeast(Not(ws[k]));
    BitOfNotWord(ws[k], b);
    HasAt(ws, k, b);
    forall n: nat | 32 * k <= n < 32 * k + b ensures n in SetOf(ws) {
      BitOfNotWord(ws[k], n - 32 * k);
      HasAt(ws, k, n - 32 * k);
    }
  }

  lemma FullWord(ws: seq<U4>, k: nat)
    requires k < |ws| && ws[k] == ALL_ONES && AllBelow(SetOf(ws), 32 * k)
    ensures AllBelow(SetOf(ws), 32 * (k + 1))
  {
    forall n: nat | 32 * k <= n < 32 * (k + 1) ensures n in SetOf(ws) {
      BitOfNotWord(0, n - 32 * k);
      BitOfZero(n - 32 * k);
      HasAt(ws, k, n - 32 * k);
    }
  }

  function InitialWord(w: U4, k: nat, numBits: nat): U4 {
    if k < numBits / 32 then ALL_ONES
    else if k == numBits / 32 && numBits % 32 != 0 then BitMask(numBits % 32) - 1
    else w
  }

  lemma InitialBits(ws: seq<U4>, ws': seq<U4>, numBits: nat)
    requires |ws| == |ws'| && (numBits + 31) / 32 <= |ws|
    requires forall k | 0 <= k < |ws| :: ws'[k] == InitialWord(ws[k], k, numBits)
    ensures forall n: nat ::
      n in SetOf(ws') <==> n < numBits || (n >= 32 * ((numBits + 31) / 32) && n in SetOf(ws))
  {
    forall n: nat ensures n in SetOf(ws') <==> n < numBits || (n >= 32 * ((numBits + 31) / 32) && n in SetOf(ws)) {
      BitOfNotWord(0, n % 32);
      BitOfZero(n % 32);
      BitOfLow(numBits % 32, n % 32);
      hide Bit, BitMask;
      if n / 32 < |ws| {
        assert n / 32 < numBits / 32 ==> n < numBits;
      }
    }
  }

  lemma MaskIsZero(w: U4, b: nat)
    requires b < 32
    ensures And(w, BitMask(b)) != 0 <==> Bit(w, b)
  {
    BitOfAnd(w, BitMask(b), b);
    BitOfMask(b, b);
    BitOfZero(b);
    if And(w, BitMask(b)) != 0 {
      LowestBitIsLeast(And(w, BitMask(b)));
      var i := LowestBit(And(w, BitMask(b)));
      BitOfAnd(w, BitMask(b), i);
      BitOfMask(b, i);
    }
  }

  lemma ZeroAndFullCount()
    ensures BitCount(0) == 0 && BitCount(ALL_ONES) == 32
  {
    PowersOf2();
    FullCount(32);
    hide Power2;
  }

  // ----- Walking through the members -----

  class BitVectorIterator {
    const bits: BitVector
    const bitSize: nat
    var idx: nat

    constructor (bits: BitVector)
      ensures this.bits == bits && bitSize == bits.Capacity() && idx == 0
    {
      this.bits := bits;
      bitSize := bits.Capacity();
      idx := 0;
    }

    /** dvmBitVectorIteratorNext: the least member not seen yet, or -1. */
    method Next() returns (bit: int)
      requires bitSize == bits.Capacity()
      modifies this
      ensures bit == -1 ==> idx == old(idx) && forall n: nat | old(idx) <= n :: n !in bits.Members()
      ensures bit != -1 ==>
        && old(idx) <= bit < idx == bit + 1 && bit in bits.Members()
        && forall n: nat | old(idx) <= n < bit :: n !in bits.Members()
    {
      var bitIndex := idx;
      if bitIndex >= bitSize {
        return -1;
      }
      while bitIndex < bitSize
        invariant idx == old(idx) <= bitIndex <= bitSize
        invariant forall n: nat | old(idx) <= n < bitIndex :: n !in bits.Members()
      {
        var w, b := bits.storage[bitIndex / 32], bitIndex % 32;
        MaskIsZero(w, b);
        HasAt(bits.storage[..], bitIndex / 32, b);
        if And(w, BitMask(b)) != 0 {
          idx := bitIndex + 1;
          return bitIndex;
        }
        bitIndex := bitIndex + 1;
      }
      return -1;
    }
  }

  ghost predicate Ascending(s: seq<nat>) {
    forall i, j | 0 <= i < j < |s| :: s[i] < s[j]
  }

  /** The walk gives every member once, in ascending order. */
  method Walk(bits: BitVector) returns (s: seq<nat>)
    ensures Ascending(s) && (forall n: nat :: n in s <==> n in bits.Members())
  {
    s := [];
    var walk := new BitVectorIterator(bits);
    var bit := walk.Next();
    while bit != -1
      invariant walk.bits == bits && walk.bitSize == bits.Capacity()
      invariant bit != -1 ==> bit in bits.Members() && walk.idx == bit + 1
      invariant Ascending(s) && forall i | 0 <= i < |s| :: s[i] < if bit == -1 then walk.idx else bit
      invariant forall n: nat | n < (if bit == -1 then walk.idx else bit) :: n in s <==> n in bits.Members()
      invariant bit == -1 ==> forall n: nat | walk.idx <= n :: n !in bits.Members()
      decreases bits.Capacity() - walk.idx, bit != -1
    {
      s := s + [bit];
      bit := walk.Next();
    }
  }

  // ----- Merging again and again -----

  /** How many merges in a row report a change. */
  ghost function Changes(s: set<nat>, srcs: seq<set<nat>>): nat
    decreases |srcs|
  {
    if srcs == [] then 0
    else (if s + srcs[0] != s then 1 else 0) + Changes(s + srcs[0], srcs[1..])
  }

  /** At most as often as there are bits that were not set. */
  lemma {:induction false} ChangesAreBounded(s: set<nat>, srcs: seq<set<nat>>, capacity: nat)
    requires forall n | n in s :: n < capacity
    requires forall i, n | 0 <= i < |srcs| && n in srcs[i] :: n < capacity
    ensures Changes(s, srcs) + |s| <= capacity
    decreases |srcs|
  {
    if srcs == [] {
      AtMost(s, capacity);
    } else {
      var s' := s + srcs[0];
      ChangesAreBounded(s', srcs[1..], capacity);
      if s' != s {
        var n :| n in s' && n !in s;
        Fewer(s + {n}, s');
      }
    }
  }

  lemma {:induction false} Fewer(a: set<nat>, b: set<nat>)
    requires a <= b
    ensures |a| <= |b|
  {
    if a != {} {
      var n :| n in a;
      Fewer(a - {n}, b - {n});
    }
  }

  lemma {:induction false} AtMost(s: set<nat>, capacity: nat)
    requires forall n | n in s :: n < capacity
    ensures |s| <= capacity
  {
    if capacity == 0 {
      assert s == {};
    } else {
      AtMost(s - {capacity - 1}, capacity - 1);
    }
  }

  ghost function MembersOf(vs: seq<BitVector>): (ss: seq<set<nat>>)
    reads vs, set k | 0 <= k < |vs| :: vs[k].storage
    decreases |vs|
    ensures |ss| == |vs| && forall k | 0 <= k < |vs| :: ss[k] == vs[k].Members()
  {
    if vs == [] then []
    else
      assert forall k | 0 <= k < |vs| - 1 :: vs[1..][k] == vs[k + 1];
      [vs[0].Members()] + MembersOf(vs[1..])
  }

  /** Merging vectors of one size into a vector, one after the other, as the liveness analysis does:
      dvmCheckMergeBitVectors reports a change at most as often as there were unset bits. The
      vectors may share storage with each other and with the destination. */
  method MergeAll(dst: BitVector, srcs: seq<BitVector>) returns (count: nat)
    requires forall k | 0 <= k < |srcs| :: srcs[k].storage.Length == dst.storage.Length
    modifies dst.storage
    ensures count == Changes(old(dst.Members()), old(MembersOf(srcs)))
    ensures count + |old(dst.Members())| <= dst.Capacity()
    ensures forall n: nat :: n in dst.Members() <==>
      n in old(dst.Members()) || exists k :: 0 <= k < |srcs| && n in old(MembersOf(srcs))[k]
  {
    hide SetOf, Changes;
    ghost var before, sets := dst.Members(), MembersOf(srcs);
    MembersBelow(dst, srcs);
    ChangesAreBounded(before, sets, dst.Capacity());
    assert sets[0..] == sets;
    count := 0;
    for k := 0 to |srcs|
      invariant before <= dst.Members()
      invariant count + Changes(dst.Members(), sets[k..]) == Changes(before, sets)
      invariant forall i | 0 <= i < |srcs| :: srcs[i].storage != dst.storage ==> srcs[i].Members() == sets[i]
      invariant forall n: nat :: n in dst.Members() <==> n in before || exists i :: 0 <= i < k && n in sets[i]
    {
      ghost var now := dst.Members();
      ChangesStep(now, sets, k);
      assert srcs[k].storage == dst.storage ==> sets[k] == before;
      var changed := dst.CheckMerge(srcs[k]);
      assert dst.Members() == now + sets[k];
      if changed {
        count := count + 1;
      }
    }
    assert sets[|srcs|..] == [];
    NoChanges(dst.Members());
  }

  lemma ChangesStep(s: set<nat>, srcs: seq<set<nat>>, k: nat)
    requires k < |srcs|
    ensures Changes(s, srcs[k..]) == (if s + srcs[k] != s then 1 else 0) + Changes(s + srcs[k], srcs[k + 1..])
  {
    assert srcs[k..][1..] == srcs[k + 1..];
  }

  lemma NoChanges(s: set<nat>)
    ensures Changes(s, []) == 0
  {
  }

  lemma MembersBelow(dst: BitVector, srcs: seq<BitVector>)
    requires forall k | 0 <= k < |srcs| :: srcs[k].storage.Length == dst.storage.Length
    ensures forall n | n in dst.Members() :: n < dst.Capacity()
    ensures forall i, n | 0 <= i < |srcs| && n in MembersOf(srcs)[i] :: n < dst.Capacity()
    ensures forall i | 0 <= i < |srcs| :: srcs[i].storage == dst.storage ==> srcs[i].Members() == dst.Members()
  {
  }
}
