/** 32-bit words as numbers: shifts, "and" and "or", and dexRoundUpPower2 (libdex/DexFile.cpp). */
module Words {
  import opened Memory

  function ShiftRight(x: nat, n: nat): (r: nat)
    ensures r <= x
  {
    if n == 0 then x else ShiftRight(x / 2, n - 1)
  }

  function Or(a: nat, b: nat): nat {
    if a == 0 then b else if b == 0 then a
    else 2 * Or(a / 2, b / 2) + if a % 2 == 1 || b % 2 == 1 then 1 else 0
  }

  function And(a: nat, b: nat): (r: nat)
    ensures r <= a && r <= b
  {
    if a == 0 || b == 0 then 0
    else 2 * And(a / 2, b / 2) + if a % 2 == 1 && b % 2 == 1 then 1 else 0
  }

  predicate Bit(x: nat, i: nat) { ShiftRight(x, i) % 2 == 1 }

  predicate IsPowerOf2(n: nat) {
    n == 1 || (n > 0 && n % 2 == 0 && IsPowerOf2(n / 2))
  }

  lemma {:induction false} BitOfShift(x: nat, n: nat, i: nat)
    ensures Bit(ShiftRight(x, n), i) == Bit(x, n + i)
  {
    if n > 0 {
      BitOfShift(x / 2, n - 1, i);
    }
  }

  lemma {:induction false} BitOfZero(i: nat)
    ensures !Bit(0, i)
  {
    if i > 0 {
      BitOfZero(i - 1);
    }
  }

  lemma {:induction false} BitOfOr(a: nat, b: nat, i: nat)
    ensures Bit(Or(a, b), i) == (Bit(a, i) || Bit(b, i))
    decreases i
  {
    BitOfZero(i);
    if a != 0 && b != 0 && i > 0 {
      BitOfOr(a / 2, b / 2, i - 1);
      assert Or(a, b) / 2 == Or(a / 2, b / 2);
    }
  }

  lemma {:induction false} SameBits(a: nat, b: nat)
    requires forall i: nat :: Bit(a, i) == Bit(b, i)
    ensures a == b
    decreases a + b
  {
    if a != 0 || b != 0 {
      assert Bit(a, 0) == Bit(b, 0);
      forall i: nat ensures Bit(a / 2, i) == Bit(b / 2, i) {
        assert Bit(a, i + 1) == Bit(b, i + 1);
      }
      SameBits(a / 2, b / 2);
    }
  }

  /** All ones from the top bit down. */
  function Ones(x: nat): (r: nat)
    ensures x <= r && (x > 0 ==> r < 2 * x) && (x == 0 ==> r == 0)
    ensures IsPowerOf2(r + 1)
  {
    if x == 0 then 0 else 2 * Ones(x / 2) + 1
  }

  lemma {:induction false} BitOfOnes(x: nat, i: nat)
    ensures Bit(Ones(x), i) <==> ShiftRight(x, i) > 0
    decreases i
  {
    if x == 0 {
      BitOfZero(i);
      ZeroShift(i);
    } else {
      assert Ones(x) % 2 == 1 && Ones(x) / 2 == Ones(x / 2);
      if i > 0 {
        BitOfOnes(x / 2, i - 1);
      }
    }
  }

  lemma {:induction false} ZeroShift(i: nat)
    ensures ShiftRight(0, i) == 0
  {
    if i > 0 {
      ZeroShift(i - 1);
    }
  }

  /** A bit of y says whether x has a bit among w from there on. */
  ghost predicate Spread(x: nat, y: nat, w: nat) {
    forall i: nat :: Bit(y, i) <==> AnyBit(x, i, w)
  }

  ghost predicate AnyBit(x: nat, i: nat, w: nat) {
    exists j :: i <= j < i + w && Bit(x, j)
  }

  lemma SpreadFurther(x: nat, y: nat, w: nat)
    requires Spread(x, y, w)
    ensures Spread(x, Or(y, ShiftRight(y, w)), 2 * w)
  {
    forall i: nat ensures Bit(Or(y, ShiftRight(y, w)), i) <==> AnyBit(x, i, 2 * w) {
      BitOfOr(y, ShiftRight(y, w), i);
      BitOfShift(y, w, i);
      assert Bit(y, i) <==> AnyBit(x, i, w);
      assert Bit(y, w + i) <==> AnyBit(x, w + i, w);
    }
  }

  /** A number above zero has a bit, and not one behind 32 if it is a 32-bit number. */
  lemma {:induction false} TopBit(x: nat, i: nat, w: nat)
    requires ShiftRight(x, i) < Power2(w)
    ensures ShiftRight(x, i) > 0 <==> AnyBit(x, i, w)
    decreases w
  {
    var rest := ShiftRight(x, i);
    ShiftOnce(x, i);
    if w > 0 {
      TopBit(x, i + 1, w - 1);
      if rest % 2 == 1 {
        assert Bit(x, i);
      } else {
        assert !Bit(x, i);
        if AnyBit(x, i, w) {
          var j :| i <= j < i + w && Bit(x, j);
          assert i + 1 <= j < i + 1 + (w - 1);
        }
      }
    }
  }

  lemma {:induction false} ShiftOnce(x: nat, i: nat)
    ensures ShiftRight(x, i + 1) == ShiftRight(x, i) / 2
  {
    if i > 0 {
      ShiftOnce(x / 2, i - 1);
    }
  }

  lemma SpreadOverWord(x: nat, y: nat)
    requires x < Power2(32) && Spread(x, y, 32)
    ensures y == Ones(x)
  {
    forall i: nat ensures Bit(y, i) == Bit(Ones(x), i) {
      BitOfOnes(x, i);
      TopBit(x, i, 32);
    }
    SameBits(y, Ones(x));
  }

  lemma SpreadByOne(x: nat)
    ensures Spread(x, x, 1)
  {
    forall i: nat ensures Bit(x, i) <==> AnyBit(x, i, 1) {
      if AnyBit(x, i, 1) {
        var j :| i <= j < i + 1 && Bit(x, j);
      }
    }
  }

  /** The next power of two; zero for zero, and for what has none in 32 bits. */
  method RoundUpPower2(val: U4) returns (r: U4)
    ensures 0 < val <= 0x8000_0000 ==> IsPowerOf2(r) && val <= r < 2 * val
    ensures val == 0 || val > 0x8000_0000 ==> r == 0
  {
    hide Or, ShiftRight, Spread;
    var v: nat := (val - 1) % 0x1_0000_0000;
    ghost var x := v;
    SpreadByOne(x);
    SpreadFurther(x, v, 1);
    v := Or(v, ShiftRight(v, 1));
    SpreadFurther(x, v, 2);
    v := Or(v, ShiftRight(v, 2));
    SpreadFurther(x, v, 4);
    v := Or(v, ShiftRight(v, 4));
    SpreadFurther(x, v, 8);
    v := Or(v, ShiftRight(v, 8));
    SpreadFurther(x, v, 16);
    v := Or(v, ShiftRight(v, 16));
    PowersOf2();
    SpreadOverWord(x, v);
    hide Power2, Ones;
    WrapsToPower(val);
    return (v + 1) % 0x1_0000_0000;
  }

  lemma WrapsToPower(val: U4)
    ensures var x := (val - 1) % 0x1_0000_0000;
      var r := (Ones(x) + 1) % 0x1_0000_0000;
      && (0 < val <= 0x8000_0000 ==> IsPowerOf2(r) && val <= r < 2 * val)
      && (val == 0 || val > 0x8000_0000 ==> r == 0)
  {
    hide *;
    PowersOf2();
    if val == 0 {
      assert (val - 1) % 0x1_0000_0000 == 0xFFFF_FFFF;
      WithinWord(0xFFFF_FFFF, 31);
    } else {
      assert (val - 1) % 0x1_0000_0000 == val - 1;
      WithinWord(val - 1, 31);
      var o := Ones(val - 1);
      if val <= 0x8000_0000 {
        assert (o + 1) % 0x1_0000_0000 == o + 1;
      }
    }
  }

  lemma PowersOf2()
    ensures Power2(31) == 0x8000_0000 && Power2(32) == 0x1_0000_0000
  {
    assert Power2(8) == 0x100 && Power2(16) == 0x1_0000 && Power2(24) == 0x100_0000;
  }

  lemma {:induction false} WithinWord(x: nat, n: nat)
    ensures x < Power2(n) ==> Ones(x) < Power2(n)
    ensures x >= Power2(n) && x < 2 * Power2(n) ==> Ones(x) == 2 * Power2(n) - 1
  {
    if n > 0 {
      WithinWord(x / 2, n - 1);
    }
  }

  /** Masking with a power of two less one is the remainder. */
  lemma {:induction false} MaskIsRemainder(h: nat, n: nat)
    requires IsPowerOf2(n)
    ensures And(h, n - 1) == h % n
    decreases n
  {
    if n > 1 && h > 0 {
      var k := n / 2;
      MaskIsRemainder(h / 2, k);
      HalfRemainder(h, k);
      AndOfOdd(h, k);
    }
  }

  lemma AndOfOdd(h: nat, k: nat)
    requires k > 0
    ensures And(h, 2 * k - 1) == 2 * And(h / 2, k - 1) + h % 2
  {
    assert (2 * k - 1) / 2 == k - 1 && (2 * k - 1) % 2 == 1;
  }

  lemma HalfRemainder(h: nat, k: nat)
    requires k > 0
    ensures h % (2 * k) == 2 * (h / 2 % k) + h % 2
  {
    var q, r := h / 2 / k, h / 2 % k;
    assert h / 2 == q * k + r;
    assert h == q * (2 * k) + (2 * r + h % 2);
    RemainderIs(h, 2 * k, q, 2 * r + h % 2);
  }

  lemma RemainderIs(h: int, n: int, q: int, r: int)
    requires n > 0 && 0 <= r < n && h == q * n + r
    ensures h % n == r
  {
    assert (h / n - q) * n == r - h % n;
    Multiple(h / n - q, n);
  }

  lemma Multiple(k: int, n: int)
    requires n > 0
    ensures k >= 1 ==> k * n >= n
    ensures k <= -1 ==> k * n <= -n
  {
  }
}

/** Open addressing with linear probing, for any hash: entries 0, 1, 2, ... have been added in
    this order. A slot holds the number of its entry, or FREE. */
module Probing {
  import Words

  const FREE := -1

  /** Where entry i went: dist[i] steps after its home. */
  datatype Table = Table(slots: seq<int>, dist: seq<nat>)

  /** (home + d) % n, for a home that is a slot. */
  function At(home: nat, d: nat, n: nat): (s: nat)
    requires home < n && d <= n
    ensures s < n
  {
    if home + d < n then home + d else home + d - n
  }

  ghost predicate Sized(t: Table, homes: seq<nat>) {
    && |t.dist| <= |homes|
    && (forall i | 0 <= i < |homes| :: homes[i] < |t.slots|)
    && (forall i | 0 <= i < |t.dist| :: t.dist[i] < |t.slots|)
  }

  /** Entry i sits behind slots that older entries had taken. */
  ghost predicate Placed(t: Table, homes: seq<nat>, i: nat)
    requires Sized(t, homes) && i < |t.dist|
  {
    && t.slots[At(homes[i], t.dist[i], |t.slots|)] == i
    && (forall d | 0 <= d < t.dist[i] :: 0 <= t.slots[At(homes[i], d, |t.slots|)] < i)
  }

  /** A slot that is taken is the place of its entry. */
  ghost predicate Accounted(t: Table, homes: seq<nat>, s: nat)
    requires Sized(t, homes) && s < |t.slots|
  {
    var i := t.slots[s];
    i == FREE || (0 <= i < |t.dist| && s == At(homes[i], t.dist[i], |t.slots|))
  }

  ghost predicate Valid(t: Table, homes: seq<nat>) {
    && Sized(t, homes)
    && (forall i | 0 <= i < |t.dist| :: Placed(t, homes, i))
    && (forall s | 0 <= s < |t.slots| :: Accounted(t, homes, s))
    && FreeSlots(t.slots) == |t.slots| - |t.dist|
  }

  function FreeSlots(slots: seq<int>): nat {
    if slots == [] then 0 else FreeSlots(slots[1..]) + if slots[0] == FREE then 1 else 0
  }

  function AllFree(n: nat): seq<int> { seq(n, _ => FREE) }

  lemma EmptyTable(n: nat, homes: seq<nat>)
    requires forall i | 0 <= i < |homes| :: homes[i] < n
    ensures Valid(Table(AllFree(n), []), homes)
  {
    CountAllFree(AllFree(n));
  }

  lemma {:induction false} CountAllFree(slots: seq<int>)
    requires forall s | 0 <= s < |slots| :: slots[s] == FREE
    ensures FreeSlots(slots) == |slots|
  {
    if slots != [] {
      CountAllFree(slots[1..]);
    }
  }

  lemma {:induction false} TakeSlot(slots: seq<int>, s: nat, i: nat)
    requires s < |slots| && slots[s] == FREE
    ensures FreeSlots(slots[s := i]) == FreeSlots(slots) - 1
  {
    if s > 0 {
      assert slots[s := i][1..] == slots[1..][s - 1 := i];
      TakeSlot(slots[1..], s - 1, i);
    } else {
      assert slots[s := i][1..] == slots[1..];
    }
  }

  lemma {:induction false} SomeFree(slots: seq<int>) returns (s: nat)
    requires FreeSlots(slots) > 0
    ensures s < |slots| && slots[s] == FREE
  {
    if slots[0] == FREE {
      s := 0;
    } else {
      s := SomeFree(slots[1..]);
      s := s + 1;
    }
  }

  /** From any home, probing gets to every slot in fewer than n steps. */
  lemma Reaches(home: nat, s: nat, n: nat) returns (d: nat)
    requires home < n && s < n
    ensures d < n && At(home, d, n) == s
  {
    d := if s >= home then s - home else s + n - home;
  }

  /** hash & mask is where a probe starts. */
  lemma StartProbe(hash: nat, n: nat)
    requires Words.IsPowerOf2(n)
    ensures hash % n < n && Words.And(hash, n - 1) == At(hash % n, 0, n)
  {
    Words.MaskIsRemainder(hash, n);
  }

  /** (idx + 1) & mask is the next slot. */
  lemma NextProbe(home: nat, d: nat, n: nat)
    requires home < n && d < n && Words.IsPowerOf2(n)
    ensures Words.And(At(home, d, n) + 1, n - 1) == At(home, d + 1, n)
  {
    hide Words.And, Words.IsPowerOf2;
    Words.MaskIsRemainder(At(home, d, n) + 1, n);
    if At(home, d, n) + 1 == n {
      Words.RemainderIs(n, n, 1, 0);
    } else {
      Words.RemainderIs(At(home, d, n) + 1, n, 0, At(home, d, n) + 1);
    }
  }

  /** So a table with room ends every probe. */
  lemma FindsFree(t: Table, homes: seq<nat>, home: nat) returns (d: nat)
    requires Valid(t, homes) && |t.dist| < |t.slots| && home < |t.slots|
    ensures d < |t.slots| && t.slots[At(home, d, |t.slots|)] == FREE
  {
    var s := SomeFree(t.slots);
    d := Reaches(home, s, |t.slots|);
  }

  ghost predicate TakenBefore(t: Table, home: nat, d: nat)
    requires home < |t.slots| && d <= |t.slots|
  {
    forall e | 0 <= e < d :: t.slots[At(home, e, |t.slots|)] != FREE
  }

  lemma TakenMore(t: Table, home: nat, d: nat)
    requires home < |t.slots| && d < |t.slots|
    ensures TakenBefore(t, home, 0)
    ensures TakenBefore(t, home, d) && t.slots[At(home, d, |t.slots|)] != FREE ==> TakenBefore(t, home, d + 1)
  {
  }

  /** The table after the next entry has gone into the first free slot on its path. */
  function Added(t: Table, home: nat, d: nat): Table
    requires home < |t.slots| && d < |t.slots|
  {
    Table(t.slots[At(home, d, |t.slots|) := |t.dist|], t.dist + [d])
  }

  lemma AddKeeps(t: Table, homes: seq<nat>, d: nat)
    requires Valid(t, homes) && |t.dist| < |homes| && d < |t.slots|
    requires TakenBefore(t, homes[|t.dist|], d) && t.slots[At(homes[|t.dist|], d, |t.slots|)] == FREE
    ensures Valid(Added(t, homes[|t.dist|], d), homes)
  {
    var k, n := |t.dist|, |t.slots|;
    var at := At(homes[k], d, n);
    var t' := Added(t, homes[k], d);
    TakeSlot(t.slots, at, k);
    hide FreeSlots;
    forall i | 0 <= i <= k ensures Placed(t', homes, i) {
      if i < k {
        assert Placed(t, homes, i);
      } else {
        NewPlaced(t, homes, d);
      }
    }
    forall s | 0 <= s < n ensures Accounted(t', homes, s) {
      assert Accounted(t, homes, s);
    }
  }

  lemma NewPlaced(t: Table, homes: seq<nat>, d: nat)
    requires Valid(t, homes) && |t.dist| < |homes| && d < |t.slots|
    requires TakenBefore(t, homes[|t.dist|], d) && t.slots[At(homes[|t.dist|], d, |t.slots|)] == FREE
    ensures Sized(Added(t, homes[|t.dist|], d), homes) && Placed(Added(t, homes[|t.dist|], d), homes, |t.dist|)
  {
    var home, n := homes[|t.dist|], |t.slots|;
    forall e | 0 <= e < d ensures 0 <= t.slots[At(home, e, n)] < |t.dist| {
      assert Accounted(t, homes, At(home, e, n));
    }
  }

  lemma MoreHomes(t: Table, homes: seq<nat>, more: seq<nat>)
    requires Valid(t, homes) && forall i | 0 <= i < |more| :: more[i] < |t.slots|
    ensures Valid(t, homes + more)
  {
    var all := homes + more;
    forall i | 0 <= i < |t.dist| ensures Placed(t, all, i) {
      assert Placed(t, homes, i);
    }
    forall s | 0 <= s < |t.slots| ensures Accounted(t, all, s) {
      assert Accounted(t, homes, s);
    }
  }

  /** The least position that holds true, or -1. */
  function First(hits: seq<bool>): (r: int)
    ensures r == -1 ==> forall i | 0 <= i < |hits| :: !hits[i]
    ensures r != -1 ==> 0 <= r < |hits| && hits[r] && forall i | 0 <= i < r :: !hits[i]
  {
    if hits == [] then -1
    else if hits[0] then 0
    else
      var r := First(hits[1..]);
      assert forall i | 0 < i < |hits| :: hits[i] == hits[1..][i - 1];
      if r == -1 then -1 else r + 1
  }

  /** Probing from home has seen d entries, none of them a hit. */
  ghost predicate Missed(t: Table, hits: seq<bool>, home: nat, d: nat)
    requires home < |t.slots| && d <= |t.slots|
  {
    forall e | 0 <= e < d ::
      var i := t.slots[At(home, e, |t.slots|)]; i != FREE && (0 <= i < |hits| ==> !hits[i])
  }

  lemma MissedMore(t: Table, hits: seq<bool>, home: nat, d: nat)
    requires home < |t.slots| && d < |t.slots|
    ensures Missed(t, hits, home, 0)
    ensures var i := t.slots[At(home, d, |t.slots|)];
      Missed(t, hits, home, d) && 0 <= i < |hits| && !hits[i] ==> Missed(t, hits, home, d + 1)
  {
  }

  /** What the probe stops at is the answer of a linear search through the entries. */
  lemma ProbeIsLinearSearch(t: Table, homes: seq<nat>, hits: seq<bool>, home: nat, d: nat)
    requires Valid(t, homes) && |hits| == |t.dist| && home < |t.slots| && d < |t.slots|
    requires forall i | 0 <= i < |hits| :: hits[i] ==> homes[i] == home
    requires Missed(t, hits, home, d)
    ensures var i := t.slots[At(home, d, |t.slots|)]; i == FREE || (0 <= i < |hits| && (hits[i] ==> First(hits) == i))
    ensures t.slots[At(home, d, |t.slots|)] == FREE ==> First(hits) == -1
  {
    var i := t.slots[At(home, d, |t.slots|)];
    assert Accounted(t, homes, At(home, d, |t.slots|));
    if i == FREE {
      if First(hits) != -1 {
        OlderHit(t, homes, hits, home, d, First(hits));
      }
    } else if hits[i] {
      if First(hits) != i {
        OlderHit(t, homes, hits, home, d, First(hits));
      }
    }
  }

  /** No hit is older than the entry where the probe stands. */
  lemma OlderHit(t: Table, homes: seq<nat>, hits: seq<bool>, home: nat, d: nat, j: nat)
    requires Valid(t, homes) && |hits| == |t.dist| && home < |t.slots| && d < |t.slots|
    requires Missed(t, hits, home, d) && j < |hits| && hits[j] && homes[j] == home
    ensures var i := t.slots[At(home, d, |t.slots|)]; 0 <= i <= j
  {
    var n := |t.slots|;
    assert Placed(t, homes, j);
    assert Accounted(t, homes, At(home, d, n));
    if d < t.dist[j] {
      assert 0 <= t.slots[At(homes[j], d, n)] < j;
    }
  }
}
