/** The streaming SHA-1 of libdex/sha1.cpp on a little-endian host where an
    unsigned long has 32 bits. */
module Sha1 {
  import opened Sha1Spec
  import Memory

  /** memcpy of four octets into an unsigned long. */
  function LoadWord(block: seq<Octet>, t: nat): Word
    requires |block| == 64 && t < 16
  {
    (block[4 * t] as Word) | ((block[4 * t + 1] as Word) << 8) |
    ((block[4 * t + 2] as Word) << 16) | ((block[4 * t + 3] as Word) << 24)
  }

  /** The two rotations and masks of blk0. */
  function SwapBytes(l: Word): Word {
    (((l << 24) | (l >> 8)) & 0xFF00FF00) | (((l << 8) | (l >> 24)) & 0x00FF00FF)
  }

  /** Before round i the workspace holds the last 16 schedule words at their
      positions modulo 16, and the octets of the block where no round has been. */
  ghost predicate Schedule(l: seq<Word>, block: seq<Octet>, i: nat)
    requires |block| == 64
  {
    && |l| == 16
    && (forall t: nat | t < i && i <= t + 16 :: l[t % 16] == W(block, t))
    && (forall t: nat | i <= t < 16 :: l[t] == LoadWord(block, t))
  }

  lemma SwapIsBigEndian(b0: Octet, b1: Octet, b2: Octet, b3: Octet, l: Word)
    requires l == (b0 as Word) | ((b1 as Word) << 8) | ((b2 as Word) << 16) | ((b3 as Word) << 24)
    ensures SwapBytes(l) == BigEndian(b0, b1, b2, b3)
  {
  }

  /** The formulas of rounds 0-19 and 40-59, rewritten from those of the RFC. */
  function Choose(w: Word, x: Word, y: Word): Word { (w & (x ^ y)) ^ y }

  function Majority(w: Word, x: Word, y: Word): Word { ((w | x) & y) | (w & x) }

  function Parity(w: Word, x: Word, y: Word): Word { w ^ x ^ y }

  lemma ChooseIsF(w: Word, x: Word, y: Word)
    ensures Choose(w, x, y) == (w & x) | (!w & y)
  {
  }

  lemma MajorityIsF(w: Word, x: Word, y: Word)
    ensures Majority(w, x, y) == (w & x) | (w & y) | (x & y)
  {
  }

  /** Every macro adds this to z, where s is v rotated. */
  function Sum(z: Word, f: Word, b: Word, k: Word, s: Word): Word {
    z + (f + b + k + s)
  }

  lemma SumIsTemp(z: Word, f: Word, b: Word, k: Word, v: Word)
    ensures Sum(z, f, b, k, S5(v)) == Temp(v, f, z, b, k)
  {
  }

  /** A loaded word, swapped, is the schedule word. */
  lemma SwappedWord(block: seq<Octet>, i: nat)
    requires |block| == 64 && i < 16
    ensures SwapBytes(LoadWord(block, i)) == W(block, i)
  {
    hide SwapBytes, BigEndian;
    SwapIsBigEndian(block[4 * i], block[4 * i + 1], block[4 * i + 2], block[4 * i + 3], LoadWord(block, i));
  }

  lemma SwapFirst(l: seq<Word>, block: seq<Octet>, i: nat)
    requires |block| == 64 && i < 16 && Schedule(l, block, i)
    ensures l[i] == LoadWord(block, i) && Schedule(l[i := W(block, i)], block, i + 1)
  {
    hide LoadWord, W;
    var l' := l[i := W(block, i)];
    forall t: nat | t < i + 1 && i + 1 <= t + 16 ensures l'[t % 16] == W(block, t) {
      assert t % 16 == t;
      assert t < i ==> l[t % 16] == W(block, t);
    }
    forall t: nat | i + 1 <= t < 16 ensures l'[t] == LoadWord(block, t) {
      assert l[t] == LoadWord(block, t);
    }
  }

  method Blk0(l: array<Word>, ghost block: seq<Octet>, i: nat) returns (r: Word)
    requires |block| == 64 && i < 16 && Schedule(l[..], block, i)
    modifies l
    ensures Schedule(l[..], block, i + 1) && r == W(block, i)
  {
    hide Schedule, LoadWord, SwapBytes, W;
    ScheduleLength(l[..], block, i);
    SwapFirst(l[..], block, i);
    SwappedWord(block, i);
    ghost var before := l[..];
    l[i] := SwapBytes(l[i]);
    r := l[i];
    assert l[..] == before[i := r];
  }

  lemma ScheduleLength(l: seq<Word>, block: seq<Octet>, i: nat)
    requires |block| == 64 && Schedule(l, block, i)
    ensures |l| == 16
  {
  }

  /** The word of round i takes the place of the one 16 rounds older. */
  lemma ReplaceOldest(l: seq<Word>, block: seq<Octet>, i: nat)
    requires |block| == 64 && 16 <= i < 80 && Schedule(l, block, i)
    ensures Schedule(l[i % 16 := W(block, i)], block, i + 1)
  {
    forall t: nat | t < i + 1 && i + 1 <= t + 16
      ensures l[i % 16 := W(block, i)][t % 16] == W(block, t)
    {
      if t != i {
        assert t % 16 != i % 16;
      }
    }
  }

  lemma CircularIndices(l: seq<Word>, block: seq<Octet>, i: nat)
    requires |block| == 64 && 16 <= i < 80 && Schedule(l, block, i)
    ensures l[(i + 13) % 16] == W(block, i - 3) && l[(i + 8) % 16] == W(block, i - 8)
    ensures l[(i + 2) % 16] == W(block, i - 14) && l[i % 16] == W(block, i - 16)
  {
    assert (i + 13) % 16 == (i - 3) % 16 && (i + 8) % 16 == (i - 8) % 16;
    assert (i + 2) % 16 == (i - 14) % 16 && i % 16 == (i - 16) % 16;
  }

  lemma NextWord(block: seq<Octet>, i: nat)
    requires |block| == 64 && 16 <= i < 80
    ensures W(block, i) == Expand(W(block, i - 3), W(block, i - 8), W(block, i - 14), W(block, i - 16))
  {
  }

  method Blk(l: array<Word>, ghost block: seq<Octet>, i: nat) returns (r: Word)
    requires |block| == 64 && 16 <= i < 80 && Schedule(l[..], block, i)
    modifies l
    ensures Schedule(l[..], block, i + 1) && r == W(block, i)
  {
    NextWord(block, i);
    hide Schedule, W;
    ScheduleLength(l[..], block, i);
    CircularIndices(l[..], block, i);
    ReplaceOldest(l[..], block, i);
    var x := l[(i + 13) % 16] ^ l[(i + 8) % 16] ^ l[(i + 2) % 16] ^ l[i % 16];
    r := (x << 1) | (x >> 31);
    ghost var before := l[..];
    l[i % 16] := r;
    assert l[..] == before[i % 16 := r];
  }

  /** The registers the code holds in rotated variables are those of the RFC. */
  ghost predicate At(h: Regs, block: seq<Octet>, i: nat, r: Regs)
    requires |block| == 64 && i <= 80
  {
    r == Rounds(h, block, i)
  }

  /** One macro, on values: adding to z and rotating w in place is the step of the RFC. */
  lemma MacroStep(h: Regs, block: seq<Octet>, i: nat, v: Word, w: Word, x: Word, y: Word, z: Word, f: Word)
    requires |block| == 64 && i < 80 && At(h, block, i, Regs(v, w, x, y, z))
    requires f == F(i, w, x, y)
    ensures At(h, block, i + 1, Regs(Sum(z, f, W(block, i), K(i), S5(v)), v, S30(w), x, y))
  {
    SumIsTemp(z, f, W(block, i), K(i), v);
    assert Rounds(h, block, i + 1) == Step(block, i, Rounds(h, block, i));
  }

  method R0(l: array<Word>, ghost h: Regs, ghost block: seq<Octet>, v: Word, w: Word, x: Word, y: Word, z: Word, i: nat)
    returns (w': Word, z': Word)
    requires |block| == 64 && 0 <= i < 16 && Schedule(l[..], block, i) && At(h, block, i, Regs(v, w, x, y, z))
    modifies l
    ensures Schedule(l[..], block, i + 1) && At(h, block, i + 1, Regs(z', v, w', x, y))
  {
    var b := Blk0(l, block, i);
    ChooseIsF(w, x, y);
    MacroStep(h, block, i, v, w, x, y, z, Choose(w, x, y));
    z', w' := Sum(z, Choose(w, x, y), b, 0x5A827999, (v << 5) | (v >> 27)), (w << 30) | (w >> 2);
  }

  method R1(l: array<Word>, ghost h: Regs, ghost block: seq<Octet>, v: Word, w: Word, x: Word, y: Word, z: Word, i: nat)
    returns (w': Word, z': Word)
    requires |block| == 64 && 16 <= i < 20 && Schedule(l[..], block, i) && At(h, block, i, Regs(v, w, x, y, z))
    modifies l
    ensures Schedule(l[..], block, i + 1) && At(h, block, i + 1, Regs(z', v, w', x, y))
  {
    var b := Blk(l, block, i);
    ChooseIsF(w, x, y);
    MacroStep(h, block, i, v, w, x, y, z, Choose(w, x, y));
    z', w' := Sum(z, Choose(w, x, y), b, 0x5A827999, (v << 5) | (v >> 27)), (w << 30) | (w >> 2);
  }

  method R2(l: array<Word>, ghost h: Regs, ghost block: seq<Octet>, v: Word, w: Word, x: Word, y: Word, z: Word, i: nat)
    returns (w': Word, z': Word)
    requires |block| == 64 && 20 <= i < 40 && Schedule(l[..], block, i) && At(h, block, i, Regs(v, w, x, y, z))
    modifies l
    ensures Schedule(l[..], block, i + 1) && At(h, block, i + 1, Regs(z', v, w', x, y))
  {
    var b := Blk(l, block, i);
    MacroStep(h, block, i, v, w, x, y, z, Parity(w, x, y));
    z', w' := Sum(z, Parity(w, x, y), b, 0x6ED9EBA1, (v << 5) | (v >> 27)), (w << 30) | (w >> 2);
  }

  method R3(l: array<Word>, ghost h: Regs, ghost block: seq<Octet>, v: Word, w: Word, x: Word, y: Word, z: Word, i: nat)
    returns (w': Word, z': Word)
    requires |block| == 64 && 40 <= i < 60 && Schedule(l[..], block, i) && At(h, block, i, Regs(v, w, x, y, z))
    modifies l
    ensures Schedule(l[..], block, i + 1) && At(h, block, i + 1, Regs(z', v, w', x, y))
  {
    var b := Blk(l, block, i);
    MajorityIsF(w, x, y);
    MacroStep(h, block, i, v, w, x, y, z, Majority(w, x, y));
    z', w' := Sum(z, Majority(w, x, y), b, 0x8F1BBCDC, (v << 5) | (v >> 27)), (w << 30) | (w >> 2);
  }

  method R4(l: array<Word>, ghost h: Regs, ghost block: seq<Octet>, v: Word, w: Word, x: Word, y: Word, z: Word, i: nat)
    returns (w': Word, z': Word)
    requires |block| == 64 && 60 <= i < 80 && Schedule(l[..], block, i) && At(h, block, i, Regs(v, w, x, y, z))
    modifies l
    ensures Schedule(l[..], block, i + 1) && At(h, block, i + 1, Regs(z', v, w', x, y))
  {
    var b := Blk(l, block, i);
    MacroStep(h, block, i, v, w, x, y, z, Parity(w, x, y));
    z', w' := Sum(z, Parity(w, x, y), b, 0xCA62C1D6, (v << 5) | (v >> 27)), (w << 30) | (w >> 2);
  }

  /** Five consecutive macros bring every variable back to its own register. */
  method Row0(l: array<Word>, ghost h: Regs, ghost block: seq<Octet>, r: Regs, i: nat) returns (r': Regs)
    requires |block| == 64 && 0 <= i <= 10 && Schedule(l[..], block, i) && At(h, block, i, r)
    modifies l
    ensures Schedule(l[..], block, i + 5) && At(h, block, i + 5, r')
  {
    var a, b, c, d, e := r.a, r.b, r.c, r.d, r.e;
    b, e := R0(l, h, block, a, b, c, d, e, i);
    a, d := R0(l, h, block, e, a, b, c, d, i + 1);
    e, c := R0(l, h, block, d, e, a, b, c, i + 2);
    d, b := R0(l, h, block, c, d, e, a, b, i + 3);
    c, a := R0(l, h, block, b, c, d, e, a, i + 4);
    r' := Regs(a, b, c, d, e);
  }

  method Row01(l: array<Word>, ghost h: Regs, ghost block: seq<Octet>, r: Regs, i: nat) returns (r': Regs)
    requires |block| == 64 && 15 <= i <= 15 && Schedule(l[..], block, i) && At(h, block, i, r)
    modifies l
    ensures Schedule(l[..], block, i + 5) && At(h, block, i + 5, r')
  {
    var a, b, c, d, e := r.a, r.b, r.c, r.d, r.e;
    b, e := R0(l, h, block, a, b, c, d, e, i);
    a, d := R1(l, h, block, e, a, b, c, d, i + 1);
    e, c := R1(l, h, block, d, e, a, b, c, i + 2);
    d, b := R1(l, h, block, c, d, e, a, b, i + 3);
    c, a := R1(l, h, block, b, c, d, e, a, i + 4);
    r' := Regs(a, b, c, d, e);
  }

  method Row2(l: array<Word>, ghost h: Regs, ghost block: seq<Octet>, r: Regs, i: nat) returns (r': Regs)
    requires |block| == 64 && 20 <= i <= 35 && Schedule(l[..], block, i) && At(h, block, i, r)
    modifies l
    ensures Schedule(l[..], block, i + 5) && At(h, block, i + 5, r')
  {
    var a, b, c, d, e := r.a, r.b, r.c, r.d, r.e;
    b, e := R2(l, h, block, a, b, c, d, e, i);
    a, d := R2(l, h, block, e, a, b, c, d, i + 1);
    e, c := R2(l, h, block, d, e, a, b, c, i + 2);
    d, b := R2(l, h, block, c, d, e, a, b, i + 3);
    c, a := R2(l, h, block, b, c, d, e, a, i + 4);
    r' := Regs(a, b, c, d, e);
  }

  method Row3(l: array<Word>, ghost h: Regs, ghost block: seq<Octet>, r: Regs, i: nat) returns (r': Regs)
    requires |block| == 64 && 40 <= i <= 55 && Schedule(l[..], block, i) && At(h, block, i, r)
    modifies l
    ensures Schedule(l[..], block, i + 5) && At(h, block, i + 5, r')
  {
    var a, b, c, d, e := r.a, r.b, r.c, r.d, r.e;
    b, e := R3(l, h, block, a, b, c, d, e, i);
    a, d := R3(l, h, block, e, a, b, c, d, i + 1);
    e, c := R3(l, h, block, d, e, a, b, c, i + 2);
    d, b := R3(l, h, block, c, d, e, a, b, i + 3);
    c, a := R3(l, h, block, b, c, d, e, a, i + 4);
    r' := Regs(a, b, c, d, e);
  }

  method Row4(l: array<Word>, ghost h: Regs, ghost block: seq<Octet>, r: Regs, i: nat) returns (r': Regs)
    requires |block| == 64 && 60 <= i <= 75 && Schedule(l[..], block, i) && At(h, block, i, r)
    modifies l
    ensures Schedule(l[..], block, i + 5) && At(h, block, i + 5, r')
  {
    var a, b, c, d, e := r.a, r.b, r.c, r.d, r.e;
    b, e := R4(l, h, block, a, b, c, d, e, i);
    a, d := R4(l, h, block, e, a, b, c, d, i + 1);
    e, c := R4(l, h, block, d, e, a, b, c, i + 2);
    d, b := R4(l, h, block, c, d, e, a, b, i + 3);
    c, a := R4(l, h, block, b, c, d, e, a, i + 4);
    r' := Regs(a, b, c, d, e);
  }

  method Rounds0To19(l: array<Word>, ghost h: Regs, ghost block: seq<Octet>, r: Regs) returns (r': Regs)
    requires |block| == 64 && Schedule(l[..], block, 0) && At(h, block, 0, r)
    modifies l
    ensures Schedule(l[..], block, 20) && At(h, block, 20, r')
  {
    r' := Row0(l, h, block, r, 0);
    r' := Row0(l, h, block, r', 5);
    r' := Row0(l, h, block, r', 10);
    r' := Row01(l, h, block, r', 15);
  }

  method Rounds20To39(l: array<Word>, ghost h: Regs, ghost block: seq<Octet>, r: Regs) returns (r': Regs)
    requires |block| == 64 && Schedule(l[..], block, 20) && At(h, block, 20, r)
    modifies l
    ensures Schedule(l[..], block, 40) && At(h, block, 40, r')
  {
    r' := Row2(l, h, block, r, 20);
    r' := Row2(l, h, block, r', 25);
    r' := Row2(l, h, block, r', 30);
    r' := Row2(l, h, block, r', 35);
  }

  method Rounds40To59(l: array<Word>, ghost h: Regs, ghost block: seq<Octet>, r: Regs) returns (r': Regs)
    requires |block| == 64 && Schedule(l[..], block, 40) && At(h, block, 40, r)
    modifies l
    ensures Schedule(l[..], block, 60) && At(h, block, 60, r')
  {
    r' := Row3(l, h, block, r, 40);
    r' := Row3(l, h, block, r', 45);
    r' := Row3(l, h, block, r', 50);
    r' := Row3(l, h, block, r', 55);
  }

  method Rounds60To79(l: array<Word>, ghost h: Regs, ghost block: seq<Octet>, r: Regs) returns (r': Regs)
    requires |block| == 64 && Schedule(l[..], block, 60) && At(h, block, 60, r)
    modifies l
    ensures Schedule(l[..], block, 80) && At(h, block, 80, r')
  {
    r' := Row4(l, h, block, r, 60);
    r' := Row4(l, h, block, r', 65);
    r' := Row4(l, h, block, r', 70);
    r' := Row4(l, h, block, r', 75);
  }

  /** memcpy of the block into the workspace. */
  method CopyBlock(buffer: seq<Octet>) returns (l: array<Word>)
    requires |buffer| == 64
    ensures fresh(l) && Schedule(l[..], buffer, 0)
  {
    l := new Word[16];
    for t := 0 to 16
      invariant forall u: nat | u < t :: l[u] == LoadWord(buffer, u)
    {
      l[t] := LoadWord(buffer, t);
    }
  }

  function RegsOf(state: seq<Word>): Regs
    requires |state| == 5
  {
    Regs(state[0], state[1], state[2], state[3], state[4])
  }

  /** All 80 rounds on a copy of the block. */
  method RunRounds(h: Regs, buffer: seq<Octet>) returns (r: Regs)
    requires |buffer| == 64
    ensures r == Rounds(h, buffer, 80)
  {
    var l := CopyBlock(buffer);
    r := Rounds0To19(l, h, buffer, h);
    r := Rounds20To39(l, h, buffer, r);
    r := Rounds40To59(l, h, buffer, r);
    r := Rounds60To79(l, h, buffer, r);
  }

  method AddToState(state: array<Word>, r: Regs)
    requires state.Length == 5
    modifies state
    ensures RegsOf(state[..]) == AddRegs(RegsOf(old(state[..])), r)
  {
    state[0] := Add(state[0], r.a);
    state[1] := Add(state[1], r.b);
    state[2] := Add(state[2], r.c);
    state[3] := Add(state[3], r.d);
    state[4] := Add(state[4], r.e);
  }

  method SHA1Transform(state: array<Word>, buffer: seq<Octet>)
    requires state.Length == 5 && |buffer| == 64
    modifies state
    ensures RegsOf(state[..]) == Compress(RegsOf(old(state[..])), buffer)
  {
    var r := RunRounds(Regs(state[0], state[1], state[2], state[3], state[4]), buffer);
    AddToState(state, r);
  }

  // ----- SHA1Init, SHA1Update, SHA1Final -----

  const TWO29: nat := 0x2000_0000

  const TWO32: nat := 0x1_0000_0000

  const TWO64: nat := 0x1_0000_0000_0000_0000

  /** One word of the bit counter, an unsigned long. */
  type Counter = x: int | 0 <= x < 0x1_0000_0000

  /** The two counter words hold 8 times the octets seen, modulo 2^64. */
  ghost predicate Counts(low: Counter, high: Counter, octets: nat) {
    high * TWO32 + low == (8 * octets) % TWO64
  }

  /** The counter words after len more octets: len << 3 wraps, its carry and
      the three bits shifted out go to the high word. */
  function NewLow(low: Counter, len: nat): Counter {
    (low + (len * 8) % TWO32) % TWO32
  }

  function NewHigh(low: Counter, high: Counter, len: nat): Counter {
    var carry := if NewLow(low, len) < (len * 8) % TWO32 then 1 else 0;
    ((high + carry) % TWO32 + len / TWO29) % TWO32
  }

  lemma ModTwo64(x: int, k: int, r: int)
    requires x == k * TWO64 + r && 0 <= r < TWO64
    ensures x % TWO64 == r
  {
  }

  /** Splitting 8 * len at bit 32 and carrying loses nothing. */
  lemma SplitSum(low: Counter, high: Counter, len: nat, top: nat)
    requires len < TWO32
    requires top == (if NewLow(low, len) < (len * 8) % TWO32 then high + 1 else high) + len / TWO29
    ensures high * TWO32 + low + len * 8 == top * TWO32 + NewLow(low, len)
    ensures NewHigh(low, high, len) == top % TWO32
  {
    var shifted := (len * 8) % TWO32;
    assert len * 8 == len / TWO29 * TWO32 + shifted;
    assert low + shifted == (if NewLow(low, len) < shifted then TWO32 else 0) + NewLow(low, len);
  }

  lemma CounterAdds(low: Counter, high: Counter, octets: nat, len: nat)
    requires Counts(low, high, octets) && len < TWO32
    ensures Counts(NewLow(low, len), NewHigh(low, high, len), octets + len)
  {
    var top := (if NewLow(low, len) < (len * 8) % TWO32 then high + 1 else high) + len / TWO29;
    SplitSum(low, high, len, top);
    var k := 8 * octets / TWO64;
    ModTwo64(8 * (octets + len), k + top / TWO32, top % TWO32 * TWO32 + NewLow(low, len));
  }

  /** Bits 3 to 8 of the low counter word are the fill of the buffer. */
  lemma CounterTail(low: Counter, high: Counter, octets: nat)
    requires Counts(low, high, octets)
    ensures low / 8 % 64 == octets % 64 && low % 8 == 0
  {
    var k := 8 * octets / TWO64;
    var l := octets - k * 0x2000_0000_0000_0000 - high * 0x2000_0000;
    assert low == 8 * l;
    Mod64(octets, k * 0x80_0000_0000_0000 + high * 0x80_0000, l);
  }

  lemma Mod64(x: int, q: int, r: int)
    requires x == 64 * q + r
    ensures x % 64 == r % 64
  {
  }

  /** memcpy(&buffer[at], src, |src|). */
  method CopyInto(buffer: array<Octet>, at: nat, src: seq<Octet>)
    requires at + |src| <= buffer.Length
    modifies buffer
    ensures buffer[..] == old(buffer[..at]) + src + old(buffer[at + |src|..])
  {
    forall k | 0 <= k < |src| {
      buffer[at + k] := src[k];
    }
  }

  /** The octets of m in whole blocks. */
  function Whole(m: seq<Octet>): (n: nat)
    ensures n <= |m| && n % 64 == 0
  {
    |m| - |m| % 64
  }

  /** The buffer starts with the octets after the whole blocks. */
  ghost predicate Buffered(buffer: seq<Octet>, m: seq<Octet>) {
    |buffer| == 64 && buffer[..|m| % 64] == m[Whole(m)..]
  }

  /** No block was completed: the data joins the octets already buffered. */
  lemma BufferGrows(buffer: seq<Octet>, m: seq<Octet>, data: seq<Octet>)
    requires Buffered(buffer, m) && |m| % 64 + |data| <= 63
    ensures var j := |m| % 64; Buffered(buffer[..j] + data + buffer[j + |data|..], m + data)
    ensures (m + data)[..Whole(m + data)] == m[..Whole(m)]
  {
    assert Whole(m + data) == Whole(m);
  }

  /** The data up to i completed blocks: the rest starts the buffer. */
  lemma BufferRestarts(buffer: seq<Octet>, m: seq<Octet>, data: seq<Octet>, i: nat)
    requires |buffer| == 64 && i <= |data| < i + 64 && (|m| + i) % 64 == 0
    ensures Buffered(buffer[..0] + data[i..] + buffer[|data| - i..], m + data)
    ensures Whole(m + data) == |m| + i
  {
    assert Whole(m + data) == |m| + i;
    assert (m + data)[|m| + i..] == data[i..];
  }

  method BumpCount(count: array<Counter>, len: nat, ghost octets: nat)
    requires count.Length == 2 && len < TWO32 && Counts(count[0], count[1], octets)
    modifies count
    ensures Counts(count[0], count[1], octets + len)
  {
    CounterAdds(count[0], count[1], octets, len);
    count[0] := (count[0] + len * 8 % TWO32) % TWO32;
    if count[0] < len * 8 % TWO32 {
      count[1] := (count[1] + 1) % TWO32;
    }
    count[1] := (count[1] + len / TWO29) % TWO32;
  }

  /** The branch of SHA1Update that completes the buffered block and then hashes
      whole blocks straight from the data; m is the message before. */
  method TransformWhole(state: array<Word>, buffer: array<Octet>, data: seq<Octet>, j: nat, ghost m: seq<Octet>)
    returns (i: nat)
    requires state.Length == 5 && buffer.Length == 64 && state as object != buffer
    requires j == |m| % 64 && 63 < j + |data| < TWO32
    requires RegsOf(state[..]) == Chain(m[..Whole(m)]) && Buffered(buffer[..], m)
    modifies state, buffer
    ensures 0 < i <= |data| < i + 64 && (|m| + i) % 64 == 0
    ensures RegsOf(state[..]) == Chain((m + data)[..|m| + i])
  {
    hide Chain, Compress, RegsOf;
    i := 64 - j;
    CopyInto(buffer, j, data[..i]);
    FirstBlock(m, data, buffer[..]);
    SHA1Transform(state, buffer[..]);
    i := TransformRest(state, data, i, m);
  }

  /** The loop over the whole blocks that are left from start on. */
  method TransformRest(state: array<Word>, data: seq<Octet>, start: nat, ghost m: seq<Octet>) returns (i: nat)
    requires state.Length == 5 && 0 < start <= |data| && (|m| + start) % 64 == 0 && |m| % 64 + |data| < TWO32
    requires RegsOf(state[..]) == Chain((m + data)[..|m| + start])
    modifies state
    ensures start <= i <= |data| < i + 64 && (|m| + i) % 64 == 0
    ensures RegsOf(state[..]) == Chain((m + data)[..|m| + i])
  {
    hide Chain, Compress, RegsOf;
    ghost var n, all := |m|, m + data;
    i := start;
    NoWrap(n, i, |data|);
    while (i + 63) % TWO32 < |data|
      invariant start <= i <= |data| && (n + i) % 64 == 0 && (i + 63) % TWO32 == i + 63
      invariant RegsOf(state[..]) == Chain(all[..n + i])
    {
      NextBlock(m, data, i);
      SHA1Transform(state, data[i..i + 64]);
      i := i + 64;
      NoWrap(n, i, |data|);
    }
  }

  /** The buffered octets and the first ones of the data are one block. */
  lemma FirstBlock(m: seq<Octet>, data: seq<Octet>, block: seq<Octet>)
    requires var j := |m| % 64; 64 - j <= |data| && block == m[Whole(m)..] + data[..64 - j]
    ensures Chain((m + data)[..|m| + 64 - |m| % 64]) == Compress(Chain(m[..Whole(m)]), block)
  {
    hide Chain, Compress;
    assert (m + data)[..|m| + 64 - |m| % 64] == m[..Whole(m)] + block;
    ChainBlock(m[..Whole(m)], block);
  }

  lemma NextBlock(m: seq<Octet>, data: seq<Octet>, i: nat)
    requires i + 64 <= |data| && (|m| + i) % 64 == 0
    ensures Chain((m + data)[..|m| + (i + 64)]) == Compress(Chain((m + data)[..|m| + i]), data[i..i + 64])
  {
    hide Chain, Compress;
    assert (m + data)[..|m| + (i + 64)] == (m + data)[..|m| + i] + data[i..i + 64];
    ChainBlock((m + data)[..|m| + i], data[i..i + 64]);
  }

  lemma NoWrap(n: nat, i: nat, len: nat)
    requires (n + i) % 64 == 0 && i <= len && n % 64 + len < TWO32
    ensures (i + 63) % TWO32 == i + 63
  {
    var k, b := n / 64, (n + i) / 64;
    assert n % 64 + i == 64 * (b - k);
  }

  /** Whole multiples of 2^32 do not reach the low four octets. */
  lemma LowOctets(x: int, c: int, y: int)
    requires x == c * TWO32 + y
    ensures x % 256 == y % 256
    ensures x / 0x100 % 256 == y / 0x100 % 256
    ensures x / 0x1_0000 % 256 == y / 0x1_0000 % 256
    ensures x / 0x100_0000 % 256 == y / 0x100_0000 % 256
  {
    LowOctet(x, c * 0x100_0000, y);
    Shifted(x, 0x100, c * 0x100_0000, y);
    LowOctet(x / 0x100, c * 0x1_0000, y / 0x100);
    Shifted(x, 0x1_0000, c * 0x1_0000, y);
    LowOctet(x / 0x1_0000, c * 0x100, y / 0x1_0000);
    Shifted(x, 0x100_0000, c * 0x100, y);
    LowOctet(x / 0x100_0000, c, y / 0x100_0000);
  }

  lemma LowOctet(x: int, c: int, y: int)
    requires x == 256 * c + y
    ensures x % 256 == y % 256
  {
  }

  lemma Shifted(x: int, d: int, c: int, y: int)
    requires d == 0x100 || d == 0x1_0000 || d == 0x100_0000
    requires x == d * c + y
    ensures x / d == c + y / d
  {
  }

  lemma PowersOf256()
    ensures Memory.Power256(0) == 1 && Memory.Power256(1) == 0x100 && Memory.Power256(2) == 0x1_0000 && Memory.Power256(3) == 0x100_0000
    ensures Memory.Power256(4) == 0x1_0000_0000 && Memory.Power256(5) == 0x100_0000_0000
    ensures Memory.Power256(6) == 0x1_0000_0000_0000 && Memory.Power256(7) == 0x100_0000_0000_0000
  {
  }

  lemma HighOctets(x: nat)
    ensures x / 0x100_0000_0000 == x / TWO32 / 0x100
    ensures x / 0x1_0000_0000_0000 == x / TWO32 / 0x1_0000
    ensures x / 0x100_0000_0000_0000 == x / TWO32 / 0x100_0000
  {
  }

  lemma LowCounterOctet(low: Counter, high: Counter, octets: nat, k: nat)
    requires Counts(low, high, octets) && 4 <= k < 8
    ensures low / Memory.Power256(7 - k) % 256 == 8 * octets / Memory.Power256(7 - k) % 256
  {
    var x := 8 * octets;
    assert x == (x / TWO64 * TWO32 + high) * TWO32 + low;
    PowersOf256();
    LowOctets(x, x / TWO64 * TWO32 + high, low);
  }

  lemma HighCounterOctet(low: Counter, high: Counter, octets: nat, k: nat)
    requires Counts(low, high, octets) && k < 4
    ensures high / Memory.Power256(3 - k) % 256 == 8 * octets / Memory.Power256(7 - k) % 256
  {
    var x := 8 * octets;
    HighWord(low, high, x);
    hide Counts, Memory.Power256;
    PowersOf256();
    LowOctets(x / TWO32, x / TWO64, high);
    HighOctets(x);
  }

  lemma HighWord(low: Counter, high: Counter, x: nat)
    requires high * TWO32 + low == x % TWO64
    ensures x / TWO32 == x / TWO64 * TWO32 + high
  {
    var q := x / TWO64;
    assert x == (q * TWO32 + high) * TWO32 + low;
  }

  /** The counter words give the octets of the length field. */
  lemma CounterOctet(low: Counter, high: Counter, octets: nat, k: nat)
    requires Counts(low, high, octets) && k < 8
    ensures (if k >= 4 then low else high) / Memory.Power256(3 - k % 4) % 256 == 8 * octets / Memory.Power256(7 - k) % 256
  {
    if k >= 4 {
      assert 3 - k % 4 == 7 - k;
      LowCounterOctet(low, high, octets, k);
    } else {
      HighCounterOctet(low, high, octets, k);
    }
  }

  /** The message m followed by the one bit and z zero octets, not beyond the length field. */
  ghost predicate Padding(m: seq<Octet>, message: seq<Octet>, z: nat) {
    message == m + [0x80] + Zeros(z) && z <= (119 - |m| % 64) % 64
  }

  lemma PadOne(m: seq<Octet>, message: seq<Octet>, z: nat)
    requires Padding(m, message, z) && |message| % 64 != 56
    ensures Padding(m, message + [0], z + 1)
  {
    assert Zeros(z) + [0] == Zeros(z + 1);
    assert |message| == |m| + 1 + z;
  }

  /** Zero octets up to 56 modulo 64 are the padding of the RFC. */
  lemma PadIs(m: seq<Octet>, message: seq<Octet>, z: nat)
    requires Padding(m, message, z) && |message| % 64 == 56
    ensures Pad(m) == message + LengthField(|m|)
  {
    assert |message| == |m| + 1 + z;
    assert z == (119 - |m| % 64) % 64;
  }

  lemma PaddingStarts(m: seq<Octet>)
    ensures Padding(m, m + [0x80], 0)
  {
    assert m + [0x80] == m + [0x80] + Zeros(0);
  }

  lemma PaddingLength(m: seq<Octet>, message: seq<Octet>, z: nat)
    requires Padding(m, message, z)
    ensures z <= 64
  {
  }

  lemma WholeMessage(m: seq<Octet>)
    requires |m| % 64 == 0
    ensures m[..Whole(m)] == m
  {
  }

  lemma LengthFieldAt(octets: nat, k: nat)
    requires k < 8
    ensures LengthField(octets)[k] == LengthOctet(8 * octets, k)
    ensures LengthField(octets)[..k + 1] == LengthField(octets)[..k] + [LengthField(octets)[k]]
  {
    hide LengthOctet;
  }

  method FinalCount(count: array<Counter>, ghost octets: nat) returns (finalcount: seq<Octet>)
    requires count.Length == 2 && Counts(count[0], count[1], octets)
    ensures finalcount == LengthField(octets)
  {
    finalcount := [];
    for i := 0 to 8
      invariant finalcount == LengthField(octets)[..i]
    {
      CounterOctet(count[0], count[1], octets, i);
      LengthFieldAt(octets, i);
      hide LengthField, Counts, Memory.Power256;
      finalcount := finalcount + [((if i >= 4 then count[0] else count[1]) / Memory.Power256(3 - i % 4) % 256) as Octet];
    }
  }

  /** The shift by (3 - j) * 8 and the mask that take an octet out of a word. */
  method TakeOctet(w: Word, j: nat) returns (o: Octet)
    requires j < 4
    ensures o == WordOctet(w, j)
  {
    hide LastOctet;
    var shifted := w;
    if (3 - j) * 8 == 24 {
      shifted := w >> 24;
    } else if (3 - j) * 8 == 16 {
      shifted := w >> 16;
    } else if (3 - j) * 8 == 8 {
      shifted := w >> 8;
    }
    o := Truncate(shifted);
  }

  /** The cast to an unsigned char. */
  method Truncate(w: Word) returns (o: Octet)
    ensures o == LastOctet(w)
  {
    return (w & 255) as Octet;
  }

  lemma DigestAt(h: Regs, k: nat)
    requires k < 20
    ensures |Digest(h)| == 20 && Digest(h)[k] == WordOctet(Words(h)[k / 4], k % 4)
    ensures Digest(h)[..k + 1] == Digest(h)[..k] + [Digest(h)[k]]
  {
    hide WordOctet;
  }

  lemma WordsOf(s: seq<Word>)
    requires |s| == 5
    ensures Words(RegsOf(s)) == s
  {
  }

  method ReadDigest(state: array<Word>) returns (digest: seq<Octet>)
    requires state.Length == 5
    ensures digest == Digest(RegsOf(state[..]))
  {
    ghost var whole := Digest(RegsOf(state[..]));
    WordsOf(state[..]);
    hide WordOctet, Digest, Words, RegsOf;
    digest := [];
    for i := 0 to 20
      invariant |whole| == 20 && digest == whole[..i]
    {
      DigestAt(RegsOf(state[..]), i);
      var octet := TakeOctet(state[i / 4], i % 4);
      digest := digest + [octet];
    }
  }

  method Wipe(state: array<Word>, count: array<Counter>, buffer: array<Octet>)
    requires state.Length == 5 && count.Length == 2 && buffer.Length == 64
    modifies state, count, buffer
    ensures RegsOf(state[..]) == Regs(0, 0, 0, 0, 0) && count[..] == [0, 0] && buffer[..] == Zeros(64)
  {
    forall k | 0 <= k < 64 { buffer[k] := 0; }
    forall k | 0 <= k < 5 { state[k] := 0; }
    forall k | 0 <= k < 2 { count[k] := 0; }
  }

  /** Where the last copy of SHA1Update ends in the buffer, for len octets after j buffered ones. */
  function CopyEnd(j: nat, len: nat): nat {
    if (j + len) % TWO32 > 63 then (j + len) % 64 else j + len
  }

  /** It stays in the buffer exactly if the sum does not wrap. */
  lemma CopyStaysExactly(j: nat, len: nat)
    requires j < 64 && len < TWO32
    ensures CopyEnd(j, len) <= 64 <==> j + len < TWO32
  {
  }

  class Sha1Context {
    const state: array<Word>
    const count: array<Counter>
    const buffer: array<Octet>
    ghost var message: seq<Octet>

    ghost predicate Shape() {
      && state.Length == 5 && count.Length == 2 && buffer.Length == 64
      && state as object != count && state as object != buffer && count as object != buffer
    }

    /** The state has absorbed the whole blocks of the message, the buffer starts
        with the octets after them. */
    ghost predicate Valid()
      reads this, state, count, buffer
    {
      && Shape()
      && RegsOf(state[..]) == Chain(message[..Whole(message)])
      && Buffered(buffer[..], message)
      && Counts(count[0], count[1], |message|)
    }

    /** SHA1Init. */
    constructor ()
      ensures Valid() && message == []
      ensures fresh(state) && fresh(count) && fresh(buffer)
    {
      state := new Word[5];
      count := new Counter[2];
      buffer := new Octet[64];
      message := [];
      new;
      state[0] := 0x67452301;
      state[1] := 0xEFCDAB89;
      state[2] := 0x98BADCFE;
      state[3] := 0x10325476;
      state[4] := 0xC3D2E1F0;
      count[0] := 0;
      count[1] := 0;
    }

    /** SHA1Update, with j + len in 32 bits. */
    method Update(data: seq<Octet>)
      requires Valid() && |message| % 64 + |data| < TWO32
      modifies this, state, count, buffer
      ensures Valid() && message == old(message) + data
    {
      hide Chain, Counts, Buffered, RegsOf;
      var len := |data|;
      var j := count[0] / 8 % 64;
      ghost var m := message;
      CounterTail(count[0], count[1], |m|);
      BumpCount(count, len, |m|);
      var i := 0;
      if (j + len) % TWO32 > 63 {
        i := TransformWhole(state, buffer, data, j, m);
        j := 0;
        BufferRestarts(buffer[..], m, data, i);
      } else {
        BufferGrows(buffer[..], m, data);
        assert data[i..] == data;
      }
      CopyInto(buffer, j, data[i..]);
      message := m + data;
    }

    /** SHA1Final: the digest of everything seen, after which the context is wiped
        and the transform is run once more on the zeros. */
    method Final() returns (digest: seq<Octet>)
      requires Valid()
      modifies this, state, count, buffer
      ensures digest == Sha1(old(message))
      ensures RegsOf(state[..]) == Compress(Regs(0, 0, 0, 0, 0), Zeros(64))
      ensures count[..] == [0, 0] && buffer[..] == Zeros(64)
    {
      hide Chain, Counts, Buffered, RegsOf, Pad, LengthField, Digest, Compress;
      var finalcount := FinalCount(count, |message|);
      AddPadding(finalcount);
      WholeMessage(message);
      digest := ReadDigest(state);
      Wipe(state, count, buffer);
      SHA1Transform(state, buffer[..]);
    }

    /** The three calls of SHA1Update inside SHA1Final. */
    method AddPadding(finalcount: seq<Octet>)
      requires Valid() && finalcount == LengthField(|message|)
      modifies this, state, count, buffer
      ensures Valid() && message == Pad(old(message))
    {
      hide Valid, Pad, LengthField, Padding;
      ghost var m := message;
      ghost var z := 0;
      Update([0x80]);
      PaddingStarts(m);
      var aligned := AtLengthField();
      while !aligned
        invariant Valid() && Padding(m, message, z)
        invariant aligned <==> |message| % 64 == 56
        decreases 64 - z
      {
        PadOne(m, message, z);
        Update([0]);
        z := z + 1;
        PaddingLength(m, message, z);
        aligned := AtLengthField();
      }
      PadIs(m, message, z);
      Update(finalcount);
    }

    /** The loop test (count[0] & 504) == 448. */
    method AtLengthField() returns (aligned: bool)
      requires Valid()
      ensures aligned <==> |message| % 64 == 56
    {
      CounterTail(count[0], count[1], |message|);
      aligned := count[0] / 8 % 64 * 8 == 448;
    }
  }

  function Flatten(pieces: seq<seq<Octet>>): seq<Octet> {
    if pieces == [] then [] else Flatten(pieces[..|pieces| - 1]) + pieces[|pieces| - 1]
  }

  /** Each piece with the octets that are buffered before it has a length of 32 bits. */
  ghost predicate PiecesFit(pieces: seq<seq<Octet>>) {
    forall i | 0 <= i < |pieces| :: |Flatten(pieces[..i])| % 64 + |pieces[i]| < TWO32
  }

  /** A file hashed the way sha1file does, one SHA1Update per read: the digest does
      not depend on where the reads cut it. */
  method DigestOfPieces(pieces: seq<seq<Octet>>) returns (digest: seq<Octet>)
    requires PiecesFit(pieces)
    ensures digest == Sha1(Flatten(pieces))
  {
    hide Sha1Context.Valid, Sha1;
    var context := new Sha1Context();
    for i := 0 to |pieces|
      invariant fresh(context) && fresh(context.state) && fresh(context.count) && fresh(context.buffer)
      invariant context.Valid() && context.message == Flatten(pieces[..i])
    {
      assert pieces[..i + 1][..i] == pieces[..i];
      context.Update(pieces[i]);
    }
    assert pieces[..|pieces|] == pieces;
    digest := context.Final();
  }
}
