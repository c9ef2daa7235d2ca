/** SHA-1 as RFC 3174 defines it: the padding of section 4, the functions and
    constants of section 5 and the 80-word method of section 6.1. */
module Sha1Spec {
  import Memory

  type Word = bv32

  type Octet = bv8

  /** The five chaining words H0..H4, and also the registers A..E of one round. */
  datatype Regs = Regs(a: Word, b: Word, c: Word, d: Word, e: Word)

  const INITIAL := Regs(0x67452301, 0xEFCDAB89, 0x98BADCFE, 0x10325476, 0xC3D2E1F0)

  /** S^n of section 3, circular left shift, for the three counts the RFC uses. */
  function S1(x: Word): Word { (x << 1) | (x >> 31) }

  function S5(x: Word): Word { (x << 5) | (x >> 27) }

  function S30(x: Word): Word { (x << 30) | (x >> 2) }

  function F(t: nat, b: Word, c: Word, d: Word): Word
    requires t < 80
  {
    if t < 20 then (b & c) | (!b & d)
    else if t < 40 then b ^ c ^ d
    else if t < 60 then (b & c) | (b & d) | (c & d)
    else b ^ c ^ d
  }

  function K(t: nat): Word
    requires t < 80
  {
    if t < 20 then 0x5A827999
    else if t < 40 then 0x6ED9EBA1
    else if t < 60 then 0x8F1BBCDC
    else 0xCA62C1D6
  }

  function BigEndian(b0: Octet, b1: Octet, b2: Octet, b3: Octet): Word {
    ((b0 as Word) << 24) | ((b1 as Word) << 16) | ((b2 as Word) << 8) | (b3 as Word)
  }

  function Expand(w3: Word, w8: Word, w14: Word, w16: Word): Word {
    S1(w3 ^ w8 ^ w14 ^ w16)
  }

  /** Word t of the message schedule of one block. */
  function W(block: seq<Octet>, t: nat): Word
    requires |block| == 64
    decreases t, block
  {
    if t < 16 then
      BigEndian(block[4 * t], block[4 * t + 1], block[4 * t + 2], block[4 * t + 3])
    else
      Expand(W(block, t - 3), W(block, t - 8), W(block, t - 14), W(block, t - 16))
  }

  function Temp(a: Word, f: Word, e: Word, w: Word, k: Word): Word {
    S5(a) + f + e + w + k
  }

  function Step(block: seq<Octet>, t: nat, r: Regs): Regs
    requires |block| == 64 && t < 80
  {
    Regs(Temp(r.a, F(t, r.b, r.c, r.d), r.e, W(block, t), K(t)), r.a, S30(r.b), r.c, r.d)
  }

  function Rounds(h: Regs, block: seq<Octet>, n: nat): Regs
    requires |block| == 64 && n <= 80
    decreases n, block
  {
    if n == 0 then h else Step(block, n - 1, Rounds(h, block, n - 1))
  }

  function Add(x: Word, y: Word): Word { x + y }

  function AddRegs(h: Regs, r: Regs): Regs {
    Regs(Add(h.a, r.a), Add(h.b, r.b), Add(h.c, r.c), Add(h.d, r.d), Add(h.e, r.e))
  }

  function Compress(h: Regs, block: seq<Octet>): Regs
    requires |block| == 64
  {
    AddRegs(h, Rounds(h, block, 80))
  }

  /** The chaining value after all the blocks of m. */
  function Chain(m: seq<Octet>): Regs
    requires |m| % 64 == 0
  {
    if m == [] then INITIAL
    else Compress(Chain(m[..|m| - 64]), m[|m| - 64..])
  }

  function Zeros(n: nat): seq<Octet> {
    seq(n, _ => 0)
  }

  /** The 64-bit length in bits, most significant octet first. */
  function LengthField(octets: nat): (f: seq<Octet>)
    ensures |f| == 8
  {
    seq(8, k requires 0 <= k < 8 => LengthOctet(8 * octets, k))
  }

  function LengthOctet(bits: nat, k: nat): Octet
    requires k < 8
  {
    ((bits / Memory.Power256(7 - k)) % 256) as Octet
  }

  /** Section 4: a one bit, the fewest zero bits that reach 448 modulo 512, the length. */
  function Pad(m: seq<Octet>): (p: seq<Octet>)
    ensures |p| % 64 == 0 && |p| < |m| + 73
  {
    m + [0x80] + Zeros((119 - |m| % 64) % 64) + LengthField(|m|)
  }

  /** Octet j of a word, most significant first. */
  function WordOctet(w: Word, j: nat): Octet
    requires j < 4
  {
    LastOctet(if j == 0 then w >> 24 else if j == 1 then w >> 16 else if j == 2 then w >> 8 else w)
  }

  function LastOctet(w: Word): Octet { (w & 255) as Octet }

  /** The octets of a word make the word. */
  lemma OctetsMakeWord(w: Word)
    ensures BigEndian(WordOctet(w, 0), WordOctet(w, 1), WordOctet(w, 2), WordOctet(w, 3)) == w
  {
  }

  function Words(h: Regs): seq<Word> {
    [h.a, h.b, h.c, h.d, h.e]
  }

  function Digest(h: Regs): seq<Octet> {
    seq(20, i requires 0 <= i < 20 => WordOctet(Words(h)[i / 4], i % 4))
  }

  function Sha1(m: seq<Octet>): seq<Octet> {
    Digest(Chain(Pad(m)))
  }

  /** Chaining one more block. */
  lemma ChainBlock(m: seq<Octet>, block: seq<Octet>)
    requires |m| % 64 == 0 && |block| == 64
    ensures Chain(m + block) == Compress(Chain(m), block)
  {
    assert (m + block)[..|m|] == m;
    assert (m + block)[|m|..] == block;
  }
}
