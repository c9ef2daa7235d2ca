/** Memory as the loader sees it: the mapped file and the readable bytes behind it. */
module Memory {

  type Byte = x: int | 0 <= x < 0x100

  type U2 = x: int | 0 <= x < 0x1_0000

  type U4 = x: int | 0 <= x < 0x1_0000_0000

  type S4 = x: int | -0x8000_0000 <= x < 0x8000_0000

  const NO_INDEX: U4 := 0xFFFF_FFFF

  /** Little-endian loads. */
  function Load2(m: seq<Byte>, p: nat): U2
    requires p + 2 <= |m|
  {
    var a: int, b: int := m[p], m[p + 1];
    a + 0x100 * b
  }

  function Load4(m: seq<Byte>, p: nat): U4
    requires p + 4 <= |m|
  {
    Load2(m, p) as int + 0x1_0000 * Load2(m, p + 2) as int
  }

  function Power2(n: nat): (r: nat)
    ensures r > 0
  {
    if n == 0 then 1 else 2 * Power2(n - 1)
  }

  function Power256(n: nat): (r: nat)
    ensures r > 0
  {
    if n == 0 then 1 else 0x100 * Power256(n - 1)
  }

  datatype Option<T> = None | Some(value: T)

  // ----- Bytes that are written -----

  /** These bytes stand at p. */
  predicate StandsAt(m: seq<Byte>, p: nat, bytes: seq<Byte>) {
    p + |bytes| <= |m| && m[p..p + |bytes|] == bytes
  }

  /** One piece after the other. */
  lemma StandsInParts(m: seq<Byte>, p: nat, a: seq<Byte>, b: seq<Byte>)
    ensures StandsAt(m, p, a + b) <==> StandsAt(m, p, a) && StandsAt(m, p + |a|, b)
  {
    var n := |a + b|;
    if p + n <= |m| {
      assert m[p..p + |a|] == m[p..p + n][..|a|] && m[p + |a|..p + |a| + |b|] == m[p..p + n][|a|..];
      assert (a + b)[..|a|] == a && (a + b)[|a|..] == b;
      assert m[p..p + n] == m[p..p + |a|] + m[p + |a|..p + |a| + |b|];
    }
  }

  function Bytes2(v: U2): (bytes: seq<Byte>)
    ensures |bytes| == 2
  {
    [v % 0x100, v / 0x100]
  }

  function Bytes4(v: U4): (bytes: seq<Byte>)
    ensures |bytes| == 4
  {
    [v % 0x100, v / 0x100 % 0x100, v / 0x1_0000 % 0x100, v / 0x100_0000]
  }

  /** What is written is loaded. */
  lemma Load2Written(m: seq<Byte>, p: nat, v: U2)
    requires StandsAt(m, p, Bytes2(v))
    ensures Load2(m, p) == v
  {
    assert m[p] == m[p..p + 2][0] && m[p + 1] == m[p..p + 2][1];
  }

  lemma Load4Written(m: seq<Byte>, p: nat, v: U4)
    requires StandsAt(m, p, Bytes4(v))
    ensures Load4(m, p) == v
  {
    var b := Bytes4(v);
    assert m[p] == m[p..p + 4][0] && m[p + 1] == m[p..p + 4][1] && m[p + 2] == m[p..p + 4][2] && m[p + 3] == m[p..p + 4][3];
    FourBytes(v);
  }

  lemma FourBytes(v: nat)
    ensures v % 0x100 + 0x100 * (v / 0x100 % 0x100) + 0x1_0000 * (v / 0x1_0000 % 0x100 + 0x100 * (v / 0x100_0000)) == v
  {
    var a := v / 0x100;
    var b := a / 0x100;
    assert v / 0x1_0000 == b && v / 0x100_0000 == b / 0x100;
  }

  // ----- Pieces, one after the other -----

  function Flat(pieces: seq<seq<Byte>>): seq<Byte> {
    if pieces == [] then [] else pieces[0] + Flat(pieces[1..])
  }

  function Offset(pieces: seq<seq<Byte>>, k: nat): nat
    requires k <= |pieces|
  {
    if k == 0 then 0 else Offset(pieces, k - 1) + |pieces[k - 1]|
  }

  lemma {:induction false} OffsetBehindFirst(pieces: seq<seq<Byte>>, k: nat)
    requires 0 < k <= |pieces|
    ensures Offset(pieces, k) == |pieces[0]| + Offset(pieces[1..], k - 1)
  {
    if k > 1 {
      OffsetBehindFirst(pieces, k - 1);
    }
  }

  lemma {:induction false} FlatLength(pieces: seq<seq<Byte>>)
    ensures |Flat(pieces)| == Offset(pieces, |pieces|)
  {
    if pieces != [] {
      FlatLength(pieces[1..]);
      OffsetBehindFirst(pieces, |pieces|);
    }
  }

  /** Each piece stands where the ones before it end. */
  lemma {:induction false} PieceStands(m: seq<Byte>, p: nat, pieces: seq<seq<Byte>>, k: nat)
    requires StandsAt(m, p, Flat(pieces)) && k < |pieces|
    ensures StandsAt(m, p + Offset(pieces, k), pieces[k])
    decreases k
  {
    StandsInParts(m, p, pieces[0], Flat(pieces[1..]));
    hide StandsAt;
    if k > 0 {
      OffsetBehindFirst(pieces, k);
      PieceStands(m, p + |pieces[0]|, pieces[1..], k - 1);
    }
  }

  /** The file ends at end; reads that are checked only afterwards may go a little further. */
  ghost predicate Readable(m: seq<Byte>, end: nat) {
    end + 16 <= |m|
  }
}

/** LEB128 numbers (section 7.6 of DWARF 3) as libdex/Leb128.h reads and writes them.
    On these ranges x & 0x7f is x % 128, and | of disjoint bits is +. */
module Leb128 {
  import opened Memory

  // ----- What an encoding means -----

  function Low7(b: int): int { b % 128 }

  /** Seven bits a byte, least significant group first. */
  function Groups(m: seq<Byte>, p: nat, n: nat): nat
    requires p + n <= |m|
    decreases n
  {
    if n == 0 then 0 else Low7(m[p]) + 128 * Groups(m, p + 1, n - 1)
  }

  /** An encoding goes on while the top bit is set, for five bytes at most. */
  function Size(m: seq<Byte>, p: nat): (n: nat)
    requires p + 5 <= |m|
    ensures 1 <= n <= 5
  {
    if m[p] < 128 then 1 else if m[p + 1] < 128 then 2 else if m[p + 2] < 128 then 3
    else if m[p + 3] < 128 then 4 else 5
  }

  /** The place after the encoding. */
  function After(m: seq<Byte>, p: nat): nat
    requires p + 5 <= |m|
  {
    p + Size(m, p)
  }

  function Unsigned(m: seq<Byte>, p: nat): U4
    requires p + 5 <= |m|
  {
    Groups(m, p, Size(m, p)) % 0x1_0000_0000
  }

  /** Two's complement in 7 bits a byte, or in 32 bits when there are five bytes. */
  function Signed(m: seq<Byte>, p: nat): int
    requires p + 5 <= |m|
  {
    var n := Size(m, p);
    var raw := Groups(m, p, n);
    if n == 5 then AsSigned(raw)
    else if raw < Power2(7 * n - 1) then raw else raw - Power2(7 * n)
  }

  /** A 32-bit value as an int. */
  function AsSigned(x: int): S4 {
    var u := x % 0x1_0000_0000; if u < 0x8000_0000 then u else u - 0x1_0000_0000
  }

  /** Syntactically valid and not past the limit. */
  predicate Valid(m: seq<Byte>, p: nat, limit: nat)
    requires p + 5 <= |m|
  {
    p + Size(m, p) <= limit && !(Size(m, p) == 5 && m[p + 4] > 0x0f)
  }

  // ----- Readers -----

  lemma UpTo5Groups(m: seq<Byte>, p: nat)
    requires p + 5 <= |m|
    ensures Groups(m, p, 1) == Low7(m[p]) < 0x80
    ensures Groups(m, p, 2) == Groups(m, p, 1) + Low7(m[p + 1]) * 0x80 < 0x4000
    ensures Groups(m, p, 3) == Groups(m, p, 2) + Low7(m[p + 2]) * 0x4000 < 0x20_0000
    ensures Groups(m, p, 4) == Groups(m, p, 3) + Low7(m[p + 3]) * 0x20_0000 < 0x1000_0000
    ensures Groups(m, p, 5) == Groups(m, p, 4) + Low7(m[p + 4]) * 0x1000_0000
  {
    assert Groups(m, p + 4, 1) == Low7(m[p + 4]);
    assert Groups(m, p + 3, 2) == Low7(m[p + 3]) + 128 * Groups(m, p + 4, 1);
  }

  /** Only four bits of a fifth byte fit into 32 bits. */
  lemma TopGroup(rest: int, cur: int)
    requires 0 <= rest < 0x1000_0000 && 0 <= cur < 256
    ensures 0 <= rest + cur * 0x1000_0000 % 0x1_0000_0000 < 0x1_0000_0000
    ensures (rest + Low7(cur) * 0x1000_0000) % 0x1_0000_0000 == rest + cur * 0x1000_0000 % 0x1_0000_0000
    ensures (rest + cur * 0x1000_0000) % 0x1_0000_0000 == rest + cur * 0x1000_0000 % 0x1_0000_0000
  {
    LowFourBits(cur);
    var q, q', r := cur / 16, Low7(cur) / 16, cur % 16;
    hide Low7;
    FourBitsFit(0, q, r);
    FourBitsFit(rest, q, r);
    FourBitsFit(rest, q', r);
  }

  lemma LowFourBits(cur: int)
    requires 0 <= cur < 256
    ensures cur == 16 * (cur / 16) + cur % 16 && Low7(cur) == 16 * (Low7(cur) / 16) + cur % 16
  {
    LowSevenBits(cur);
    hide Low7;
    if cur >= 128 {
      assert (cur - 128) / 16 == cur / 16 - 8;
    }
  }

  lemma LowSevenBits(cur: int)
    requires 0 <= cur < 256
    ensures Low7(cur) == if cur < 128 then cur else cur - 128
  {
  }

  lemma FourBitsFit(rest: int, q: int, r: int)
    requires 0 <= rest < 0x1000_0000 && 0 <= r < 16
    ensures (rest + (16 * q + r) * 0x1000_0000) % 0x1_0000_0000 == rest + r * 0x1000_0000 < 0x1_0000_0000
  {
    assert rest + (16 * q + r) * 0x1000_0000 == q * 0x1_0000_0000 + (rest + r * 0x1000_0000);
  }

  lemma UnsignedBySize(m: seq<Byte>, p: nat)
    requires p + 5 <= |m|
    ensures Size(m, p) < 5 ==> Unsigned(m, p) == Groups(m, p, Size(m, p))
    ensures Size(m, p) == 5 ==> Unsigned(m, p) == Groups(m, p, 4) + m[p + 4] as int * 0x1000_0000 % 0x1_0000_0000
  {
    UpTo5Groups(m, p);
    if Size(m, p) == 5 {
      TopGroup(Groups(m, p, 4), m[p + 4]);
    }
  }

  method ReadUnsignedLeb128(m: seq<Byte>, p: nat) returns (result: U4, next: nat)
    requires p + 5 <= |m|
    ensures result == Unsigned(m, p) && next == p + Size(m, p)
  {
    UpTo5Groups(m, p);
    UnsignedBySize(m, p);
    hide Groups, Unsigned;
    result, next := m[p], p + 1;
    if result > 0x7f {
      var cur: int := m[next];
      next := next + 1;
      result := result % 128 + Low7(cur) * 0x80;
      if cur > 0x7f {
        cur := m[next];
        next := next + 1;
        result := result + Low7(cur) * 0x4000;
        if cur > 0x7f {
          cur := m[next];
          next := next + 1;
          result := result + Low7(cur) * 0x20_0000;
          if cur > 0x7f {
            cur := m[next];
            next := next + 1;
            result := result + cur * 0x1000_0000 % 0x1_0000_0000;
          }
        }
      }
    }
  }

  /** (x << k) >> k on an int. */
  function UpAndDown(x: int, k: nat): int {
    AsSigned(x * Power2(k)) / Power2(k)
  }

  lemma Powers()
    ensures Power2(4) == 0x10 && Power2(6) == 0x40 && Power2(7) == 0x80 && Power2(11) == 0x800
    ensures Power2(13) == 0x2000 && Power2(14) == 0x4000 && Power2(18) == 0x4_0000 && Power2(20) == 0x10_0000
    ensures Power2(21) == 0x20_0000 && Power2(25) == 0x200_0000 && Power2(27) == 0x800_0000
    ensures Power2(28) == 0x1000_0000 && Power2(31) == 0x8000_0000 && Power2(32) == 0x1_0000_0000
  {
  }

  /** Shifting up and down copies the top bit of the groups into the sign. */
  lemma SignExtension(x: int)
    ensures 0 <= x < 0x80 ==> UpAndDown(x, 25) == if x < 0x40 then x else x - 0x80
    ensures 0 <= x < 0x4000 ==> UpAndDown(x, 18) == if x < 0x2000 then x else x - 0x4000
    ensures 0 <= x < 0x20_0000 ==> UpAndDown(x, 11) == if x < 0x10_0000 then x else x - 0x20_0000
    ensures 0 <= x < 0x1000_0000 ==> UpAndDown(x, 4) == if x < 0x800_0000 then x else x - 0x1000_0000
  {
    Powers();
    if 0 <= x < 0x80 {
      assert AsSigned(x * 0x200_0000) == (if x < 0x40 then x else x - 0x80) * 0x200_0000;
    }
    if 0 <= x < 0x4000 {
      assert AsSigned(x * 0x4_0000) == (if x < 0x2000 then x else x - 0x4000) * 0x4_0000;
    }
    if 0 <= x < 0x20_0000 {
      assert AsSigned(x * 0x800) == (if x < 0x10_0000 then x else x - 0x20_0000) * 0x800;
    }
    if 0 <= x < 0x1000_0000 {
      assert AsSigned(x * 0x10) == (if x < 0x800_0000 then x else x - 0x1000_0000) * 0x10;
    }
  }

  lemma SignedOf1(m: seq<Byte>, p: nat)
    requires p + 5 <= |m| && Size(m, p) == 1
    ensures Signed(m, p) == UpAndDown(m[p], 25)
  {
    Powers();
    SignExtension(m[p]);
  }

  lemma SignedOf2(m: seq<Byte>, p: nat)
    requires p + 5 <= |m|
    ensures Groups(m, p, 2) == m[p] as int % 128 + Low7(m[p + 1]) * 0x80
    ensures Size(m, p) == 2 ==> Signed(m, p) == UpAndDown(Groups(m, p, 2), 18)
  {
    Powers();
    SignExtension(Groups(m, p, 2));
  }

  lemma SignedOf3(m: seq<Byte>, p: nat)
    requires p + 5 <= |m|
    ensures Groups(m, p, 3) == Groups(m, p, 2) + Low7(m[p + 2]) * 0x4000
    ensures Size(m, p) == 3 ==> Signed(m, p) == UpAndDown(Groups(m, p, 3), 11)
  {
    UpTo5Groups(m, p);
    Powers();
    SignExtension(Groups(m, p, 3));
  }

  lemma SignedOf4(m: seq<Byte>, p: nat)
    requires p + 5 <= |m|
    ensures Groups(m, p, 4) == Groups(m, p, 3) + Low7(m[p + 3]) * 0x20_0000
    ensures Size(m, p) == 4 ==> Signed(m, p) == UpAndDown(Groups(m, p, 4), 4)
  {
    UpTo5Groups(m, p);
    Powers();
    SignExtension(Groups(m, p, 4));
  }

  lemma SignedOf5(m: seq<Byte>, p: nat)
    requires p + 5 <= |m| && Size(m, p) == 5
    ensures Signed(m, p) == AsSigned(Groups(m, p, 4) + m[p + 4] as int * 0x1000_0000)
  {
    UpTo5Groups(m, p);
    TopGroup(Groups(m, p, 4), m[p + 4]);
  }

  method ReadSignedLeb128(m: seq<Byte>, p: nat) returns (result: int, next: nat)
    requires p + 5 <= |m|
    ensures result == Signed(m, p) && next == p + Size(m, p)
  {
    hide Groups, Signed, UpAndDown, Low7;
    result, next := m[p], p + 1;
    if result <= 0x7f {
      SignedOf1(m, p);
      result := UpAndDown(result, 25);
    } else {
      var cur: int := m[next];
      next := next + 1;
      SignedOf2(m, p);
      result := result % 128 + Low7(cur) * 0x80;
      if cur <= 0x7f {
        result := UpAndDown(result, 18);
      } else {
        result, next := ReadSignedFromThird(m, p, result);
      }
    }
  }

  /** The rest of readSignedLeb128 when the first two bytes continue. */
  method ReadSignedFromThird(m: seq<Byte>, p: nat, two: int) returns (result: int, next: nat)
    requires p + 5 <= |m| && m[p] > 0x7f && m[p + 1] > 0x7f && two == Groups(m, p, 2)
    ensures result == Signed(m, p) && next == p + Size(m, p)
  {
    hide Groups, Signed, UpAndDown, AsSigned, Low7;
    var cur: int := m[p + 2];
    next := p + 3;
    SignedOf3(m, p);
    result := two + Low7(cur) * 0x4000;
    if cur <= 0x7f {
      result := UpAndDown(result, 11);
    } else {
      cur := m[next];
      next := next + 1;
      SignedOf4(m, p);
      result := result + Low7(cur) * 0x20_0000;
      if cur <= 0x7f {
        result := UpAndDown(result, 4);
      } else {
        cur := m[next];
        next := next + 1;
        SignedOf5(m, p);
        result := AsSigned(result + cur * 0x1000_0000);
      }
    }
  }

  /** The limit, if there is one, is looked at after the read. */
  method ReadAndVerifyUnsignedLeb128(m: seq<Byte>, p: nat, limit: Option<nat>, okay: bool)
    returns (result: U4, next: nat, okay': bool)
    requires p + 5 <= |m|
    ensures result == Unsigned(m, p) && next == p + Size(m, p)
    ensures limit.Some? ==> okay' == (okay && Valid(m, p, limit.value))
    ensures limit.None? ==> okay' == (okay && !(Size(m, p) == 5 && m[p + 4] > 0x0f))
  {
    okay' := okay;
    result, next := ReadUnsignedLeb128(m, p);
    if (limit.Some? && next > limit.value) || (next - p == 5 && m[p + 4] > 0x0f) {
      okay' := false;
    }
  }

  method ReadAndVerifySignedLeb128(m: seq<Byte>, p: nat, limit: Option<nat>, okay: bool)
    returns (result: int, next: nat, okay': bool)
    requires p + 5 <= |m|
    ensures result == Signed(m, p) && next == p + Size(m, p)
    ensures limit.Some? ==> okay' == (okay && Valid(m, p, limit.value))
    ensures limit.None? ==> okay' == (okay && !(Size(m, p) == 5 && m[p + 4] > 0x0f))
  {
    okay' := okay;
    result, next := ReadSignedLeb128(m, p);
    if (limit.Some? && next > limit.value) || (next - p == 5 && m[p + 4] > 0x0f) {
      okay' := false;
    }
  }

  // ----- Writer -----

  /** The shortest encoding. */
  function Encode(v: nat): (e: seq<Byte>)
    ensures |e| > 0
  {
    if v < 128 then [v] else [v % 128 + 128] + Encode(v / 128)
  }

  method WriteUnsignedLeb128(buffer: array<Byte>, at: nat, v: U4) returns (end: nat)
    requires at + |Encode(v)| <= buffer.Length
    modifies buffer
    ensures end == at + |Encode(v)|
    ensures forall k | 0 <= k < |Encode(v)| :: buffer[at + k] == Encode(v)[k]
    ensures forall k | 0 <= k < buffer.Length && !(at <= k < end) :: buffer[k] == old(buffer[k])
  {
    var data: U4 := v;
    end := at;
    ghost var written: seq<Byte> := [];
    while true
      invariant at <= end == at + |written| && end + |Encode(data)| <= buffer.Length
      invariant written + Encode(data) == Encode(v)
      invariant forall k | 0 <= k < |written| :: buffer[at + k] == written[k]
      invariant forall k | 0 <= k < buffer.Length && !(at <= k < end) :: buffer[k] == old(buffer[k])
      decreases data
    {
      var out := data % 128;
      if out != data {
        buffer[end] := out + 128;
        written := written + [out + 128];
        end := end + 1;
        data := data / 128;
      } else {
        buffer[end] := out;
        end := end + 1;
        break;
      }
    }
  }

  method UnsignedLeb128Size(v: U4) returns (count: nat)
    ensures count == |Encode(v)|
  {
    var data: U4 := v;
    count := 0;
    while true
      invariant count + |Encode(data)| == |Encode(v)|
      decreases data
    {
      data := data / 128;
      count := count + 1;
      if data == 0 {
        break;
      }
    }
  }

  // ----- Round trip -----

  lemma {:induction false} EncodeGroups(v: nat, m: seq<Byte>, p: nat)
    requires p + |Encode(v)| <= |m| && m[p..p + |Encode(v)|] == Encode(v)
    ensures Groups(m, p, |Encode(v)|) == v
    ensures forall q | p <= q < p + |Encode(v)| :: m[q] < 128 <==> q == p + |Encode(v)| - 1
  {
    var n := |Encode(v)|;
    assert m[p..p + n][0] == m[p];
    if v >= 128 {
      assert m[p + 1..p + n] == m[p..p + n][1..];
      EncodeGroups(v / 128, m, p + 1);
    }
  }

  lemma EncodeLength(v: nat)
    ensures |Encode(v)| <= 1 <==> v < 0x80
    ensures |Encode(v)| <= 2 <==> v < 0x4000
    ensures |Encode(v)| <= 3 <==> v < 0x20_0000
    ensures |Encode(v)| <= 4 <==> v < 0x1000_0000
    ensures |Encode(v)| <= 5 <==> v < 0x8_0000_0000
  {
    if v >= 128 {
      var a := v / 128;
      assert |Encode(v)| == 1 + |Encode(a)|;
      if a >= 128 {
        var b := a / 128;
        assert |Encode(a)| == 1 + |Encode(b)|;
        if b >= 128 {
          var c := b / 128;
          assert |Encode(b)| == 1 + |Encode(c)|;
        }
      }
    }
  }

  /** Wherever a written u4 stands, it is read back, in full and as valid. */
  lemma RoundTrip(v: U4, m: seq<Byte>, p: nat, limit: nat)
    requires p + 5 <= |m| && p + |Encode(v)| <= limit && p + |Encode(v)| <= |m|
    requires m[p..p + |Encode(v)|] == Encode(v)
    ensures Unsigned(m, p) == v && Size(m, p) == |Encode(v)| && Valid(m, p, limit)
  {
    EncodeGroups(v, m, p);
    EncodeLength(v);
    SizeOfEncoding(m, p, |Encode(v)|);
    if |Encode(v)| == 5 {
      SmallTopGroup(m, p, v);
    }
  }

  lemma SizeOfEncoding(m: seq<Byte>, p: nat, n: nat)
    requires p + 5 <= |m| && 1 <= n <= 5
    requires forall q | p <= q < p + n :: m[q] < 128 <==> q == p + n - 1
    ensures Size(m, p) == n
  {
  }

  lemma SmallTopGroup(m: seq<Byte>, p: nat, v: U4)
    requires p + 5 <= |m| && m[p + 4] < 128 && Groups(m, p, 5) == v
    ensures m[p + 4] <= 0x0f
  {
    UpTo5Groups(m, p);
  }

  // ----- Signed numbers -----

  /** The shortest two's complement encoding: it ends where the rest is the sign of the last group. */
  function EncodeSigned(v: int): (e: seq<Byte>)
    ensures |e| > 0
    decreases if v < 0 then -v else v
  {
    if -64 <= v < 64 then [v % 128] else [v % 128 + 128] + EncodeSigned(v / 128)
  }

  lemma Power2Seven(k: nat)
    ensures Power2(k + 7) == 128 * Power2(k)
  {
    assert Power2(k + 7) == 2 * Power2(k + 6) && Power2(k + 6) == 2 * Power2(k + 5);
    assert Power2(k + 5) == 2 * Power2(k + 4) && Power2(k + 4) == 2 * Power2(k + 3);
    assert Power2(k + 3) == 2 * Power2(k + 2) && Power2(k + 2) == 2 * Power2(k + 1);
  }

  /** raw is v in n groups of two's complement. */
  predicate TwosComplement(raw: int, v: int, n: nat)
    requires n > 0
  {
    && raw == v + (if v < 0 then Power2(7 * n) as int else 0)
    && v + Power2(7 * n - 1) >= 0 && v < Power2(7 * n - 1)
  }

  /** One group more below. */
  lemma GroupBelow(raw: int, v: int, n: nat)
    requires n > 0 && TwosComplement(raw, v / 128, n)
    ensures TwosComplement(v % 128 + 128 * raw, v, n + 1)
  {
    Power2Seven(7 * n);
    Power2Seven(7 * n - 1);
    var w, b := v / 128, v % 128;
    assert v == 128 * w + b;
    hide Power2;
  }

  lemma {:induction false} EncodeSignedGroups(v: int, m: seq<Byte>, p: nat)
    requires p + |EncodeSigned(v)| <= |m| && m[p..p + |EncodeSigned(v)|] == EncodeSigned(v)
    ensures TwosComplement(Groups(m, p, |EncodeSigned(v)|), v, |EncodeSigned(v)|)
    ensures forall q | p <= q < p + |EncodeSigned(v)| :: m[q] < 128 <==> q == p + |EncodeSigned(v)| - 1
    decreases if v < 0 then -v else v
  {
    hide TwosComplement;
    var n := |EncodeSigned(v)|;
    assert m[p..p + n][0] == m[p];
    assert Groups(m, p, n) == Low7(m[p]) + 128 * Groups(m, p + 1, n - 1);
    if -64 <= v < 64 {
      OnlyGroup(v);
    } else {
      assert m[p + 1..p + n] == m[p..p + n][1..];
      EncodeSignedGroups(v / 128, m, p + 1);
      hide Groups;
      GroupBelow(Groups(m, p + 1, n - 1), v, n - 1);
    }
  }

  lemma OnlyGroup(v: int)
    requires -64 <= v < 64
    ensures TwosComplement(v % 128, v, 1)
  {
    Powers();
  }

  lemma EncodeSignedLength(v: int)
    ensures |EncodeSigned(v)| <= 1 <==> -0x40 <= v < 0x40
    ensures |EncodeSigned(v)| <= 2 <==> -0x2000 <= v < 0x2000
    ensures |EncodeSigned(v)| <= 3 <==> -0x10_0000 <= v < 0x10_0000
    ensures |EncodeSigned(v)| <= 4 <==> -0x800_0000 <= v < 0x800_0000
    ensures |EncodeSigned(v)| <= 5 <==> -0x4_0000_0000 <= v < 0x4_0000_0000
  {
    var a := v / 128;
    var b := a / 128;
    var c := b / 128;
    assert !(-64 <= v < 64) ==> |EncodeSigned(v)| == 1 + |EncodeSigned(a)|;
    assert !(-64 <= a < 64) ==> |EncodeSigned(a)| == 1 + |EncodeSigned(b)|;
    assert !(-64 <= b < 64) ==> |EncodeSigned(b)| == 1 + |EncodeSigned(c)|;
  }

  /** Wherever a written s4 stands, it is read back in full. It is valid, inside the limit, exactly
      from -2^27 on: below that the sign fills the fifth byte. */
  lemma SignedRoundTrip(v: S4, m: seq<Byte>, p: nat, limit: nat)
    requires p + 5 <= |m| && p + |EncodeSigned(v)| <= limit && p + |EncodeSigned(v)| <= |m|
    requires m[p..p + |EncodeSigned(v)|] == EncodeSigned(v)
    ensures Signed(m, p) == v && Size(m, p) == |EncodeSigned(v)|
    ensures Valid(m, p, limit) <==> v >= -0x800_0000
  {
    var n := |EncodeSigned(v)|;
    EncodeSignedGroups(v, m, p);
    EncodeSignedLength(v);
    SizeOfEncoding(m, p, n);
    hide EncodeSigned, Groups;
    if n == 5 {
      FifthGroup(m, p, v);
    } else {
      hide AsSigned;
      Power2Seven(7 * n - 7);
      assert Power2(7 * n) == 2 * Power2(7 * n - 1);
    }
  }

  lemma FifthGroup(m: seq<Byte>, p: nat, v: S4)
    requires p + 5 <= |m| && m[p + 4] < 128 && Groups(m, p, 5) == v + (if v < 0 then Power2(35) else 0)
    ensures AsSigned(Groups(m, p, 5)) == v && (m[p + 4] <= 0x0f <==> v >= 0)
  {
    hide Groups, AsSigned, Power2, Low7;
    UpTo5Groups(m, p);
    Power35();
    WholeByte(m[p + 4]);
    var rest, top: int := Groups(m, p, 4), m[p + 4];
    FifthByte(rest, top, v);
    SignIsBack(v);
  }

  lemma Power35()
    ensures Power2(35) == 0x8_0000_0000
  {
    Power2Seven(28);
    Powers();
    hide Power2;
  }

  lemma WholeByte(b: int)
    requires 0 <= b < 128
    ensures Low7(b) == b
  {
  }

  lemma FifthByte(rest: int, top: int, v: S4)
    requires 0 <= rest < 0x1000_0000 && 0 <= top < 128
    requires rest + top * 0x1000_0000 == v + (if v < 0 then 0x8_0000_0000 else 0)
    ensures top <= 0x0f <==> v >= 0
  {
  }

  lemma SignIsBack(v: S4)
    ensures AsSigned(v) == v
    ensures v < 0 ==> AsSigned(v + 0x8_0000_0000) == v
  {
  }
}
