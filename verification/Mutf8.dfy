/** Lexicographic order, the one strcmp and dexUtf8Cmp compute. */
module Lexicographic {

  /** Negative, zero or positive: the difference at the first place where a and b
      differ, an end being smaller than anything. */
  function Order(a: seq<int>, b: seq<int>): int {
    if a == [] && b == [] then 0
    else if a == [] then -1
    else if b == [] then 1
    else if a[0] != b[0] then a[0] - b[0]
    else Order(a[1..], b[1..])
  }

  predicate SameSign(x: int, y: int) {
    (x < 0 <==> y < 0) && (x > 0 <==> y > 0)
  }

  /** a and b agree up to k, and there a has ended or has the smaller element. */
  ghost predicate SmallerAt(a: seq<int>, b: seq<int>, k: nat) {
    && k <= |a| && k < |b| && (forall i | 0 <= i < k :: a[i] == b[i])
    && (k == |a| || a[k] < b[k])
  }

  ghost predicate Smaller(a: seq<int>, b: seq<int>) {
    exists k: nat :: SmallerAt(a, b, k)
  }

  /** The order is that of a dictionary. */
  lemma {:induction false} OrderMeaning(a: seq<int>, b: seq<int>)
    ensures Order(a, b) < 0 <==> Smaller(a, b)
  {
    if a == [] || b == [] || a[0] != b[0] {
      assert Order(a, b) < 0 ==> SmallerAt(a, b, 0);
    } else {
      var a', b' := a[1..], b[1..];
      OrderMeaning(a', b');
      if k: nat :| SmallerAt(a', b', k) {
        assert SmallerAt(a, b, k + 1) by {
          assert forall i | 0 <= i < k :: a'[i] == a[i + 1] && b'[i] == b[i + 1];
        }
      }
      if k: nat :| SmallerAt(a, b, k) {
        assert SmallerAt(a', b', k - 1) by {
          assert forall i | 0 <= i < k - 1 :: a'[i] == a[i + 1] && b'[i] == b[i + 1];
        }
      }
    }
  }

  lemma {:induction false} OrderZero(a: seq<int>, b: seq<int>)
    ensures Order(a, b) == 0 <==> a == b
  {
    if a != [] && b != [] && a[0] == b[0] {
      OrderZero(a[1..], b[1..]);
      assert a == [a[0]] + a[1..] && b == [b[0]] + b[1..];
    }
  }

  lemma {:induction false} OrderAntisymmetric(a: seq<int>, b: seq<int>)
    ensures SameSign(Order(a, b), -Order(b, a))
  {
    if a != [] && b != [] && a[0] == b[0] {
      OrderAntisymmetric(a[1..], b[1..]);
    }
  }

  lemma {:induction false} OrderTransitive(a: seq<int>, b: seq<int>, c: seq<int>)
    requires Order(a, b) <= 0 && Order(b, c) <= 0
    ensures Order(a, c) <= 0
    ensures Order(a, b) < 0 || Order(b, c) < 0 ==> Order(a, c) < 0
  {
    if a != [] && b != [] && c != [] && a[0] == b[0] == c[0] {
      OrderTransitive(a[1..], b[1..], c[1..]);
    }
  }

  /** A common prefix does not matter. */
  lemma {:induction false} OrderAfterPrefix(p: seq<int>, a: seq<int>, b: seq<int>)
    ensures Order(p + a, p + b) == Order(a, b)
  {
    if p == [] {
      assert p + a == a && p + b == b;
    } else {
      assert (p + a)[1..] == p[1..] + a && (p + b)[1..] == p[1..] + b;
      OrderAfterPrefix(p[1..], a, b);
    }
  }
}

/** Modified UTF-8 (section 4.4.7 of the JVM specification): its decoder, its
    comparison and the verifier of string_data_item. */
module Mutf8 {
  import opened Memory
  import opened Lexicographic
  import Leb128

  type Units = seq<U2>

  // ----- The format -----

  function EncodeUnit(u: int): (e: seq<Byte>)
    requires 0 <= u < 0x1_0000
    ensures 1 <= |e| <= 3
  {
    if u == 0 then [0xc0, 0x80]
    else if u < 0x80 then [u]
    else if u < 0x800 then [0xc0 + u / 64, 0x80 + u % 64]
    else [0xe0 + u / 4096, 0x80 + u / 64 % 64, 0x80 + u % 64]
  }

  function Encode(us: Units): seq<Byte> {
    if us == [] then [] else EncodeUnit(us[0]) + Encode(us[1..])
  }

  /** The encoding of one unit stands at p. */
  predicate UnitAt(m: seq<Byte>, p: nat, u: U2) {
    var e := EncodeUnit(u);
    && p + 3 <= |m| && m[p] == e[0]
    && (|e| >= 2 ==> m[p + 1] == e[1])
    && (|e| == 3 ==> m[p + 2] == e[2])
  }

  /** A terminated string stands at p, with room for the reads of the decoder. */
  predicate StringAt(m: seq<Byte>, p: nat, us: Units)
    decreases |us|
  {
    if us == [] then p + 3 <= |m| && m[p] == 0
    else UnitAt(m, p, us[0]) && StringAt(m, p + |EncodeUnit(us[0])|, us[1..])
  }

  /** The bytes there are the encoding and a NUL. */
  lemma {:induction false} StringBytes(m: seq<Byte>, p: nat, us: Units)
    requires p + |Encode(us)| + 3 <= |m|
    ensures StringAt(m, p, us) <==> m[p..p + |Encode(us)| + 1] == Encode(us) + [0]
    decreases |us|, 1
  {
    if us == [] {
      assert m[p..p + 1] == [m[p]];
    } else {
      StringBytesStep(m, p, us);
    }
  }

  lemma StringBytesStep(m: seq<Byte>, p: nat, us: Units)
    requires us != [] && p + |Encode(us)| + 3 <= |m|
    ensures StringAt(m, p, us) <==> m[p..p + |Encode(us)| + 1] == Encode(us) + [0]
    decreases |us|, 0
  {
    hide EncodeUnit, UnitAt;
    var e, rest := EncodeUnit(us[0]), Encode(us[1..]);
    var q, r := p + |e|, p + |Encode(us)| + 1;
    assert Encode(us) + [0] == e + (rest + [0]);
    assert StringAt(m, p, us) <==> UnitAt(m, p, us[0]) && StringAt(m, q, us[1..]);
    hide StringAt;
    StringBytes(m, q, us[1..]);
    UnitBytes(m, p, us[0]);
    hide Encode;
    SplitRange(m, p, q, r, e, rest + [0]);
  }

  lemma SplitRange(m: seq<Byte>, p: nat, q: nat, r: nat, a: seq<Byte>, b: seq<Byte>)
    requires p <= q <= r <= |m| && |a| == q - p && |b| == r - q
    ensures m[p..r] == a + b <==> m[p..q] == a && m[q..r] == b
  {
    var s := m[p..r];
    assert s[..q - p] == m[p..q] && s[q - p..] == m[q..r];
    assert (a + b)[..q - p] == a && (a + b)[q - p..] == b;
  }

  lemma UnitBytes(m: seq<Byte>, p: nat, u: U2)
    requires p + 3 <= |m|
    ensures UnitAt(m, p, u) <==> m[p..p + |EncodeUnit(u)|] == EncodeUnit(u)
  {
    hide EncodeUnit;
    var e := EncodeUnit(u);
    var n := |e|;
    assert m[p] == m[p..p + n][0] && (n >= 2 ==> m[p + 1] == m[p..p + n][1]) && (n == 3 ==> m[p + 2] == m[p..p + n][2]);
  }

  // ----- The decoder -----

  /** What dexGetUtf16FromUtf8 computes, by its masks and shifts. */
  function Decode(m: seq<Byte>, p: nat): int
    requires p + 3 <= |m|
  {
    var one: int, two: int, three: int := m[p], m[p + 1], m[p + 2];
    if one < 0x80 then one
    else if one / 32 % 2 == 1 then one % 16 * 4096 + two % 64 * 64 + three % 64
    else one % 32 * 64 + two % 64
  }

  function Width(m: seq<Byte>, p: nat): (w: nat)
    requires p + 3 <= |m|
    ensures 1 <= w <= 3
  {
    if m[p] < 0x80 then 1 else if m[p] / 32 % 2 == 1 then 3 else 2
  }

  method GetUtf16FromUtf8(m: seq<Byte>, p: nat) returns (utf16: U2, next: nat)
    requires p + 3 <= |m|
    ensures utf16 == Decode(m, p) && next == p + Width(m, p)
  {
    var one: int := m[p];
    next := p + 1;
    if one / 128 % 2 != 0 {
      var two: int := m[next];
      next := next + 1;
      if one / 32 % 2 != 0 {
        var three: int := m[next];
        next := next + 1;
        utf16 := one % 16 * 4096 + two % 64 * 64 + three % 64;
      } else {
        utf16 := one % 32 * 64 + two % 64;
      }
    } else {
      utf16 := one;
    }
  }

  /** An encoding never holds a NUL, and its first byte tells its length. */
  lemma UnitShape(u: U2)
    ensures var e := EncodeUnit(u);
      && (|e| == 1 ==> 0 < u == e[0] < 0x80)
      && (|e| == 2 ==> 0xc0 <= e[0] < 0xe0 && u == (e[0] as int - 0xc0) * 64 + (e[1] - 0x80) && 0x80 <= e[1] < 0xc0
                       && (u == 0 || 0x80 <= u < 0x800))
      && (|e| == 3 ==> 0xe0 <= e[0] < 0xf0 && u == (e[0] as int - 0xe0) * 4096 + (e[1] as int - 0x80) * 64 + (e[2] - 0x80)
                       && 0x80 <= e[1] < 0xc0 && 0x80 <= e[2] < 0xc0 && 0x800 <= u)
  {
    if u >= 0x800 {
      assert u == u / 4096 * 4096 + u / 64 % 64 * 64 + u % 64;
    }
  }

  /** The decoder inverts the encoding of one unit. */
  lemma DecodeUnit(m: seq<Byte>, p: nat, u: U2)
    requires UnitAt(m, p, u)
    ensures Decode(m, p) == u && Width(m, p) == |EncodeUnit(u)| && m[p] != 0
  {
    UnitShape(u);
    hide EncodeUnit;
  }

  /** The first unit of a string and the string after it. */
  lemma StringStep(m: seq<Byte>, p: nat, us: Units)
    requires StringAt(m, p, us)
    ensures p + 3 <= |m|
    ensures us == [] ==> m[p] == 0
    ensures us != [] ==> m[p] != 0 && Decode(m, p) == us[0] && StringAt(m, p + Width(m, p), us[1..])
  {
    if us != [] {
      DecodeUnit(m, p, us[0]);
    }
  }

  /** dexUtf8Cmp is the lexicographic order of the UTF-16 units. */
  method Utf8Cmp(m: seq<Byte>, p1: nat, p2: nat, ghost us1: Units, ghost us2: Units) returns (r: int)
    requires StringAt(m, p1, us1) && StringAt(m, p2, us2)
    ensures r == Order(us1, us2)
  {
    hide StringAt, Decode, Width;
    var s1, s2 := p1, p2;
    ghost var r1, r2 := us1, us2;
    while true
      invariant StringAt(m, s1, r1) && StringAt(m, s2, r2)
      invariant Order(r1, r2) == Order(us1, us2)
      decreases |r1|
    {
      StringStep(m, s1, r1);
      StringStep(m, s2, r2);
      if m[s1] == 0 {
        if m[s2] == 0 {
          return 0;
        }
        return -1;
      } else if m[s2] == 0 {
        return 1;
      }
      var utf1: int, utf2: int;
      utf1, s1 := GetUtf16FromUtf8(m, s1);
      utf2, s2 := GetUtf16FromUtf8(m, s2);
      var diff := utf1 - utf2;
      if diff != 0 {
        return diff;
      }
      r1, r2 := r1[1..], r2[1..];
    }
  }

  /** Decoding is injective: one place in memory holds one string. */
  lemma {:induction false} OneString(m: seq<Byte>, p: nat, us: Units, us': Units)
    requires StringAt(m, p, us) && StringAt(m, p, us')
    ensures us == us'
    decreases |us|
  {
    StringStep(m, p, us);
    StringStep(m, p, us');
    if us != [] {
      OneString(m, p + Width(m, p), us[1..], us'[1..]);
      assert us == [us[0]] + us[1..] && us' == [us'[0]] + us'[1..];
    }
  }

  // ----- Agreement with strcmp -----

  /** At their first difference one string has U+0000 and the other a unit of one byte. */
  predicate Clash(a: Units, b: Units) {
    && a != [] && b != []
    && (if a[0] == b[0] then Clash(a[1..], b[1..]) else (a[0] == 0 && b[0] < 0x80) || (b[0] == 0 && a[0] < 0x80))
  }

  /** The first byte in which the encodings of two different units differ. */
  lemma UnitDifference(u: U2, w: U2) returns (k: nat)
    requires u != w
    ensures k < |EncodeUnit(u)| && k < |EncodeUnit(w)|
    ensures EncodeUnit(u)[..k] == EncodeUnit(w)[..k] && EncodeUnit(u)[k] != EncodeUnit(w)[k]
    ensures if (u == 0 && w < 0x80) || (w == 0 && u < 0x80) then EncodeUnit(u)[k] < EncodeUnit(w)[k] <==> w < u
            else EncodeUnit(u)[k] < EncodeUnit(w)[k] <==> u < w
  {
    UnitShape(u);
    UnitShape(w);
    hide EncodeUnit;
    var x, y := EncodeUnit(u), EncodeUnit(w);
    k := if x[0] != y[0] then 0 else if x[1] != y[1] then 1 else 2;
  }

  /** The bytes of two different units decide, whatever follows. */
  lemma UnitOrder(u: U2, w: U2, r: seq<Byte>, s: seq<Byte>)
    requires u != w
    ensures var o := Order(EncodeUnit(u) + r, EncodeUnit(w) + s);
      if (u == 0 && w < 0x80) || (w == 0 && u < 0x80) then SameSign(o, w - u) else SameSign(o, u - w)
  {
    hide EncodeUnit;
    var k := UnitDifference(u, w);
    var x, y := EncodeUnit(u), EncodeUnit(w);
    assert x + r == x[..k] + (x[k..] + r) && y + s == x[..k] + (y[k..] + s);
    OrderAfterPrefix(x[..k], x[k..] + r, y[k..] + s);
  }

  /** strcmp on the encodings has the sign of dexUtf8Cmp exactly when no encoded
      U+0000 meets a one-byte unit at the first difference. */
  lemma {:induction false} StrcmpAgrees(a: Units, b: Units)
    ensures SameSign(Order(Encode(a), Encode(b)), Order(a, b)) <==> !Clash(a, b)
  {
    if a == [] || b == [] {
    } else if a[0] == b[0] {
      StrcmpAgrees(a[1..], b[1..]);
      OrderAfterPrefix(EncodeUnit(a[0]), Encode(a[1..]), Encode(b[1..]));
    } else {
      UnitOrder(a[0], b[0], Encode(a[1..]), Encode(b[1..]));
    }
  }

  // ----- The verifier of string_data_item -----

  /** The switch on the high four bits: the unit at p and the place after it. */
  function CheckedUnit(m: seq<Byte>, p: nat): (next: Option<nat>)
    requires p + 3 <= |m|
    ensures next.Some? ==> p < next.value <= p + 3
  {
    if m[p] == 0 then None
    else if m[p] < 0x80 then Some(p + 1)
    else if m[p] < 0xc0 || m[p] >= 0xf0 then None
    else if m[p] >= 0xe0 then
      if m[p + 1] / 64 != 2 || m[p + 2] / 64 != 2 || Decode(m, p) < 0x800 then None else Some(p + 3)
    else
      if m[p + 1] / 64 != 2 || (Decode(m, p) != 0 && Decode(m, p) < 0x80) then None else Some(p + 2)
  }

  /** Only shortest encodings pass. */
  lemma CheckedUnitSound(m: seq<Byte>, p: nat)
    requires p + 3 <= |m| && CheckedUnit(m, p).Some?
    ensures 0 <= Decode(m, p) < 0x1_0000 && UnitAt(m, p, Decode(m, p))
    ensures CheckedUnit(m, p).value == p + |EncodeUnit(Decode(m, p))|
  {
    var one: int, two: int, three: int := m[p], m[p + 1], m[p + 2];
    if one >= 0xe0 {
      ThreeBytes(one, two, three, Decode(m, p));
    } else if one >= 0xc0 {
      TwoBytes(one, two, Decode(m, p));
    }
  }

  lemma TwoBytes(one: int, two: int, u: int)
    requires 0xc0 <= one < 0xe0 && 0x80 <= two < 0xc0 && u == one % 32 * 64 + two % 64 && (u == 0 || 0x80 <= u)
    ensures 0 <= u < 0x800 && EncodeUnit(u) == [one, two]
  {
    assert u == (one - 0xc0) * 64 + (two - 0x80);
  }

  lemma ThreeBytes(one: int, two: int, three: int, u: int)
    requires 0xe0 <= one < 0xf0 && 0x80 <= two < 0xc0 && 0x80 <= three < 0xc0
    requires u == one % 16 * 4096 + two % 64 * 64 + three % 64 && 0x800 <= u
    ensures 0 <= u < 0x1_0000 && EncodeUnit(u) == [one, two, three]
  {
    var a, b, c := one - 0xe0, two - 0x80, three - 0x80;
    assert one % 16 == a;
    assert two % 64 == b;
    assert three % 64 == c;
    Unpack(a, b, c);
  }

  lemma Unpack(a: int, b: int, c: int)
    requires 0 <= a && 0 <= b < 64 && 0 <= c < 64
    ensures var u := a * 4096 + b * 64 + c; u / 4096 == a && u / 64 % 64 == b && u % 64 == c
  {
    assert (a * 4096 + b * 64 + c) / 64 == a * 64 + b;
  }

  /** Every shortest encoding passes. */
  lemma CheckedUnitComplete(m: seq<Byte>, p: nat, u: U2)
    requires UnitAt(m, p, u)
    ensures CheckedUnit(m, p) == Some(p + |EncodeUnit(u)|)
  {
    DecodeUnit(m, p, u);
    UnitShape(u);
    hide EncodeUnit, Decode;
  }

  /** The loop over the units and the check of the terminator. */
  function Scan(m: seq<Byte>, p: nat, n: nat, fileEnd: nat): Option<nat>
    requires fileEnd + 16 <= |m| && p <= fileEnd + 2
    decreases n
  {
    if n == 0 then if m[p] == 0 then Some(p + 1) else None
    else if p >= fileEnd then None
    else
      match CheckedUnit(m, p)
      case None => None
      case Some(q) => Scan(m, q, n - 1, fileEnd)
  }

  /** string_data_item: the number of units, the units, a NUL. */
  function StringDataItem(m: seq<Byte>, p: nat, fileEnd: nat): Option<nat>
    requires fileEnd + 16 <= |m| && p <= fileEnd
  {
    if !Leb128.Valid(m, p, fileEnd) then None
    else Scan(m, p + Leb128.Size(m, p), Leb128.Unsigned(m, p), fileEnd)
  }

  /** The body of the loop, which has not yet checked that the bytes are in the file. */
  method CheckUnit(m: seq<Byte>, p: nat) returns (next: Option<nat>)
    requires p + 3 <= |m|
    ensures next == CheckedUnit(m, p)
  {
    var data := p;
    var byte1: int := m[data];
    data := data + 1;
    match byte1 / 16 {
      case 0 =>
        if byte1 == 0 {
          return None;
        }
      case 1 | 2 | 3 | 4 | 5 | 6 | 7 =>
      case 14 =>
        var byte2: int := m[data];
        data := data + 1;
        if byte2 / 64 != 2 {
          return None;
        }
        var byte3: int := m[data];
        data := data + 1;
        if byte3 / 64 != 2 {
          return None;
        }
        var value := byte1 % 16 * 4096 + byte2 % 64 * 64 + byte3 % 64;
        if value < 0x800 {
          return None;
        }
      case 12 | 13 =>
        var byte2: int := m[data];
        data := data + 1;
        if byte2 / 64 != 2 {
          return None;
        }
        var value := byte1 % 32 * 64 + byte2 % 64;
        if value != 0 && value < 0x80 {
          return None;
        }
      case _ =>
        return None;
    }
    return Some(data);
  }

  method IntraVerifyStringDataItem(m: seq<Byte>, p: nat, fileEnd: nat) returns (end: Option<nat>)
    requires fileEnd + 16 <= |m| && p <= fileEnd
    ensures end == StringDataItem(m, p, fileEnd)
  {
    hide CheckedUnit, Leb128.Unsigned, Leb128.Size;
    var utf16Size: U4, data: nat, okay: bool;
    utf16Size, data, okay := Leb128.ReadAndVerifyUnsignedLeb128(m, p, Some(fileEnd), true);
    if !okay {
      return None;
    }
    var i := 0;
    while i < utf16Size
      invariant 0 <= i <= utf16Size && data <= fileEnd + 2
      invariant StringDataItem(m, p, fileEnd) == Scan(m, data, utf16Size - i, fileEnd)
    {
      if data >= fileEnd {
        return None;
      }
      var next := CheckUnit(m, data);
      if next.None? {
        return None;
      }
      data := next.value;
      i := i + 1;
    }
    if m[data] != 0 {
      return None;
    }
    return Some(data + 1);
  }

  lemma {:induction false} ScanSound(m: seq<Byte>, p: nat, n: nat, fileEnd: nat) returns (us: Units)
    requires fileEnd + 16 <= |m| && p <= fileEnd + 2 && Scan(m, p, n, fileEnd).Some?
    ensures |us| == n && StringAt(m, p, us) && Scan(m, p, n, fileEnd) == Some(p + |Encode(us)| + 1)
    decreases n
  {
    if n == 0 {
      us := [];
    } else {
      CheckedUnitSound(m, p);
      hide CheckedUnit, Decode, EncodeUnit, UnitAt;
      var u: U2 := Decode(m, p);
      var rest := ScanSound(m, p + |EncodeUnit(u)|, n - 1, fileEnd);
      us := [u] + rest;
      assert us[1..] == rest;
    }
  }

  lemma {:induction false} ScanComplete(m: seq<Byte>, p: nat, us: Units, fileEnd: nat)
    requires fileEnd + 16 <= |m| && StringAt(m, p, us) && p + |Encode(us)| + 1 <= fileEnd
    ensures Scan(m, p, |us|, fileEnd) == Some(p + |Encode(us)| + 1)
    decreases |us|
  {
    if us != [] {
      CheckedUnitComplete(m, p, us[0]);
      hide CheckedUnit, Decode, EncodeUnit, UnitAt;
      ScanComplete(m, p + |EncodeUnit(us[0])|, us[1..], fileEnd);
    }
  }

  /** us is a string of n units at q whose NUL is the byte before end. */
  ghost predicate StringEnds(m: seq<Byte>, q: nat, n: nat, us: Units, end: nat) {
    |us| == n && StringAt(m, q, us) && end == q + |Encode(us)| + 1
  }

  ghost predicate HoldsString(m: seq<Byte>, q: nat, n: nat, end: nat) {
    exists us: Units :: StringEnds(m, q, n, us, end)
  }

  lemma ScanIff(m: seq<Byte>, q: nat, n: nat, fileEnd: nat, end: nat)
    requires fileEnd + 16 <= |m| && q <= fileEnd && end <= fileEnd
    ensures Scan(m, q, n, fileEnd) == Some(end) <==> HoldsString(m, q, n, end)
  {
    hide Scan, StringAt, Encode;
    if Scan(m, q, n, fileEnd) == Some(end) {
      var us := ScanSound(m, q, n, fileEnd);
      assert StringEnds(m, q, n, us, end);
    }
    if HoldsString(m, q, n, end) {
      var us: Units :| StringEnds(m, q, n, us, end);
      ScanComplete(m, q, us, fileEnd);
    }
  }

  /** The verifier, together with the bounds check of the section walk, accepts exactly
      the shortest encodings of as many units as announced, and decoding them again
      unit by unit gives those units and no others. */
  lemma StringDataItemIff(m: seq<Byte>, p: nat, fileEnd: nat, end: nat)
    requires fileEnd + 16 <= |m| && p <= fileEnd && end <= fileEnd
    ensures StringDataItem(m, p, fileEnd) == Some(end) <==>
      (Leb128.Valid(m, p, fileEnd)
       && HoldsString(m, p + Leb128.Size(m, p), Leb128.Unsigned(m, p), end))
  {
    if Leb128.Valid(m, p, fileEnd) {
      var q, n := p + Leb128.Size(m, p), Leb128.Unsigned(m, p);
      assert q <= fileEnd;
      hide Scan, HoldsString, Leb128.Valid, Leb128.Unsigned, Leb128.Size;
      ScanIff(m, q, n, fileEnd, end);
    }
  }
}
