/** Type descriptors and class names (libdex/DexUtf.cpp): the grammar, and the
    recogniser that walks the bytes of a verified string. */
module DexUtf {
  import opened Memory
  import opened Mutf8
  import opened Lexicographic

  // ----- The grammar, on UTF-16 units -----

  /** The bit vector DEX_MEMBER_VALID_LOW_ASCII. */
  predicate LowAscii(c: bv8) {
    var word: bv32 :=
      if c < 0x20 then 0 else if c < 0x40 then 0x03ff2010 else if c < 0x60 then 0x87fffffe else 0x07fffffe;
    word & (1 << (c & 0x1f)) != 0
  }

  /** Letters, digits, '$', '-' and '_'. */
  lemma LowAsciiMeaning(c: bv8)
    requires c < 0x80
    ensures LowAscii(c) <==>
      c == 0x24 || c == 0x2d || c == 0x5f || 0x30 <= c <= 0x39 || 0x41 <= c <= 0x5a || 0x61 <= c <= 0x7a
  {
  }

  /** The number of units of the name character in front, or 0 if there is none. */
  function CharLength(us: Units): (n: nat)
    ensures n <= |us| && n <= 2
  {
    if us == [] || us[0] == 0 then 0
    else if us[0] < 0x80 then if LowAscii(us[0] as bv8) then 1 else 0
    else if us[0] < 0x100 then if us[0] > 0xa0 then 1 else 0
    else if 0xd800 <= us[0] < 0xdc00 then if |us| > 1 && 0xdc00 <= us[1] <= 0xdfff then 2 else 0
    else if 0xdc00 <= us[0] < 0xe000 then 0
    else if 0x2000 <= us[0] < 0x2010 || 0x2028 <= us[0] < 0x2030 || 0xfff0 <= us[0] then 0
    else 1
  }

  predicate ValidName(us: Units) {
    us == [] || (CharLength(us) > 0 && ValidName(us[CharLength(us)..]))
  }

  const SEMICOLON: U2 := 0x3b

  const SLASH: U2 := 0x2f

  const DOT: U2 := 0x2e

  const BRACKET: U2 := 0x5b

  function Join(cs: seq<Units>, sep: U2): Units {
    if cs == [] then [] else if |cs| == 1 then cs[0] else cs[0] + [sep] + Join(cs[1..], sep)
  }

  predicate Components(cs: seq<Units>) {
    cs != [] && forall i | 0 <= i < |cs| :: cs[i] != [] && ValidName(cs[i])
  }

  /** Non-empty names with a separator between them. */
  ghost predicate ClassName(us: Units, sep: U2) {
    exists cs: seq<Units> :: Components(cs) && us == Join(cs, sep)
  }

  predicate Primitive(u: U2) {
    u == 'B' as int || u == 'C' as int || u == 'D' as int || u == 'F' as int
    || u == 'I' as int || u == 'J' as int || u == 'S' as int || u == 'Z' as int
  }

  /** A descriptor of a type that is no array and not void. */
  ghost predicate ElementDescriptor(us: Units, sep: U2) {
    || (|us| == 1 && Primitive(us[0]))
    || (|us| >= 3 && us[0] == 'L' as int && us[|us| - 1] == SEMICOLON && ClassName(us[1..|us| - 1], sep))
  }

  function Brackets(us: Units): (n: nat)
    ensures n <= |us| && (n < |us| ==> us[n] != BRACKET)
    ensures forall i | 0 <= i < n :: us[i] == BRACKET
  {
    if us != [] && us[0] == BRACKET then 1 + Brackets(us[1..]) else 0
  }

  /** V, or up to 255 array dimensions and an element type. */
  ghost predicate TypeDescriptor(us: Units, sep: U2) {
    us == ['V' as int] || (Brackets(us) <= 255 && ElementDescriptor(us[Brackets(us)..], sep))
  }

  // ----- The automaton -----

  /** The loop after the 'L' or from the start of a class name. */
  predicate Body(us: Units, isClassName: bool, sep: U2, sepOrFirst: bool)
    decreases |us|
  {
    if us == [] then isClassName && !sepOrFirst
    else if us[0] == SEMICOLON then !isClassName && !sepOrFirst && |us| == 1
    else if us[0] == SLASH || us[0] == DOT then
      us[0] == sep && !sepOrFirst && Body(us[1..], isClassName, sep, true)
    else CharLength(us) > 0 && Body(us[CharLength(us)..], isClassName, sep, false)
  }

  /** A valid name as the first component, properly formed components after it. */
  predicate OpenComponents(cs: seq<Units>, sepOrFirst: bool) {
    && cs != [] && ValidName(cs[0]) && (sepOrFirst ==> cs[0] != [])
    && forall i | 1 <= i < |cs| :: cs[i] != [] && ValidName(cs[i])
  }

  predicate Separator(sep: U2) { sep == SLASH || sep == DOT }

  /** No name character is one of the characters with a meaning of their own. */
  lemma NotAName(us: Units)
    requires CharLength(us) > 0
    ensures us[0] != 0 && us[0] != SEMICOLON && us[0] != SLASH && us[0] != DOT && us[0] != BRACKET
    ensures us[0] != '(' as int && us[0] != ')' as int
  {
    if us[0] < 0x80 {
      LowAsciiMeaning(us[0] as bv8);
    }
  }

  /** What follows a name character does not change it. */
  lemma CharLengthLocal(a: Units, b: Units)
    requires a != [] && (b == [] || !(0xdc00 <= b[0] <= 0xdfff))
    ensures CharLength(a + b) == CharLength(a)
  {
    assert (a + b)[0] == a[0];
  }

  lemma {:induction false} BodySound(us: Units, sep: U2, sepOrFirst: bool) returns (cs: seq<Units>)
    requires Separator(sep) && Body(us, true, sep, sepOrFirst)
    ensures OpenComponents(cs, sepOrFirst) && us == Join(cs, sep)
    decreases |us|
  {
    if us == [] {
      cs := [[]];
    } else if us[0] == SLASH || us[0] == DOT {
      var rest := BodySound(us[1..], sep, true);
      cs := [[]] + rest;
      assert cs[1..] == rest;
    } else {
      var n := CharLength(us);
      var rest := BodySound(us[n..], sep, false);
      cs := NameGrows(us, n, rest, sep);
    }
  }

  /** A name character in front belongs to the first component. */
  lemma NameGrows(us: Units, n: nat, rest: seq<Units>, sep: U2) returns (cs: seq<Units>)
    requires n == CharLength(us) > 0 && Separator(sep)
    requires OpenComponents(rest, false) && us[n..] == Join(rest, sep)
    ensures OpenComponents(cs, true) && us == Join(cs, sep)
  {
    var c := us[..n] + rest[0];
    cs := [c] + rest[1..];
    assert CharLength(c) == n by {
      var full := Join(rest, sep);
      assert us == us[..n] + full;
      assert |us[..n]| == n;
    }
    hide CharLength;
    assert c[n..] == rest[0] && ValidName(c);
    assert cs[1..] == rest[1..];
    assert us == us[..n] + us[n..];
  }

  /** The rest of the first component and what joins it to the others. */
  lemma JoinHead(cs: seq<Units>, sep: U2, n: nat)
    requires Separator(sep) && cs != [] && n <= |cs[0]|
    ensures var cs' := [cs[0][n..]] + cs[1..];
      Join(cs, sep)[..|cs[0]|] == cs[0] && Join(cs, sep) == cs[0][..n] + Join(cs', sep)
    ensures var r := Join(cs, sep)[|cs[0]|..]; r == [] || r[0] == sep
  {
    var cs' := [cs[0][n..]] + cs[1..];
    assert cs'[1..] == cs[1..];
    assert cs[0] == cs[0][..n] + cs[0][n..];
  }

  lemma {:induction false} BodyComplete(cs: seq<Units>, sep: U2, sepOrFirst: bool)
    requires Separator(sep) && OpenComponents(cs, sepOrFirst)
    ensures Body(Join(cs, sep), true, sep, sepOrFirst)
    decreases |cs|, |cs[0]|
  {
    var us := Join(cs, sep);
    if cs[0] == [] {
      if |cs| > 1 {
        assert us[1..] == Join(cs[1..], sep) && us[0] == sep;
        BodyComplete(cs[1..], sep, true);
      }
    } else {
      var n := CharLength(cs[0]);
      var cs' := [cs[0][n..]] + cs[1..];
      JoinHead(cs, sep, n);
      CharLengthLocal(cs[0], us[|cs[0]|..]);
      assert us == cs[0] + us[|cs[0]|..];
      NotAName(us);
      assert us[n..] == Join(cs', sep);
      BodyComplete(cs', sep, false);
    }
  }

  /** The loop from the start of a class name accepts the grammar. */
  lemma BodyIsClassName(us: Units, sep: U2)
    requires Separator(sep)
    ensures Body(us, true, sep, true) <==> ClassName(us, sep)
  {
    if Body(us, true, sep, true) {
      var cs := BodySound(us, sep, true);
      assert Components(cs);
    }
    if ClassName(us, sep) {
      var cs: seq<Units> :| Components(cs) && us == Join(cs, sep);
      BodyComplete(cs, sep, true);
    }
  }

  /** In a descriptor the same loop also wants one semicolon, at the end. */
  lemma {:induction false} BodyWithSemicolon(us: Units, sep: U2, sepOrFirst: bool)
    requires Separator(sep)
    ensures Body(us, false, sep, sepOrFirst) <==>
      us != [] && us[|us| - 1] == SEMICOLON && Body(us[..|us| - 1], true, sep, sepOrFirst)
    decreases |us|
  {
    hide CharLength;
    if us != [] && us[0] != SEMICOLON {
      var last := |us| - 1;
      var x := us[..last];
      var n := CharLength(us);
      if us[0] == SLASH || us[0] == DOT {
        BodyWithSemicolon(us[1..], sep, true);
        assert last > 0 ==> us[1..][..last - 1] == x[1..];
      } else if n > 0 {
        BodyWithSemicolon(us[n..], sep, false);
        if last > 0 && us[last] == SEMICOLON {
          assert us == x + [SEMICOLON];
          CharLengthLocal(x, [SEMICOLON]);
          assert us[n..][..last - n] == x[n..];
        }
      } else if last > 0 && us[last] == SEMICOLON {
        assert us == x + [SEMICOLON];
        CharLengthLocal(x, [SEMICOLON]);
      }
    }
  }

  // ----- The recogniser -----

  /** isValidTypeDescriptorOrClassName on the units of the string. */
  predicate Recognised(us: Units, isClassName: bool, sep: U2) {
    var k := Brackets(us);
    var rest := us[k..];
    if k > 255 then false
    else if isClassName && k == 0 then Body(rest, true, sep, true)
    else if rest == [] then false
    else if Primitive(rest[0]) then |rest| == 1
    else if rest[0] == 'V' as int then k == 0 && |rest| == 1
    else rest[0] == 'L' as int && Body(rest[1..], false, sep, true)
  }

  /** The recogniser accepts the grammar: with isClassName a plain class name or an
      array descriptor, without it a type descriptor. */
  lemma RecognisedIff(us: Units, isClassName: bool, sep: U2)
    requires Separator(sep)
    ensures Recognised(us, isClassName, sep) <==>
      if isClassName && Brackets(us) == 0 then ClassName(us, sep) else TypeDescriptor(us, sep)
  {
    hide Body, ClassName;
    var k := Brackets(us);
    var rest := us[k..];
    hide Brackets;
    BodyIsClassName(rest, sep);
    if rest != [] {
      BodyWithSemicolon(rest[1..], sep, true);
      if |rest| > 1 {
        assert rest[1..][..|rest| - 2] == rest[1..|rest| - 1];
        BodyIsClassName(rest[1..|rest| - 1], sep);
      }
    }
    if |rest| == 2 {
      EmptyIsNoClassName(rest[1..1], sep);
    }
  }

  lemma EmptyIsNoClassName(us: Units, sep: U2)
    requires us == [] && Separator(sep)
    ensures !ClassName(us, sep)
  {
    BodyIsClassName(us, sep);
  }

  /** Characters below 0x80 stand for themselves, and no other byte is below 0x80. */
  lemma FirstByte(m: seq<Byte>, p: nat, us: Units)
    requires StringAt(m, p, us)
    ensures p + 3 <= |m|
    ensures m[p] == 0 <==> us == []
    ensures 0 < m[p] < 0x80 ==> us != [] && us[0] == m[p] && StringAt(m, p + 1, us[1..])
    ensures us != [] && 0 < us[0] < 0x80 ==> m[p] == us[0]
  {
    if us != [] {
      UnitShape(us[0]);
    }
  }

  /** dexIsValidMemberNameUtf8; on success the pointer is after the character. */
  method IsValidMemberNameUtf8(m: seq<Byte>, p: nat, ghost us: Units) returns (valid: bool, next: nat)
    requires StringAt(m, p, us)
    ensures valid <==> CharLength(us) > 0
    ensures valid ==> StringAt(m, next, us[CharLength(us)..])
  {
    FirstByte(m, p, us);
    var c := m[p];
    if c <= 0x7f {
      next := p + 1;
      valid := LowAscii(c as bv8);
      assert c == 0 ==> !LowAscii(0);
    } else {
      valid, next := IsValidMemberNameUtf8_0(m, p, us);
    }
  }

  /** The name character in front, by the high byte and the block of eight of its unit. */
  lemma HighUnits(us: Units)
    requires us != [] && !(0 < us[0] < 0x80)
    ensures var high, block := us[0] / 256, us[0] - us[0] % 8;
      CharLength(us) ==
        if high == 0 then (if us[0] > 0xa0 then 1 else 0)
        else if 0xd8 <= high <= 0xdb then (if |us| > 1 && 0xdc00 <= us[1] <= 0xdfff then 2 else 0)
        else if 0xdc <= high <= 0xdf then 0
        else if (high == 0x20 || high == 0xff)
                && (block == 0x2000 || block == 0x2008 || block == 0x2028 || block == 0xfff0 || block == 0xfff8) then 0
        else 1
  {
  }

  method IsValidMemberNameUtf8_0(m: seq<Byte>, p: nat, ghost us: Units) returns (valid: bool, next: nat)
    requires StringAt(m, p, us) && us != [] && !(0 < us[0] < 0x80)
    ensures valid <==> CharLength(us) > 0
    ensures valid ==> StringAt(m, next, us[CharLength(us)..])
  {
    StringStep(m, p, us);
    HighUnits(us);
    hide StringAt, Decode, Width, CharLength;
    var utf16: int;
    utf16, next := GetUtf16FromUtf8(m, p);
    var high := utf16 / 256;
    if high == 0 {
      return utf16 > 0xa0, next;
    } else if 0xd8 <= high <= 0xdb {
      StringStep(m, next, us[1..]);
      utf16, next := GetUtf16FromUtf8(m, next);
      valid := 0xdc00 <= utf16 <= 0xdfff;
      if |us| == 1 {
        EndDecodesToZero(m, p, us);
      } else {
        assert us[1..][1..] == us[2..];
      }
      return;
    } else if 0xdc <= high <= 0xdf {
      return false, next;
    } else if high == 0x20 || high == 0xff {
      var block := utf16 - utf16 % 8;
      if block == 0x2000 || block == 0x2008 || block == 0x2028 || block == 0xfff0 || block == 0xfff8 {
        return false, next;
      }
    }
    return true, next;
  }

  /** Behind a single unit the decoder finds the NUL. */
  lemma EndDecodesToZero(m: seq<Byte>, p: nat, us: Units)
    requires StringAt(m, p, us) && |us| == 1
    ensures p + Width(m, p) + 3 <= |m| && Decode(m, p + Width(m, p)) == 0
  {
    StringStep(m, p, us);
  }

  method IsValidTypeDescriptorOrClassName(m: seq<Byte>, p: nat, ghost us: Units, isClassName0: bool, dotSeparator: bool)
    returns (valid: bool)
    requires StringAt(m, p, us)
    ensures valid == Recognised(us, isClassName0, if dotSeparator then DOT else SLASH)
  {
    hide StringAt;
    ghost var sep := if dotSeparator then DOT else SLASH;
    var isClassName := isClassName0;
    var arrayCount := 0;
    var s: nat := p;
    ghost var rest := us;
    FirstByte(m, s, rest);
    while m[s] == '[' as int
      invariant StringAt(m, s, rest) && s + 3 <= |m|
      invariant m[s] == '[' as int <==> rest != [] && rest[0] == BRACKET
      invariant arrayCount <= |us| && rest == us[arrayCount..]
      invariant Brackets(us) == arrayCount + Brackets(rest)
      decreases |rest|
    {
      FirstByte(m, s, rest);
      arrayCount := arrayCount + 1;
      s := s + 1;
      rest := rest[1..];
      FirstByte(m, s, rest);
    }
    if arrayCount > 255 {
      return false;
    }
    if arrayCount != 0 {
      isClassName := false;
    }
    if !isClassName {
      FirstByte(m, s, rest);
      var c: int := m[s];
      if c == 'B' as int || c == 'C' as int || c == 'D' as int || c == 'F' as int
         || c == 'I' as int || c == 'J' as int || c == 'S' as int || c == 'Z' as int {
        FirstByte(m, s + 1, rest[1..]);
        return m[s + 1] == 0;
      } else if c == 'V' as int {
        FirstByte(m, s + 1, rest[1..]);
        return arrayCount == 0 && m[s + 1] == 0;
      } else if c != 'L' as int {
        return false;
      }
      s := s + 1;
      rest := rest[1..];
    }
    valid := CheckBody(m, s, rest, isClassName, dotSeparator);
  }

  /** The loop over the class name. */
  method CheckBody(m: seq<Byte>, p: nat, ghost us: Units, isClassName: bool, dotSeparator: bool) returns (valid: bool)
    requires StringAt(m, p, us)
    ensures valid == Body(us, isClassName, if dotSeparator then DOT else SLASH, true)
  {
    hide StringAt, CharLength;
    ghost var sep := if dotSeparator then DOT else SLASH;
    var sepOrFirst := true;
    var s: nat := p;
    ghost var rest := us;
    while true
      invariant StringAt(m, s, rest)
      invariant Body(us, isClassName, sep, true) == Body(rest, isClassName, sep, sepOrFirst)
      decreases |rest|
    {
      FirstByte(m, s, rest);
      var c := m[s];
      if c == 0 {
        return isClassName && !sepOrFirst;
      } else if c == ';' as int {
        FirstByte(m, s + 1, rest[1..]);
        return !isClassName && !sepOrFirst && m[s + 1] == 0;
      } else if c == '/' as int || c == '.' as int {
        if dotSeparator != (c == '.' as int) {
          return false;
        }
        if sepOrFirst {
          return false;
        }
        sepOrFirst := true;
        s := s + 1;
        rest := rest[1..];
      } else {
        ghost var n := CharLength(rest);
        var ok, next := IsValidMemberNameUtf8(m, s, rest);
        if !ok {
          return false;
        }
        s, rest := next, rest[n..];
        sepOrFirst := false;
      }
    }
  }

  // ----- The bytes of a descriptor -----

  lemma Associate(a: seq<Byte>, b: seq<Byte>, c: seq<Byte>)
    ensures a + (b + c) == a + b + c
  {
  }

  lemma {:induction false} EncodeConcat(a: Units, b: Units)
    ensures Encode(a + b) == Encode(a) + Encode(b)
  {
    if a == [] {
      assert a + b == b;
    } else {
      assert (a + b)[1..] == a[1..] + b;
      EncodeConcat(a[1..], b);
      hide EncodeUnit;
      Associate(EncodeUnit(a[0]), Encode(a[1..]), Encode(b));
    }
  }

  /** An ASCII byte occurs in an encoding only for its own unit, and NUL never does. */
  lemma {:induction false} EncodeCharacters(us: Units, c: Byte)
    requires c < 0x80 && (c == 0 || c !in us)
    ensures c !in Encode(us)
  {
    if us != [] {
      UnitShape(us[0]);
      EncodeCharacters(us[1..], c);
      hide EncodeUnit;
      assert us[0] in us;
      assert c !in EncodeUnit(us[0]);
    }
  }

  lemma {:induction false} NameCharacters(us: Units, sep: U2, sepOrFirst: bool)
    requires Separator(sep) && Body(us, true, sep, sepOrFirst)
    ensures SEMICOLON !in us && '(' as int !in us && ')' as int !in us && 0 !in us
    decreases |us|
  {
    if us != [] {
      var n := if us[0] == sep then 1 else CharLength(us);
      if us[0] != sep {
        NotAName(us);
      }
      NameCharacters(us[n..], sep, us[0] == sep);
      assert us == us[..n] + us[n..];
    }
  }

  /** What a scan of bytes can rely on in a descriptor other than void: after any
      brackets a letter, or an 'L' with the first semicolon at the end. */
  predicate ParameterShape(d: seq<Byte>) {
    && d != []
    && (if d[0] == '[' as int then ParameterShape(d[1..])
        else (|d| == 1 && Primitive(d[0])) || LongShape(d))
  }

  predicate LongShape(d: seq<Byte>) {
    |d| > 1 && d[0] == 'L' as int && d[|d| - 1] == SEMICOLON && SEMICOLON !in d[1..|d| - 1]
  }

  /** No NUL and no parenthesis. */
  predicate Plain(d: seq<Byte>) {
    0 !in d && '(' as int !in d && ')' as int !in d
  }

  lemma NameBytes(name: Units)
    requires ClassName(name, SLASH)
    ensures SEMICOLON !in Encode(name) && Plain(Encode(name))
  {
    BodyIsClassName(name, SLASH);
    NameCharacters(name, SLASH, true);
    EncodeCharacters(name, SEMICOLON);
    EncodeCharacters(name, 0);
    EncodeCharacters(name, '(' as int);
    EncodeCharacters(name, ')' as int);
  }

  lemma LongBytes(n: seq<Byte>)
    requires SEMICOLON !in n && Plain(n)
    ensures var d := ['L' as int] + n + [SEMICOLON]; ParameterShape(d) && Plain(d)
  {
    var d: seq<Byte> := ['L' as int] + n + [SEMICOLON];
    assert d[1..|d| - 1] == n;
  }

  lemma FirstUnit(us: Units)
    requires us != [] && 0 < us[0] < 0x80
    ensures Encode(us) == [us[0]] + Encode(us[1..]) && Encode([]) == []
  {
  }

  lemma EncodeLong(us: Units)
    requires |us| >= 2 && us[0] == 'L' as int && us[|us| - 1] == SEMICOLON
    ensures Encode(us) == ['L' as int] + Encode(us[1..|us| - 1]) + [SEMICOLON]
  {
    var name := us[1..|us| - 1];
    assert us[1..] == name + [SEMICOLON];
    FirstUnit(us);
    FirstUnit([SEMICOLON]);
    hide Encode, EncodeUnit;
    EncodeConcat(name, [SEMICOLON]);
    Associate(['L' as int], Encode(name), [SEMICOLON]);
  }

  lemma ElementShape(us: Units)
    requires ElementDescriptor(us, SLASH)
    ensures ParameterShape(Encode(us)) && Plain(Encode(us))
  {
    hide ClassName;
    if |us| == 1 {
      assert Encode(us) == [us[0]];
    } else {
      hide Encode, Plain, ParameterShape;
      NameBytes(us[1..|us| - 1]);
      EncodeLong(us);
      LongBytes(Encode(us[1..|us| - 1]));
    }
  }

  lemma {:induction false} ArrayShape(us: Units)
    requires ElementDescriptor(us[Brackets(us)..], SLASH)
    ensures ParameterShape(Encode(us)) && Plain(Encode(us))
  {
    hide ElementDescriptor;
    if us != [] && us[0] == BRACKET {
      var k := Brackets(us);
      assert us[1..][k - 1..] == us[k..];
      ArrayShape(us[1..]);
      assert Encode(us) == [BRACKET] + Encode(us[1..]);
      assert Encode(us)[1..] == Encode(us[1..]);
    } else {
      assert us[0..] == us;
      ElementShape(us);
    }
  }

  /** A descriptor other than void has the shape. */
  lemma DescriptorShape(us: Units)
    requires TypeDescriptor(us, SLASH)
    ensures Plain(Encode(us)) && (us != ['V' as int] ==> ParameterShape(Encode(us)))
  {
    if us != ['V' as int] {
      ArrayShape(us);
    } else {
      assert Encode(us) == ['V' as int];
    }
  }

  /** In a descriptor there is no encoded U+0000, so strcmp orders descriptors as
      dexUtf8Cmp does. */
  lemma {:induction false} NoClash(a: Units, b: Units)
    requires 0 !in a && 0 !in b
    ensures !Clash(a, b)
  {
    if a != [] && b != [] && a[0] == b[0] {
      NoClash(a[1..], b[1..]);
    }
  }

  lemma ElementHasNoZero(us: Units)
    requires ElementDescriptor(us, SLASH)
    ensures 0 !in us
  {
    if |us| > 1 {
      var name := us[1..|us| - 1];
      assert 0 !in name by {
        BodyIsClassName(name, SLASH);
        NameCharacters(name, SLASH, true);
      }
      hide ClassName;
      assert us == [us[0]] + name + [SEMICOLON];
    }
  }

  lemma DescriptorHasNoZero(us: Units)
    requires TypeDescriptor(us, SLASH)
    ensures 0 !in us
  {
    if us != ['V' as int] {
      var k := Brackets(us);
      ElementHasNoZero(us[k..]);
      hide ElementDescriptor;
      assert us == us[..k] + us[k..];
    }
  }

  lemma DescriptorOrder(a: Units, b: Units)
    requires TypeDescriptor(a, SLASH) && TypeDescriptor(b, SLASH)
    ensures SameSign(Order(Encode(a), Encode(b)), Order(a, b))
  {
    DescriptorHasNoZero(a);
    DescriptorHasNoZero(b);
    NoClash(a, b);
    StrcmpAgrees(a, b);
  }
}
