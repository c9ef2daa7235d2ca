/** The id tables of a dex file as the cross-item verifier sees them, and its checks of
    string_ids, type_ids and proto_ids (libdex/DexSwapVerify.cpp). */
module IdTables {
  import opened Memory
  import opened Lexicographic
  import opened Mutf8
  import opened DexUtf
  import opened ItemTypes
  import opened DataMap

  /** typeList is what stands at parametersOff. */
  datatype ProtoId = ProtoId(shorty: nat, returnType: nat, parametersOff: U4, typeList: seq<U2>) {
    /** dexGetProtoParameters: an offset of zero is no list. */
    function Parameters(): seq<U2> {
      if parametersOff == 0 then [] else typeList
    }
  }

  /** stringOffs holds the stringDataOff of each string and strings the units found there, typeIds
      the descriptorIdx of each type. */
  datatype DexFile = DexFile(stringOffs: seq<U4>, strings: seq<Units>, typeIds: seq<nat>, protoIds: seq<ProtoId>) {

    /** What the intra-item pass has checked: every index is in range. */
    ghost predicate IndicesInRange() {
      && |stringOffs| == |strings|
      && (forall i | 0 <= i < |typeIds| :: typeIds[i] < |strings|)
      && (forall i | 0 <= i < |protoIds| ::
            && protoIds[i].shorty < |strings| && protoIds[i].returnType < |typeIds|
            && forall k | 0 <= k < |protoIds[i].Parameters()| :: protoIds[i].Parameters()[k] < |typeIds|)
    }

    /** dexStringById: the bytes before the NUL. */
    function StringById(i: nat): seq<Byte>
      requires i < |strings|
    {
      Encode(strings[i])
    }

    /** dexStringByTypeIdx. */
    function StringByTypeIdx(t: nat): seq<Byte>
      requires t < |typeIds| && typeIds[t] < |strings|
    {
      StringById(typeIds[t])
    }
  }

  /** The byte at i of a NUL-terminated string. */
  function At(s: seq<Byte>, i: nat): Byte {
    if i < |s| then s[i] else 0
  }

  // ----- string_ids and type_ids -----

  /** Every string is greater than the one before it, in the order of dexUtf8Cmp. */
  ghost predicate StringsInOrder(f: DexFile) {
    forall i | 0 < i < |f.strings| :: Order(f.strings[i - 1], f.strings[i]) < 0
  }

  /** The data map has a string_data_item wherever one is said to be. */
  ghost predicate StringsKnown(f: DexFile, es: seq<Entry>) {
    forall i | 0 <= i < |f.stringOffs| :: Entry(f.stringOffs[i], STRING_DATA_ITEM) in es
  }

  method CrossVerifyStringIds(f: DexFile, dataMap: DexDataMap) returns (ok: bool)
    requires f.IndicesInRange() && dataMap.Valid()
    ensures ok <==> StringsKnown(f, dataMap.Entries()) && StringsInOrder(f)
  {
    var previousItem := -1;
    for i := 0 to |f.strings|
      invariant previousItem == i - 1
      invariant forall k | 0 <= k < i :: Entry(f.stringOffs[k], STRING_DATA_ITEM) in dataMap.Entries()
      invariant forall k | 0 < k < i :: Order(f.strings[k - 1], f.strings[k]) < 0
    {
      var known := dataMap.Verify(f.stringOffs[i], STRING_DATA_ITEM);
      if !known {
        return false;
      }
      if previousItem >= 0 {
        if Order(f.strings[previousItem], f.strings[i]) >= 0 {
          return false;
        }
      }
      previousItem := i;
    }
    return true;
  }

  ghost predicate TypesInOrder(f: DexFile)
    requires f.IndicesInRange()
  {
    && (forall i | 0 <= i < |f.typeIds| :: TypeDescriptor(f.strings[f.typeIds[i]], SLASH))
    && (forall i | 0 < i < |f.typeIds| :: f.typeIds[i - 1] < f.typeIds[i])
  }

  method CrossVerifyTypeIds(f: DexFile) returns (ok: bool)
    requires f.IndicesInRange()
    ensures ok <==> TypesInOrder(f)
  {
    hide TypeDescriptor, Recognised;
    var previousItem := -1;
    for i := 0 to |f.typeIds|
      invariant previousItem == i - 1
      invariant forall k | 0 <= k < i :: TypeDescriptor(f.strings[f.typeIds[k]], SLASH)
      invariant forall k | 0 < k < i :: f.typeIds[k - 1] < f.typeIds[k]
    {
      RecognisedIff(f.strings[f.typeIds[i]], false, SLASH);
      if !Recognised(f.strings[f.typeIds[i]], false, SLASH) {
        return false;
      }
      if previousItem >= 0 {
        if f.typeIds[previousItem] >= f.typeIds[i] {
          return false;
        }
      }
      previousItem := i;
    }
    return true;
  }

  // ----- proto_ids -----

  predicate ShortyDescMatch(shorty: Byte, descriptor: seq<Byte>, isReturnType: bool) {
    if shorty == 'V' as int then isReturnType && At(descriptor, 0) == shorty && At(descriptor, 1) == 0
    else if Primitive(shorty) then At(descriptor, 0) == shorty && At(descriptor, 1) == 0
    else shorty == 'L' as int && (At(descriptor, 0) == 'L' as int || At(descriptor, 0) == '[' as int)
  }

  /** The shorty has one matching character for the return type and for each parameter. */
  predicate ShortyFits(f: DexFile, i: nat)
    requires i < |f.protoIds| && f.IndicesInRange()
  {
    var p := f.protoIds[i];
    var shorty := f.StringById(p.shorty);
    && ShortyDescMatch(At(shorty, 0), f.StringByTypeIdx(p.returnType), true)
    && ShortyMatches(f, p.Parameters(), shorty)
  }

  predicate ShortyMatches(f: DexFile, ps: seq<U2>, shorty: seq<Byte>)
    requires forall k | 0 <= k < |ps| :: ps[k] < |f.typeIds| && f.typeIds[ps[k]] < |f.strings|
  {
    && |shorty| == 1 + |ps|
    && forall k | 0 <= k < |ps| :: ShortyDescMatch(shorty[1 + k], f.StringByTypeIdx(ps[k]), false)
  }

  // ----- What a shorty says -----

  /** The character for a type: its descriptor, if that is a single one, and L for classes and arrays. */
  function ShortyChar(us: Units): Byte
    requires TypeDescriptor(us, SLASH)
  {
    if us in [['B' as int], ['C' as int], ['D' as int], ['F' as int], ['I' as int], ['J' as int], ['S' as int],
              ['Z' as int], ['V' as int]]
    then us[0] else 'L' as int
  }

  ghost predicate ValidTypes(f: DexFile)
    requires f.IndicesInRange()
  {
    forall i | 0 <= i < |f.typeIds| :: TypeDescriptor(f.strings[f.typeIds[i]], SLASH)
  }

  function TypeUnits(f: DexFile, t: nat): Units
    requires t < |f.typeIds| && f.typeIds[t] < |f.strings|
  {
    f.strings[f.typeIds[t]]
  }

  /** The shorty spells the return type and the parameters, none of which is void. */
  ghost predicate Spelled(f: DexFile, i: nat)
    requires f.IndicesInRange() && ValidTypes(f) && i < |f.protoIds|
  {
    var p := f.protoIds[i];
    var ps, shorty := p.Parameters(), f.StringById(p.shorty);
    && (forall k | 0 <= k < |ps| :: TypeUnits(f, ps[k]) != ['V' as int])
    && |shorty| == 1 + |ps| && shorty[0] == ShortyChar(TypeUnits(f, p.returnType))
    && forall k | 0 <= k < |ps| :: shorty[1 + k] == ShortyChar(TypeUnits(f, ps[k]))
  }

  lemma SingleUnits(us: Units)
    requires TypeDescriptor(us, SLASH) && |us| == 1
    ensures Encode(us) == [us[0]] && us[0] == ShortyChar(us) != 'L' as int
  {
    if us != ['V' as int] {
      assert Brackets(us) == 0 by {
        assert Brackets(us) < |us|;
      }
      assert us[0..] == us;
    }
    assert Encode(us[1..]) == [];
    assert us == [us[0]];
  }

  lemma LongUnits(us: Units)
    requires TypeDescriptor(us, SLASH) && |us| != 1
    ensures ShortyChar(us) == 'L' as int && |us| > 1 && (us[0] == 'L' as int || us[0] == '[' as int)
    ensures |Encode(us)| > 1 && Encode(us)[0] == us[0] && Encode(us)[1] != 0
  {
    hide ClassName;
    var k := Brackets(us);
    if k == 0 {
      assert us[0..] == us;
    } else {
      assert us[0] == BRACKET && k < |us|;
    }
    EncodeCharacters(us, 0);
    TwoUnits(us);
  }

  lemma TwoUnits(us: Units)
    requires |us| > 1 && 0 < us[0] < 0x80
    ensures |Encode(us)| > 1 && Encode(us)[0] == us[0] && Encode(us)[1] in Encode(us)
  {
    assert Encode(us) == [us[0]] + Encode(us[1..]);
    assert Encode(us[1..]) == EncodeUnit(us[1]) + Encode(us[1..][1..]);
  }

  /** shortyDescMatch accepts exactly the character of the type, and V only for a return type. */
  lemma MatchesExactly(c: Byte, us: Units, isReturnType: bool)
    requires TypeDescriptor(us, SLASH)
    ensures ShortyDescMatch(c, Encode(us), isReturnType) <==>
      c == ShortyChar(us) && (us == ['V' as int] ==> isReturnType)
  {
    if |us| == 1 {
      SingleUnits(us);
      hide Encode;
      assert us == [us[0]];
    } else {
      LongUnits(us);
      hide Encode, TypeDescriptor;
    }
  }

  /** In a file whose types are valid a shorty fits exactly if it spells its prototype. */
  lemma ShortyFitsExactly(f: DexFile, i: nat)
    requires f.IndicesInRange() && ValidTypes(f) && i < |f.protoIds|
    ensures ShortyFits(f, i) <==> Spelled(f, i)
  {
    var p := f.protoIds[i];
    var ps, shorty := p.Parameters(), f.StringById(p.shorty);
    hide ShortyDescMatch, ShortyChar, TypeDescriptor;
    MatchesExactly(At(shorty, 0), TypeUnits(f, p.returnType), true);
    forall k | 0 <= k < |ps| && |shorty| == 1 + |ps|
      ensures ShortyDescMatch(shorty[1 + k], f.StringByTypeIdx(ps[k]), false) <==>
        shorty[1 + k] == ShortyChar(TypeUnits(f, ps[k])) && TypeUnits(f, ps[k]) != ['V' as int]
    {
      MatchesExactly(shorty[1 + k], TypeUnits(f, ps[k]), false);
    }
  }

  /** What decides the order of proto_ids: the return type, then the parameters. */
  function Key(p: ProtoId): seq<int> {
    [p.returnType] + p.Parameters()
  }

  ghost predicate ProtosInOrder(f: DexFile)
    requires f.IndicesInRange()
  {
    && (forall i | 0 <= i < |f.protoIds| :: ShortyFits(f, i))
    && (forall i | 0 < i < |f.protoIds| :: Order(Key(f.protoIds[i - 1]), Key(f.protoIds[i])) < 0)
  }

  /** DexParameterIterator. */
  class ParameterIterator {
    const parameters: seq<U2>
    var cursor: nat

    constructor (proto: ProtoId)
      ensures parameters == proto.Parameters() && cursor == 0
    {
      parameters := proto.Parameters();
      cursor := 0;
    }

    method NextIndex() returns (idx: U4)
      requires cursor <= |parameters|
      modifies this
      ensures cursor <= |parameters|
      ensures idx == (if old(cursor) < |parameters| then parameters[old(cursor)] else NO_INDEX)
      ensures cursor == (if old(cursor) < |parameters| then old(cursor) + 1 else old(cursor))
    {
      if cursor >= |parameters| {
        return NO_INDEX;
      }
      idx := parameters[cursor];
      cursor := cursor + 1;
    }
  }

  /** The two shorty loops of crossVerifyProtoIdItem. */
  method CheckShorty(f: DexFile, i: nat) returns (ok: bool)
    requires f.IndicesInRange() && i < |f.protoIds|
    ensures ok <==> ShortyFits(f, i)
    ensures ValidTypes(f) ==> (ok <==> Spelled(f, i))
  {
    if ValidTypes(f) {
      ShortyFitsExactly(f, i);
    }
    hide ValidTypes, Spelled;
    EncodeCharacters(f.strings[f.protoIds[i].shorty], 0);
    hide Encode;
    var item := f.protoIds[i];
    var shorty := f.StringById(item.shorty);
    if !ShortyDescMatch(At(shorty, 0), f.StringByTypeIdx(item.returnType), true) {
      return false;
    }
    hide ShortyDescMatch;
    ok := CheckShortyParameters(f, item, shorty);
  }

  /** The loop over the parameters. */
  method CheckShortyParameters(f: DexFile, item: ProtoId, shorty: seq<Byte>) returns (ok: bool)
    requires forall k | 0 <= k < |item.Parameters()| ::
      item.Parameters()[k] < |f.typeIds| && f.typeIds[item.Parameters()[k]] < |f.strings|
    requires 0 !in shorty && At(shorty, 0) != 0
    ensures ok <==> ShortyMatches(f, item.Parameters(), shorty)
  {
    hide ShortyDescMatch;
    var it := new ParameterIterator(item);
    ghost var ps := item.Parameters();
    var s := 1;
    while true
      invariant it.cursor == s - 1 <= |ps| && it.parameters == ps && s <= |shorty|
      invariant forall k | 0 <= k < s - 1 :: ShortyDescMatch(shorty[1 + k], f.StringByTypeIdx(ps[k]), false)
      decreases |ps| - it.cursor
    {
      var idx := it.NextIndex();
      if idx == NO_INDEX {
        break;
      }
      if At(shorty, s) == 0 {
        return false;
      }
      if !ShortyDescMatch(At(shorty, s), f.StringByTypeIdx(idx), false) {
        return false;
      }
      s := s + 1;
    }
    return At(shorty, s) == 0;
  }

  /** The ordering check: whether the previous proto is smaller. */
  method CheckProtoOrder(item0: ProtoId, item: ProtoId) returns (ok: bool)
    ensures ok <==> Order(Key(item0), Key(item)) < 0
  {
    if item0.returnType > item.returnType {
      return false;
    } else if item0.returnType == item.returnType {
      var it := new ParameterIterator(item);
      var it0 := new ParameterIterator(item0);
      ghost var n := 0;
      assert Key(item0)[1..] == item0.Parameters()[n..] && Key(item)[1..] == item.Parameters()[n..];
      while true
        invariant it.cursor == it0.cursor == n
        invariant n <= |it.parameters| && n <= |it0.parameters|
        invariant it.parameters == item.Parameters() && it0.parameters == item0.Parameters()
        invariant Order(Key(item0), Key(item)) == Order(item0.Parameters()[n..], item.Parameters()[n..])
        decreases |it.parameters| - n
      {
        var idx0 := it0.NextIndex();
        var idx1 := it.NextIndex();
        if idx1 == NO_INDEX {
          return false;
        }
        if idx0 == NO_INDEX {
          return true;
        }
        if idx0 < idx1 {
          return true;
        } else if idx0 > idx1 {
          return false;
        }
        assert item0.Parameters()[n..][1..] == item0.Parameters()[n + 1..];
        assert item.Parameters()[n..][1..] == item.Parameters()[n + 1..];
        n := n + 1;
      }
    }
    return true;
  }

  /** The data map has a type_list wherever one is said to be. */
  ghost predicate ParametersKnown(f: DexFile, es: seq<Entry>) {
    forall i | 0 <= i < |f.protoIds| :: f.protoIds[i].parametersOff == 0 || Entry(f.protoIds[i].parametersOff, TYPE_LIST) in es
  }

  /** Every shorty spells its prototype, and the prototypes ascend by return type and parameters. */
  ghost predicate SpelledInOrder(f: DexFile)
    requires f.IndicesInRange() && ValidTypes(f)
  {
    && (forall i | 0 <= i < |f.protoIds| :: Spelled(f, i))
    && (forall i | 0 < i < |f.protoIds| :: Smaller(Key(f.protoIds[i - 1]), Key(f.protoIds[i])))
  }

  lemma ProtosInOrderExactly(f: DexFile)
    requires f.IndicesInRange() && ValidTypes(f)
    ensures ProtosInOrder(f) <==> SpelledInOrder(f)
  {
    hide ValidTypes, ShortyFits, Spelled, Key, Smaller, Order;
    forall i | 0 <= i < |f.protoIds| ensures ShortyFits(f, i) <==> Spelled(f, i) {
      ShortyFitsExactly(f, i);
    }
    forall i | 0 < i < |f.protoIds|
      ensures Order(Key(f.protoIds[i - 1]), Key(f.protoIds[i])) < 0 <==> Smaller(Key(f.protoIds[i - 1]), Key(f.protoIds[i]))
    {
      OrderMeaning(Key(f.protoIds[i - 1]), Key(f.protoIds[i]));
    }
  }

  /** What is checked about one prototype. */
  ghost predicate ProtoOk(f: DexFile, es: seq<Entry>, i: nat)
    requires f.IndicesInRange() && i < |f.protoIds|
  {
    && (f.protoIds[i].parametersOff == 0 || Entry(f.protoIds[i].parametersOff, TYPE_LIST) in es)
    && ShortyFits(f, i) && (i > 0 ==> Order(Key(f.protoIds[i - 1]), Key(f.protoIds[i])) < 0)
  }

  lemma EachProtoOk(f: DexFile, es: seq<Entry>)
    requires f.IndicesInRange()
    ensures (forall i | 0 <= i < |f.protoIds| :: ProtoOk(f, es, i)) <==> ParametersKnown(f, es) && ProtosInOrder(f)
    ensures ValidTypes(f) ==> (ProtosInOrder(f) <==> SpelledInOrder(f))
  {
    if ValidTypes(f) {
      ProtosInOrderExactly(f);
    }
    hide SpelledInOrder, ValidTypes, ShortyFits, Key, Order;
    if forall i | 0 <= i < |f.protoIds| :: ProtoOk(f, es, i) {
      forall i | 0 <= i < |f.protoIds|
        ensures f.protoIds[i].parametersOff == 0 || Entry(f.protoIds[i].parametersOff, TYPE_LIST) in es
        ensures ShortyFits(f, i) && (i > 0 ==> Order(Key(f.protoIds[i - 1]), Key(f.protoIds[i])) < 0)
      {
        assert ProtoOk(f, es, i);
      }
    }
  }

  /** crossVerifyProtoIdItem; previousItem is the prototype before, or -1. */
  method CrossVerifyProtoIdItem(f: DexFile, dataMap: DexDataMap, previousItem: int, i: nat) returns (ok: bool)
    requires f.IndicesInRange() && dataMap.Valid() && i < |f.protoIds| && previousItem == i - 1
    ensures ok <==> ProtoOk(f, dataMap.Entries(), i)
  {
    hide ShortyFits, Key, Order;
    ok := dataMap.Verify0Ok(f.protoIds[i].parametersOff, TYPE_LIST);
    if !ok {
      return;
    }
    ok := CheckShorty(f, i);
    if !ok {
      return;
    }
    if previousItem >= 0 {
      ok := CheckProtoOrder(f.protoIds[previousItem], f.protoIds[i]);
    }
  }

  method CrossVerifyProtoIds(f: DexFile, dataMap: DexDataMap) returns (ok: bool)
    requires f.IndicesInRange() && dataMap.Valid()
    ensures ok <==> ParametersKnown(f, dataMap.Entries()) && ProtosInOrder(f)
    ensures ValidTypes(f) ==> (ok <==> ParametersKnown(f, dataMap.Entries()) && SpelledInOrder(f))
  {
    ghost var es := dataMap.Entries();
    var previousItem := -1;
    for i := 0 to |f.protoIds|
      invariant previousItem == i - 1
      invariant forall k | 0 <= k < i :: ProtoOk(f, es, k)
    {
      hide *;
      ok := CrossVerifyProtoIdItem(f, dataMap, previousItem, i);
      if !ok {
        EachProtoOk(f, es);
        return;
      }
      previousItem := i;
    }
    hide *;
    EachProtoOk(f, es);
    return true;
  }
}

/** Comparing prototypes with each other and with method descriptors
    (libdex/DexProto.cpp), and what the verified order of the tables is worth. */
module DexProto {
  import opened Memory
  import opened Lexicographic
  import opened Mutf8
  import opened DexUtf
  import opened IdTables
  import opened DataMap

  // ----- The order of prototypes -----

  /** Lists of strings: the first strcmp that differs, then the lengths. */
  function ListOrder(a: seq<seq<Byte>>, b: seq<seq<Byte>>): int {
    if a == [] && b == [] then 0
    else if a == [] then -1
    else if b == [] then 1
    else if Order(a[0], b[0]) != 0 then Order(a[0], b[0])
    else ListOrder(a[1..], b[1..])
  }

  function Descriptors(f: DexFile, ps: seq<U2>): (ds: seq<seq<Byte>>)
    requires f.IndicesInRange() && forall k | 0 <= k < |ps| :: ps[k] < |f.typeIds|
    ensures |ds| == |ps| && forall k | 0 <= k < |ps| :: ds[k] == f.StringByTypeIdx(ps[k])
  {
    seq(|ps|, k requires 0 <= k < |ps| => f.StringByTypeIdx(ps[k]))
  }

  function ReturnOf(f: DexFile, i: nat): seq<Byte>
    requires f.IndicesInRange() && i < |f.protoIds|
  {
    f.StringByTypeIdx(f.protoIds[i].returnType)
  }

  function ParametersOf(f: DexFile, i: nat): seq<seq<Byte>>
    requires f.IndicesInRange() && i < |f.protoIds|
  {
    Descriptors(f, f.protoIds[i].Parameters())
  }

  /** Return types in the major order, then the parameters. */
  function SignatureOrder(r1: seq<Byte>, ps1: seq<seq<Byte>>, r2: seq<Byte>, ps2: seq<seq<Byte>>): int {
    if Order(r1, r2) != 0 then Order(r1, r2) else ListOrder(ps1, ps2)
  }

  /** Prototype i of one file and j of another or the same. */
  function ProtoOrder(f: DexFile, i: nat, g: DexFile, j: nat): int
    requires f.IndicesInRange() && i < |f.protoIds| && g.IndicesInRange() && j < |g.protoIds|
  {
    SignatureOrder(ReturnOf(f, i), ParametersOf(f, i), ReturnOf(g, j), ParametersOf(g, j))
  }

  lemma ListOrderAt(a: seq<seq<Byte>>, b: seq<seq<Byte>>, k: nat)
    requires k < |a| && k < |b|
    ensures ListOrder(a[k..], b[k..]) == if Order(a[k], b[k]) != 0 then Order(a[k], b[k]) else ListOrder(a[k + 1..], b[k + 1..])
  {
    hide Order;
    assert a[k..][1..] == a[k + 1..] && b[k..][1..] == b[k + 1..];
  }

  lemma ListOrderEnds(a: seq<seq<Byte>>, b: seq<seq<Byte>>)
    requires a == [] || b == []
    ensures ListOrder(a, b) == if a != [] then 1 else if b != [] then -1 else 0
  {
  }

  /** The first lists of strings agree up to k, and there one has ended or has the smaller string. */
  ghost predicate SmallerListAt(a: seq<seq<Byte>>, b: seq<seq<Byte>>, k: nat) {
    && k <= |a| && k < |b| && (forall i | 0 <= i < k :: a[i] == b[i])
    && (k == |a| || Smaller(a[k], b[k]))
  }

  lemma {:induction false} ListOrderMeaning(a: seq<seq<Byte>>, b: seq<seq<Byte>>)
    ensures ListOrder(a, b) < 0 <==> exists k: nat :: SmallerListAt(a, b, k)
  {
    if a == [] || b == [] {
      assert ListOrder(a, b) < 0 ==> SmallerListAt(a, b, 0);
    } else {
      OrderMeaning(a[0], b[0]);
      OrderZero(a[0], b[0]);
      NotSmaller(a[0]);
      hide Order, Smaller;
      var a', b' := a[1..], b[1..];
      if a[0] == b[0] {
        ListOrderMeaning(a', b');
        if k: nat :| SmallerListAt(a', b', k) {
          assert SmallerListAt(a, b, k + 1) by {
            assert forall i | 0 <= i < k :: a'[i] == a[i + 1] && b'[i] == b[i + 1];
          }
        }
        if k: nat :| SmallerListAt(a, b, k) {
          assert SmallerListAt(a', b', k - 1) by {
            assert forall i | 0 <= i < k - 1 :: a'[i] == a[i + 1] && b'[i] == b[i + 1];
          }
        }
      } else {
        assert ListOrder(a, b) < 0 ==> SmallerListAt(a, b, 0);
      }
    }
  }

  lemma NotSmaller(a: seq<Byte>)
    ensures !Smaller(a, a)
  {
    OrderMeaning(a, a);
    OrderZero(a, a);
  }

  lemma {:induction false} ListOrderSame(a: seq<seq<Byte>>)
    ensures ListOrder(a, a) == 0
  {
    if a != [] {
      OrderZero(a[0], a[0]);
      ListOrderSame(a[1..]);
    }
  }

  /** protoCompare; the two prototypes may be of different files. */
  method ProtoCompare(f: DexFile, i: nat, g: DexFile, j: nat, compareReturnType: bool) returns (r: int)
    requires f.IndicesInRange() && i < |f.protoIds| && g.IndicesInRange() && j < |g.protoIds|
    ensures compareReturnType ==> SameSign(r, ProtoOrder(f, i, g, j))
    ensures !compareReturnType ==> SameSign(r, ListOrder(ParametersOf(f, i), ParametersOf(g, j)))
  {
    if f == g && i == j {
      OrderZero(ReturnOf(f, i), ReturnOf(f, i));
      ListOrderSame(ParametersOf(f, i));
      return 0;
    }
    hide Order, ListOrder;
    var ps1, ps2 := f.protoIds[i].Parameters(), g.protoIds[j].Parameters();
    ghost var ds1, ds2 := Descriptors(f, ps1), Descriptors(g, ps2);
    if compareReturnType {
      var result := Order(f.StringByTypeIdx(f.protoIds[i].returnType), g.StringByTypeIdx(g.protoIds[j].returnType));
      if result != 0 {
        return result;
      }
    }
    var minParam := if |ps1| > |ps2| then |ps2| else |ps1|;
    assert ds1[0..] == ds1 && ds2[0..] == ds2;
    for k := 0 to minParam
      invariant ListOrder(ds1, ds2) == ListOrder(ds1[k..], ds2[k..])
    {
      ListOrderAt(ds1, ds2, k);
      var result := Order(f.StringByTypeIdx(ps1[k]), g.StringByTypeIdx(ps2[k]));
      if result != 0 {
        return result;
      }
    }
    ListOrderEnds(ds1[minParam..], ds2[minParam..]);
    if |ps1| < |ps2| {
      return -1;
    } else if |ps1| > |ps2| {
      return 1;
    }
    return 0;
  }

  // ----- Verified tables are sorted -----

  /** The three checks of the cross-item pass. */
  ghost predicate Verified(f: DexFile) {
    f.IndicesInRange() && StringsInOrder(f) && TypesInOrder(f) && ProtosInOrder(f)
  }

  lemma {:induction false} StringsSorted(f: DexFile, i: nat, j: nat)
    requires StringsInOrder(f) && i < j < |f.strings|
    ensures Order(f.strings[i], f.strings[j]) < 0
  {
    if i < j - 1 {
      StringsSorted(f, i, j - 1);
      OrderTransitive(f.strings[i], f.strings[j - 1], f.strings[j]);
    }
  }

  lemma {:induction false} TypesSorted(f: DexFile, a: nat, b: nat)
    requires f.IndicesInRange() && TypesInOrder(f) && a < b < |f.typeIds|
    ensures f.typeIds[a] < f.typeIds[b]
  {
    hide TypeDescriptor;
    if a < b - 1 {
      TypesSorted(f, a, b - 1);
    }
  }

  /** Type indices are ordered as strcmp orders their descriptors. */
  lemma TypeIndexOrder(f: DexFile, a: nat, b: nat)
    requires Verified(f) && a < |f.typeIds| && b < |f.typeIds|
    ensures SameSign(a - b, Order(f.StringByTypeIdx(a), f.StringByTypeIdx(b)))
  {
    hide Order, TypeDescriptor, ShortyFits;
    var x, y := f.strings[f.typeIds[a]], f.strings[f.typeIds[b]];
    if a == b {
      OrderZero(Encode(x), Encode(y));
    } else {
      if a < b {
        TypesSorted(f, a, b);
        StringsSorted(f, f.typeIds[a], f.typeIds[b]);
      } else {
        TypesSorted(f, b, a);
        StringsSorted(f, f.typeIds[b], f.typeIds[a]);
        OrderAntisymmetric(y, x);
      }
      DescriptorOrder(x, y);
    }
  }

  /** Lists of type indices are ordered as the lists of their descriptors. */
  lemma {:induction false} ListIndexOrder(f: DexFile, a: seq<U2>, b: seq<U2>)
    requires Verified(f)
    requires (forall k | 0 <= k < |a| :: a[k] < |f.typeIds|) && (forall k | 0 <= k < |b| :: b[k] < |f.typeIds|)
    ensures SameSign(Order(a, b), ListOrder(Descriptors(f, a), Descriptors(f, b)))
  {
    hide StringsInOrder, TypesInOrder, ProtosInOrder, Encode;
    if a != [] && b != [] {
      TypeIndexOrder(f, a[0], b[0]);
      var x, y := Descriptors(f, a), Descriptors(f, b);
      assert x[1..] == Descriptors(f, a[1..]) && y[1..] == Descriptors(f, b[1..]);
      ListIndexOrder(f, a[1..], b[1..]);
    }
  }

  lemma {:induction false} KeysSorted(f: DexFile, i: nat, j: nat)
    requires f.IndicesInRange() && ProtosInOrder(f) && i < j < |f.protoIds|
    ensures Order(Key(f.protoIds[i]), Key(f.protoIds[j])) < 0
  {
    hide ShortyFits, Key;
    if i < j - 1 {
      KeysSorted(f, i, j - 1);
      OrderTransitive(Key(f.protoIds[i]), Key(f.protoIds[j - 1]), Key(f.protoIds[j]));
    }
  }

  /** The key of two protos orders them as their descriptors do. */
  lemma KeyOrder(f: DexFile, i: nat, j: nat)
    requires Verified(f) && i < |f.protoIds| && j < |f.protoIds|
    ensures SameSign(Order(Key(f.protoIds[i]), Key(f.protoIds[j])), ProtoOrder(f, i, f, j))
  {
    var p, q := f.protoIds[i], f.protoIds[j];
    TypeIndexOrder(f, p.returnType, q.returnType);
    ListIndexOrder(f, p.Parameters(), q.Parameters());
    assert Key(p)[1..] == p.Parameters() && Key(q)[1..] == q.Parameters();
    hide ListOrder, Descriptors, TypesInOrder, StringsInOrder, ProtosInOrder, Encode;
  }

  /** In a verified file the position of a proto is its rank: dexProtoCompare of two
      protos is negative exactly when the first has the smaller index. */
  lemma PositionIsRank(f: DexFile, i: nat, j: nat)
    requires Verified(f) && i < |f.protoIds| && j < |f.protoIds|
    ensures SameSign(i - j, ProtoOrder(f, i, f, j))
  {
    hide ProtoOrder, Order, Key;
    KeyOrder(f, i, j);
    if i < j {
      KeysSorted(f, i, j);
    } else if j < i {
      KeysSorted(f, j, i);
      OrderAntisymmetric(Key(f.protoIds[j]), Key(f.protoIds[i]));
    } else {
      OrderZero(Key(f.protoIds[i]), Key(f.protoIds[j]));
    }
  }

  // ----- Method descriptors -----

  function Concat(ds: seq<seq<Byte>>): seq<Byte> {
    if ds == [] then [] else ds[0] + Concat(ds[1..])
  }

  function MethodDescriptor(ret: seq<Byte>, ds: seq<seq<Byte>>): seq<Byte> {
    ['(' as int] + Concat(ds) + [')' as int] + ret
  }

  predicate Shaped(ds: seq<seq<Byte>>) {
    forall k | 0 <= k < |ds| :: ParameterShape(ds[k]) && Plain(ds[k])
  }

  /** The place of the first semicolon. */
  function FirstSemicolon(s: seq<Byte>): Option<nat> {
    if s == [] then None
    else if s[0] == SEMICOLON then Some(0)
    else match FirstSemicolon(s[1..]) case None => None case Some(n) => Some(n + 1)
  }

  /** The length of the type in front, as methodDescriptorNextType finds it. */
  function TypeEnd(s: seq<Byte>): Option<nat> {
    if s == [] then None
    else if s[0] == '[' as int then (match TypeEnd(s[1..]) case None => None case Some(n) => Some(n + 1))
    else if Primitive(s[0]) then Some(1)
    else if s[0] == 'L' as int then (match FirstSemicolon(s[1..]) case None => None case Some(n) => Some(n + 2))
    else None
  }

  lemma {:induction false} SemicolonAt(n: seq<Byte>, rest: seq<Byte>)
    requires SEMICOLON !in n
    ensures FirstSemicolon(n + [SEMICOLON] + rest) == Some(|n|)
  {
    var s := n + [SEMICOLON] + rest;
    if n != [] {
      assert s[1..] == n[1..] + [SEMICOLON] + rest;
      assert n[0] in n;
      SemicolonAt(n[1..], rest);
    }
  }

  /** A descriptor in front is found in full, whatever follows. */
  lemma {:induction false} TypeEndOfShape(d: seq<Byte>, rest: seq<Byte>)
    requires ParameterShape(d)
    ensures TypeEnd(d + rest) == Some(|d|)
  {
    var s := d + rest;
    assert s[0] == d[0] && s[1..] == d[1..] + rest;
    if d[0] == '[' as int {
      TypeEndOfShape(d[1..], rest);
    } else if |d| > 1 {
      var n := d[1..|d| - 1];
      assert s[1..] == n + [SEMICOLON] + rest;
      SemicolonAt(n, rest);
    }
  }

  /** Concatenated descriptors parse in one way only. */
  lemma {:induction false} UniqueParse(ds: seq<seq<Byte>>, es: seq<seq<Byte>>)
    requires Shaped(ds) && Shaped(es) && Concat(ds) == Concat(es)
    ensures ds == es
  {
    if ds != [] {
      TypeEndOfShape(ds[0], Concat(ds[1..]));
    }
    if es != [] {
      TypeEndOfShape(es[0], Concat(es[1..]));
    }
    if ds != [] && es != [] {
      var s := Concat(ds);
      assert ds[0] == s[..|ds[0]|] && es[0] == s[..|es[0]|];
      assert Concat(ds[1..]) == s[|ds[0]|..] == Concat(es[1..]);
      UniqueParse(ds[1..], es[1..]);
      assert ds == [ds[0]] + ds[1..] && es == [es[0]] + es[1..];
    }
  }

  /** methodDescriptorNextType; None stands for NULL. */
  method MethodDescriptorNextType(s: seq<Byte>, p: nat) returns (next: Option<nat>)
    requires p <= |s|
    ensures next == (match TypeEnd(s[p..]) case None => None case Some(n) => Some(p + n))
  {
    var d := p;
    while At(s, d) == '[' as int
      invariant p <= d <= |s|
      invariant match TypeEnd(s[p..])
                case None => TypeEnd(s[d..]).None?
                case Some(n) => TypeEnd(s[d..]) == Some(p + n - d)
      decreases |s| - d
    {
      assert s[d..][1..] == s[d + 1..];
      d := d + 1;
    }
    var c: int := At(s, d);
    if c == 'B' as int || c == 'C' as int || c == 'D' as int || c == 'F' as int
       || c == 'I' as int || c == 'J' as int || c == 'S' as int || c == 'Z' as int {
      return Some(d + 1);
    } else if c == 'L' as int {
      assert s[d..][1..] == s[d + 1..];
      var result := FirstSemicolon(s[d + 1..]);
      if result.Some? {
        return Some(d + 1 + result.value + 1);
      }
    }
    return None;
  }

  /** The character loop over one parameter of the proto and one of the descriptor. */
  method CompareType(protoDesc: seq<Byte>, s: seq<Byte>, p: nat, next: nat) returns (r: int)
    requires p <= next <= |s| && 0 !in protoDesc && 0 !in s[p..next]
    ensures SameSign(r, Order(protoDesc, s[p..next]))
  {
    var x, d := 0, p;
    ghost var y := s[p..next];
    assert protoDesc[0..] == protoDesc && y[0..] == y;
    while true
      invariant x <= |protoDesc| && p <= d <= next && x == d - p
      invariant Order(protoDesc, y) == Order(protoDesc[x..], y[x..])
      decreases |protoDesc| - x
    {
      assert x < |protoDesc| ==> protoDesc[x] in protoDesc;
      assert x < |y| ==> y[x] in y;
      var c1: int := At(protoDesc, x);
      var c2: int := if d < next then s[d] else 0;
      if c1 < c2 {
        return -1;
      } else if c1 > c2 {
        return 1;
      } else if c1 == 0 {
        return 0;
      }
      assert protoDesc[x..][1..] == protoDesc[x + 1..] && y[x..][1..] == y[x + 1..];
      x, d := x + 1, d + 1;
    }
  }

  /** protoCompareToParameterDescriptors: the descriptor is a concatenation of types,
      bare or in the parentheses of a method descriptor with return type ret. */
  method ProtoCompareToParameterDescriptors(f: DexFile, i: nat, descriptor: seq<Byte>, expectParens: bool,
      ghost ret: seq<Byte>, ghost ds: seq<seq<Byte>>) returns (r: int)
    requires f.IndicesInRange() && i < |f.protoIds| && Shaped(ds)
    requires descriptor == if expectParens then MethodDescriptor(ret, ds) else Concat(ds)
    ensures SameSign(r, ListOrder(ParametersOf(f, i), ds))
  {
    ghost var tail := if expectParens then [')' as int] + ret else [];
    var p := if expectParens then 1 else 0;
    assert descriptor[p..] == Concat(ds) + tail;
    r := CompareParameterList(f, i, descriptor, p, if expectParens then ')' as int else 0, ds, tail);
  }

  /** The outer loop, from the place after the '('. */
  method CompareParameterList(f: DexFile, i: nat, descriptor: seq<Byte>, start: nat, expectedEndChar: Byte,
      ghost ds: seq<seq<Byte>>, ghost tail: seq<Byte>) returns (r: int)
    requires f.IndicesInRange() && i < |f.protoIds| && Shaped(ds)
    requires start <= |descriptor| && descriptor[start..] == Concat(ds) + tail
    requires (expectedEndChar == 0 && tail == [])
      || (expectedEndChar == ')' as int && tail != [] && tail[0] == expectedEndChar)
    ensures SameSign(r, ListOrder(ParametersOf(f, i), ds))
  {
    hide Encode, ParameterShape, Plain, Order, Concat;
    var it := new ParameterIterator(f.protoIds[i]);
    var p: nat := start;
    ghost var k, ps := 0, ParametersOf(f, i);
    assert ps[0..] == ps && ds[0..] == ds;
    while true
      invariant k <= |ps| && k <= |ds| && it.cursor == k && it.parameters == f.protoIds[i].Parameters()
      invariant p <= |descriptor| && descriptor[p..] == Concat(ds[k..]) + tail
      invariant ListOrder(ps, ds) == ListOrder(ps[k..], ds[k..])
      decreases |ds| - k
    {
      EndOrType(descriptor, p, ds[k..], tail, expectedEndChar);
      var idx := it.NextIndex();
      if At(descriptor, p) == expectedEndChar {
        return if idx == NO_INDEX then 0 else 1;
      }
      if idx == NO_INDEX {
        return -1;
      }
      var protoDesc := f.StringByTypeIdx(idx);
      EncodeCharacters(f.strings[f.typeIds[idx]], 0);
      var c;
      c, p := CompareNextType(protoDesc, descriptor, p, ds[k]);
      if c != 0 {
        return c;
      }
      assert ps[k..][1..] == ps[k + 1..] && ds[k..][1..] == ds[k + 1..];
      k := k + 1;
    }
  }

  /** One parameter of the proto and the type at p of the descriptor, which is d. */
  method CompareNextType(protoDesc: seq<Byte>, s: seq<Byte>, p: nat, ghost d: seq<Byte>) returns (c: int, next: nat)
    requires 0 !in protoDesc && 0 !in d
    requires p + |d| <= |s| && TypeEnd(s[p..]) == Some(|d|) && s[p..p + |d|] == d
    ensures SameSign(c, Order(protoDesc, d)) && next == p + |d|
  {
    hide TypeEnd, Order;
    var nextDesc := MethodDescriptorNextType(s, p);
    next := nextDesc.value;
    c := CompareType(protoDesc, s, p, next);
  }

  /** Where the descriptor stands: at its end character exactly when no type is left,
      and otherwise at a type whose end is found. */
  lemma EndOrType(s: seq<Byte>, p: nat, ds: seq<seq<Byte>>, tail: seq<Byte>, end: Byte)
    requires p <= |s| && s[p..] == Concat(ds) + tail && Shaped(ds)
    requires (end == 0 && tail == []) || (end == ')' as int && tail != [] && tail[0] == end)
    ensures At(s, p) == end <==> ds == []
    ensures ds != [] ==>
      && TypeEnd(s[p..]) == Some(|ds[0]|) && p + |ds[0]| <= |s|
      && s[p..p + |ds[0]|] == ds[0] && 0 !in ds[0]
      && s[p + |ds[0]|..] == Concat(ds[1..]) + tail
  {
    ConcatHead(ds, tail);
    hide Concat, TypeEnd, ParameterShape, Plain;
    if ds == [] {
      assert s[p..] == tail;
    } else {
      var d := ds[0];
      var rest := Concat(ds[1..]) + tail;
      ShapeHasStart(d);
      AtType(s, p, d, rest);
    }
  }

  lemma ConcatHead(ds: seq<seq<Byte>>, tail: seq<Byte>)
    ensures ds == [] ==> Concat(ds) + tail == tail
    ensures ds != [] ==> Concat(ds) + tail == ds[0] + (Concat(ds[1..]) + tail)
  {
  }

  lemma AtType(s: seq<Byte>, p: nat, d: seq<Byte>, rest: seq<Byte>)
    requires p <= |s| && s[p..] == d + rest && d != [] && ParameterShape(d)
    ensures p < |s| && s[p] == d[0] && TypeEnd(s[p..]) == Some(|d|) && p + |d| <= |s|
    ensures s[p..p + |d|] == d && s[p + |d|..] == rest
  {
    TypeEndOfShape(d, rest);
    hide TypeEnd, ParameterShape;
    Subrange(s, p, d, rest);
    assert s[p..p + |d|][0] == s[p];
  }

  lemma ShapeHasStart(d: seq<Byte>)
    requires ParameterShape(d) && Plain(d)
    ensures d != [] && d[0] != 0 && d[0] != ')' as int && 0 !in d
  {
    assert d[0] in d;
  }

  lemma Subrange(s: seq<Byte>, p: nat, d: seq<Byte>, rest: seq<Byte>)
    requires p <= |s| && s[p..] == d + rest
    ensures p + |d| <= |s| && s[p..p + |d|] == d && s[p + |d|..] == rest
  {
    assert |s[p..]| == |d| + |rest|;
    assert s[p..p + |d|] == s[p..][..|d|];
    assert s[p + |d|..] == s[p..][|d|..];
  }

  /** strchr(descriptor, ')') + 1. */
  function AfterParen(s: seq<Byte>): Option<nat> {
    if s == [] then None
    else if s[0] == ')' as int then Some(1)
    else match AfterParen(s[1..]) case None => None case Some(n) => Some(n + 1)
  }

  lemma {:induction false} AfterParenAt(a: seq<Byte>, b: seq<Byte>)
    requires ')' as int !in a
    ensures AfterParen(a + [')' as int] + b) == Some(|a| + 1)
  {
    var s := a + [')' as int] + b;
    if a != [] {
      assert s[1..] == a[1..] + [')' as int] + b;
      assert a[0] in a;
      AfterParenAt(a[1..], b);
    }
  }

  lemma {:induction false} ConcatPlain(ds: seq<seq<Byte>>)
    requires Shaped(ds)
    ensures ')' as int !in Concat(ds)
  {
    if ds != [] {
      ConcatPlain(ds[1..]);
    }
  }

  /** dexProtoCompareToDescriptor: as if the descriptor were a prototype and compared
      with dexProtoCompare. */
  method ProtoCompareToDescriptor(f: DexFile, i: nat, descriptor: seq<Byte>,
      ghost ret: seq<Byte>, ghost ds: seq<seq<Byte>>) returns (r: int)
    requires f.IndicesInRange() && i < |f.protoIds| && Shaped(ds)
    requires descriptor == MethodDescriptor(ret, ds)
    ensures SameSign(r, SignatureOrder(ReturnOf(f, i), ParametersOf(f, i), ret, ds))
  {
    ConcatPlain(ds);
    ghost var front := ['(' as int] + Concat(ds);
    AfterParenAt(front, ret);
    assert descriptor == front + [')' as int] + ret;
    var returnType := AfterParen(descriptor);
    assert descriptor[returnType.value..] == ret;
    var result := Order(f.StringByTypeIdx(f.protoIds[i].returnType), descriptor[returnType.value..]);
    if result != 0 {
      return result;
    }
    r := ProtoCompareToParameterDescriptors(f, i, descriptor, true, ret, ds);
  }

  // ----- Building a method descriptor -----

  /** strcpy(&buffer[at], s). */
  method Strcpy(buffer: array<Byte>, at: nat, s: seq<Byte>)
    requires at + |s| < buffer.Length
    modifies buffer
    ensures buffer[..at + |s|] == old(buffer[..at]) + s && buffer[at + |s|] == 0
  {
    forall k | 0 <= k < |s| {
      buffer[at + k] := s[k];
    }
    buffer[at + |s|] := 0;
  }

  lemma {:induction false} ConcatSnoc(ds: seq<seq<Byte>>, d: seq<Byte>)
    ensures Concat(ds + [d]) == Concat(ds) + d
  {
    if ds == [] {
      assert ds + [d] == [d];
    } else {
      assert (ds + [d])[1..] == ds[1..] + [d];
      ConcatSnoc(ds[1..], d);
    }
  }

  lemma ConcatPrefix(ds: seq<seq<Byte>>, k: nat)
    requires k < |ds|
    ensures Concat(ds[..k + 1]) == Concat(ds[..k]) + ds[k]
  {
    assert ds[..k + 1] == ds[..k] + [ds[k]];
    ConcatSnoc(ds[..k], ds[k]);
  }

  lemma {:induction false} ConcatLength(ds: seq<seq<Byte>>, k: nat)
    requires k <= |ds|
    ensures |Concat(ds[..k])| <= |Concat(ds)|
    decreases |ds| - k
  {
    if k < |ds| {
      ConcatPrefix(ds, k);
      ConcatLength(ds, k + 1);
    } else {
      assert ds[..k] == ds;
    }
  }

  /** The loop that adds up the lengths. */
  method DescriptorLength(f: DexFile, i: nat) returns (length: nat)
    requires f.IndicesInRange() && i < |f.protoIds|
    ensures length == |MethodDescriptor(ReturnOf(f, i), ParametersOf(f, i))| + 1
  {
    assert Concat(ParametersOf(f, i)[..0]) == [];
    hide Encode, Concat;
    var ps := f.protoIds[i].Parameters();
    ghost var ds := ParametersOf(f, i);
    length := 3;
    for k := 0 to |ps|
      invariant length == 3 + |Concat(ds[..k])|
    {
      ConcatPrefix(ds, k);
      length := length + |f.StringByTypeIdx(ps[k])|;
    }
    assert ds[..|ps|] == ds;
    length := length + |f.StringByTypeIdx(f.protoIds[i].returnType)|;
  }

  /** The descriptor up to and without parameter k. */
  function Front(ds: seq<seq<Byte>>, k: nat): seq<Byte>
    requires k <= |ds|
  {
    ['(' as int] + Concat(ds[..k])
  }

  lemma FrontGrows(ds: seq<seq<Byte>>, k: nat)
    requires k < |ds|
    ensures Front(ds, k + 1) == Front(ds, k) + ds[k] && |Front(ds, k + 1)| <= 1 + |Concat(ds)|
  {
    ConcatPrefix(ds, k);
    ConcatLength(ds, k + 1);
    hide Concat;
  }

  lemma FrontEnds(ds: seq<seq<Byte>>)
    ensures Front(ds, 0) == ['(' as int] && Front(ds, |ds|) == ['(' as int] + Concat(ds)
  {
    assert ds[..|ds|] == ds && Concat(ds[..0]) == [];
  }

  /** The loop that copies the parameters. */
  method CopyParameters(f: DexFile, i: nat, buffer: array<Byte>) returns (at: nat)
    requires f.IndicesInRange() && i < |f.protoIds|
    requires 1 + |Concat(ParametersOf(f, i))| < buffer.Length && buffer[..1] == ['(' as int]
    modifies buffer
    ensures at == 1 + |Concat(ParametersOf(f, i))| && buffer[..at] == ['(' as int] + Concat(ParametersOf(f, i))
  {
    hide Encode, Concat, Front;
    var ps := f.protoIds[i].Parameters();
    ghost var ds := ParametersOf(f, i);
    FrontEnds(ds);
    at := 1;
    for k := 0 to |ps|
      invariant at == |Front(ds, k)| <= 1 + |Concat(ds)| && buffer[..at] == Front(ds, k)
    {
      FrontGrows(ds, k);
      var desc := f.StringByTypeIdx(ps[k]);
      Strcpy(buffer, at, desc);
      at := at + |desc|;
    }
  }

  /** dexProtoGetMethodDescriptor: the computed length is what gets written, NUL included. */
  method ProtoGetMethodDescriptor(f: DexFile, i: nat) returns (buffer: array<Byte>)
    requires f.IndicesInRange() && i < |f.protoIds|
    ensures fresh(buffer) && buffer[..] == MethodDescriptor(ReturnOf(f, i), ParametersOf(f, i)) + [0]
  {
    hide Encode, Concat, ParametersOf;
    ghost var ds := ParametersOf(f, i);
    var length := DescriptorLength(f, i);
    buffer := new Byte[length];
    buffer[0] := '(' as int;
    var at := CopyParameters(f, i, buffer);
    PutChar(buffer, at, ')' as int);
    at := at + 1;
    Strcpy(buffer, at, f.StringByTypeIdx(f.protoIds[i].returnType));
    hide MethodDescriptor;
    TakeLast(buffer[..]);
  }

  method PutChar(buffer: array<Byte>, at: nat, c: Byte)
    requires at < buffer.Length
    modifies buffer
    ensures buffer[..at + 1] == old(buffer[..at]) + [c]
  {
    buffer[at] := c;
  }

  lemma TakeLast(s: seq<Byte>)
    requires s != []
    ensures s == s[..|s| - 1] + [s[|s| - 1]]
  {
  }

  // ----- The two comparisons agree -----

  /** In a verified file no parameter is void, so every parameter has the shape. */
  lemma ParametersShaped(f: DexFile, i: nat)
    requires Verified(f) && i < |f.protoIds|
    ensures Shaped(ParametersOf(f, i))
  {
    var p := f.protoIds[i];
    var ds := ParametersOf(f, i);
    assert ShortyFits(f, i);
    forall k | 0 <= k < |ds|
      ensures ParameterShape(ds[k]) && Plain(ds[k])
    {
      var us := f.strings[f.typeIds[p.Parameters()[k]]];
      NotVoid(f.StringById(p.shorty)[1 + k], us);
      DescriptorShape(us);
    }
  }

  lemma NotVoid(c: Byte, us: Units)
    requires ShortyDescMatch(c, Encode(us), false)
    ensures us != ['V' as int]
  {
    assert Encode(['V' as int]) == ['V' as int];
  }

  /** Comparing a prototype with the descriptor built from one of any other file gives the sign of
      comparing the two prototypes. */
  method CompareThroughDescriptor(f: DexFile, i: nat, g: DexFile, j: nat) returns (r: int)
    requires f.IndicesInRange() && i < |f.protoIds| && g.IndicesInRange() && j < |g.protoIds|
    requires Shaped(ParametersOf(g, j))
    ensures SameSign(r, ProtoOrder(f, i, g, j))
  {
    hide Order, Shaped;
    var buffer := ProtoGetMethodDescriptor(g, j);
    var descriptor := buffer[..buffer.Length - 1];
    assert descriptor == MethodDescriptor(ReturnOf(g, j), ParametersOf(g, j));
    r := ProtoCompareToDescriptor(f, i, descriptor, ReturnOf(g, j), ParametersOf(g, j));
  }

  /** Which is the case for any prototype of a verified file. Within one such file the sign is that
      of the positions. */
  method CompareVerified(f: DexFile, i: nat, g: DexFile, j: nat) returns (r: int)
    requires f.IndicesInRange() && i < |f.protoIds| && Verified(g) && j < |g.protoIds|
    ensures SameSign(r, ProtoOrder(f, i, g, j))
    ensures f == g ==> SameSign(r, i - j)
  {
    hide StringsInOrder, TypesInOrder, ProtosInOrder, Order;
    ParametersShaped(g, j);
    r := CompareThroughDescriptor(f, i, g, j);
    if f == g {
      PositionIsRank(f, i, j);
    }
  }

  /** Valid descriptors have the shape, whatever the rest of their file is like. */
  lemma ValidIsShaped(f: DexFile, i: nat)
    requires f.IndicesInRange() && i < |f.protoIds|
    requires forall t | t in f.protoIds[i].Parameters() ::
      TypeDescriptor(f.strings[f.typeIds[t]], SLASH) && f.strings[f.typeIds[t]] != ['V' as int]
    ensures Shaped(ParametersOf(f, i))
  {
    var ps, ds := f.protoIds[i].Parameters(), ParametersOf(f, i);
    forall k | 0 <= k < |ds| ensures ParameterShape(ds[k]) && Plain(ds[k]) {
      assert ps[k] in ps;
      DescriptorShape(f.strings[f.typeIds[ps[k]]]);
    }
  }

  /** The three cross-item passes over the id tables. */
  method CrossVerifyIds(f: DexFile, dataMap: DexDataMap) returns (ok: bool)
    requires f.IndicesInRange() && dataMap.Valid()
    ensures ok <==> StringsKnown(f, dataMap.Entries()) && ParametersKnown(f, dataMap.Entries()) && Verified(f)
    ensures ok ==> ValidTypes(f) && SpelledInOrder(f)
  {
    assert TypesInOrder(f) ==> ValidTypes(f);
    hide SpelledInOrder, ValidTypes;
    hide StringsKnown, ParametersKnown, StringsInOrder, TypesInOrder, ProtosInOrder;
    var strings := CrossVerifyStringIds(f, dataMap);
    if !strings {
      return false;
    }
    var types := CrossVerifyTypeIds(f);
    if !types {
      return false;
    }
    ok := CrossVerifyProtoIds(f, dataMap);
  }
}
