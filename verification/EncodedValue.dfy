/** encoded_value, encoded_array and encoded_annotation: the trees that such bytes stand for,
    what the verifier (libdex/DexSwapVerify.cpp) does with them, and how the two agree. */
module EncodedValue {
  import opened Memory
  import Leb128

  const VALUE_BYTE := 0x00
  const VALUE_SHORT := 0x02
  const VALUE_CHAR := 0x03
  const VALUE_INT := 0x04
  const VALUE_LONG := 0x06
  const VALUE_FLOAT := 0x10
  const VALUE_DOUBLE := 0x11
  const VALUE_STRING := 0x17
  const VALUE_TYPE := 0x18
  const VALUE_FIELD := 0x19
  const VALUE_METHOD := 0x1a
  const VALUE_ENUM := 0x1b
  const VALUE_ARRAY := 0x1c
  const VALUE_ANNOTATION := 0x1d
  const VALUE_NULL := 0x1e
  const VALUE_BOOLEAN := 0x1f

  /** The file, as far as values refer to it; the two predicates count when crossVerify is set. */
  datatype Env = Env(fileEnd: nat, stringIdsSize: U4, typeIdsSize: U4, fieldIdsSize: U4, methodIdsSize: U4,
                     crossVerify: bool, isClassDescriptor: U4 -> bool, isMemberName: U4 -> bool)

  // ----- Trees -----

  datatype Value =
    | Scalar(valueType: int, payload: seq<Byte>)
    | Index(valueType: int, idx: U4, size: nat)
    | Flag(valueType: int, arg: int)
    | Array(values: Values)
    | Annotation(typeIdx: U4, elements: Elements)

  datatype Values = Nil | Cons(head: Value, tail: Values)

  /** Names come in ascending order. */
  datatype Elements = NoMore | More(nameIdx: U4, value: Value, rest: Elements)

  function Length(vs: Values): nat {
    match vs case Nil => 0 case Cons(_, tail) => 1 + Length(tail)
  }

  function Count(es: Elements): nat {
    match es case NoMore => 0 case More(_, _, rest) => 1 + Count(rest)
  }

  /** The greatest value_arg of a type whose payload has value_arg + 1 bytes. */
  function MaxArg(valueType: int): Option<int> {
    if valueType == VALUE_BYTE then Some(0)
    else if valueType == VALUE_SHORT || valueType == VALUE_CHAR then Some(1)
    else if valueType == VALUE_INT || valueType == VALUE_FLOAT then Some(3)
    else if valueType == VALUE_LONG || valueType == VALUE_DOUBLE then Some(7)
    else None
  }

  function Limit(e: Env, valueType: int): Option<U4> {
    if valueType == VALUE_STRING then Some(e.stringIdsSize)
    else if valueType == VALUE_TYPE then Some(e.typeIdsSize)
    else if valueType == VALUE_FIELD || valueType == VALUE_ENUM then Some(e.fieldIdsSize)
    else if valueType == VALUE_METHOD then Some(e.methodIdsSize)
    else None
  }

  predicate IsFlag(valueType: int, arg: int) {
    (valueType == VALUE_NULL && arg == 0) || (valueType == VALUE_BOOLEAN && arg <= 1)
  }

  function LittleEndian(m: seq<Byte>, p: nat, n: nat): nat
    requires p + n <= |m|
    decreases n
  {
    if n == 0 then 0 else m[p] + 0x100 * LittleEndian(m, p + 1, n - 1)
  }

  // ----- The format: where the encoding of a given tree at p ends -----

  /** A number, all of it in the file. */
  predicate IsNumber(m: seq<Byte>, e: Env, p: nat, n: int)
    requires p + 5 <= |m|
  {
    Leb128.Valid(m, p, e.fileEnd) && Leb128.Unsigned(m, p) == n
  }

  function Header(valueType: int, arg: int): int { valueType + 32 * arg }

  ghost function EndOfValue(m: seq<Byte>, e: Env, p: nat, v: Value): Option<nat>
    requires Readable(m, e.fileEnd)
    decreases v
  {
    if p + 1 > e.fileEnd then None
    else
      match v
      case Scalar(t, payload) =>
        if MaxArg(t).Some? && 0 < |payload| <= MaxArg(t).value + 1 && m[p] == Header(t, |payload| - 1)
          && p + 1 + |payload| <= e.fileEnd && m[p + 1..p + 1 + |payload|] == payload
        then Some(p + 1 + |payload|) else None
      case Index(t, idx, size) =>
        if Limit(e, t).Some? && 0 < size <= 4 && m[p] == Header(t, size - 1) && p + 1 + size <= e.fileEnd
          && LittleEndian(m, p + 1, size) == idx && idx < Limit(e, t).value
        then Some(p + 1 + size) else None
      case Flag(t, arg) => if IsFlag(t, arg) && m[p] == Header(t, arg) then Some(p + 1) else None
      case Array(values) => if m[p] == VALUE_ARRAY then EndOfArray(m, e, p + 1, values) else None
      case Annotation(typeIdx, elements) =>
        if m[p] == VALUE_ANNOTATION then EndOfAnnotation(m, e, p + 1, typeIdx, elements) else None
  }

  ghost function EndOfArray(m: seq<Byte>, e: Env, p: nat, vs: Values): Option<nat>
    requires Readable(m, e.fileEnd)
    decreases vs, 1
  {
    if p > e.fileEnd || !IsNumber(m, e, p, Length(vs)) then None else EndOfValues(m, e, Leb128.After(m, p), vs)
  }

  ghost function EndOfValues(m: seq<Byte>, e: Env, p: nat, vs: Values): Option<nat>
    requires Readable(m, e.fileEnd)
    decreases vs, 0
  {
    match vs
    case Nil => Some(p)
    case Cons(head, tail) =>
      match EndOfValue(m, e, p, head) case None => None case Some(q) => EndOfValues(m, e, q, tail)
  }

  ghost function EndOfAnnotation(m: seq<Byte>, e: Env, p: nat, typeIdx: U4, es: Elements): Option<nat>
    requires Readable(m, e.fileEnd)
    decreases es, 1
  {
    if p > e.fileEnd || !IsNumber(m, e, p, typeIdx) || typeIdx >= e.typeIdsSize
      || (e.crossVerify && !e.isClassDescriptor(typeIdx)) then None
    else if Leb128.After(m, p) > e.fileEnd || !IsNumber(m, e, Leb128.After(m, p), Count(es)) then None
    else EndOfElements(m, e, Leb128.After(m, Leb128.After(m, p)), -1, es)
  }

  ghost function EndOfElements(m: seq<Byte>, e: Env, p: nat, last: int, es: Elements): Option<nat>
    requires Readable(m, e.fileEnd)
    decreases es, 0
  {
    match es
    case NoMore => Some(p)
    case More(nameIdx, value, rest) =>
      if p > e.fileEnd || !IsNumber(m, e, p, nameIdx) || nameIdx >= e.stringIdsSize || last >= nameIdx
        || (e.crossVerify && !e.isMemberName(nameIdx)) then None
      else
        match EndOfValue(m, e, Leb128.After(m, p), value)
        case None => None
        case Some(q) => EndOfElements(m, e, q, nameIdx, rest)
  }

  // ----- What the verifier computes -----

  /** readUnsignedLittleEndian: past the end it is zero, and nothing is consumed. */
  function ReadLittleEndian(m: seq<Byte>, e: Env, p: nat, n: nat): (r: (nat, nat))
    requires Readable(m, e.fileEnd)
    ensures p <= r.1 <= p + n
  {
    if p + n > e.fileEnd then (0, p) else (LittleEndian(m, p, n), p + n)
  }

  /** Payloads of scalars are skipped without a check, so ends may lie behind the file. */
  const SLACK := 8

  function VerifyValue(m: seq<Byte>, e: Env, p: nat): (r: Option<nat>)
    requires Readable(m, e.fileEnd) && p <= e.fileEnd + SLACK
    ensures r.Some? ==> p < r.value <= e.fileEnd + SLACK
    decreases e.fileEnd + SLACK - p, 0
  {
    if p + 1 > e.fileEnd then None
    else
      var header: int := m[p];
      var valueType, arg := header % 32, header / 32;
      if MaxArg(valueType).Some? then
        if arg > MaxArg(valueType).value then None else Some(p + 1 + arg + 1)
      else if Limit(e, valueType).Some? then
        if arg > 3 then None
        else
          var (idx, q) := ReadLittleEndian(m, e, p + 1, arg + 1);
          if idx >= Limit(e, valueType).value then None else Some(q)
      else if valueType == VALUE_ARRAY then
        if arg != 0 then None else VerifyArray(m, e, p + 1)
      else if valueType == VALUE_ANNOTATION then
        if arg != 0 then None else VerifyAnnotation(m, e, p + 1)
      else if IsFlag(valueType, arg) then Some(p + 1)
      else None
  }

  function VerifyArray(m: seq<Byte>, e: Env, p: nat): (r: Option<nat>)
    requires Readable(m, e.fileEnd) && p <= e.fileEnd + SLACK
    ensures r.Some? ==> p < r.value <= e.fileEnd + SLACK
    decreases e.fileEnd + SLACK - p, 2
  {
    if !Leb128.Valid(m, p, e.fileEnd) then None
    else VerifyValues(m, e, Leb128.After(m, p), Leb128.Unsigned(m, p))
  }

  function VerifyValues(m: seq<Byte>, e: Env, p: nat, n: nat): (r: Option<nat>)
    requires Readable(m, e.fileEnd) && p <= e.fileEnd + SLACK
    ensures r.Some? ==> p <= r.value <= e.fileEnd + SLACK
    decreases e.fileEnd + SLACK - p, 1
  {
    if n == 0 then Some(p)
    else match VerifyValue(m, e, p) case None => None case Some(q) => VerifyValues(m, e, q, n - 1)
  }

  function VerifyAnnotation(m: seq<Byte>, e: Env, p: nat): (r: Option<nat>)
    requires Readable(m, e.fileEnd) && p <= e.fileEnd + SLACK
    ensures r.Some? ==> p < r.value <= e.fileEnd + SLACK
    decreases e.fileEnd + SLACK - p, 2
  {
    if !Leb128.Valid(m, p, e.fileEnd) then None
    else
      var idx, q := Leb128.Unsigned(m, p), Leb128.After(m, p);
      if idx >= e.typeIdsSize || (e.crossVerify && !e.isClassDescriptor(idx)) then None
      else if !Leb128.Valid(m, q, e.fileEnd) then None
      else VerifyElements(m, e, Leb128.After(m, q), Leb128.Unsigned(m, q), -1)
  }

  /** last is the name before, or -1. */
  function VerifyElements(m: seq<Byte>, e: Env, p: nat, n: nat, last: int): (r: Option<nat>)
    requires Readable(m, e.fileEnd) && p <= e.fileEnd + SLACK
    ensures r.Some? ==> p <= r.value <= e.fileEnd + SLACK
    decreases e.fileEnd + SLACK - p, 1
  {
    if n == 0 then Some(p)
    else if !Leb128.Valid(m, p, e.fileEnd) then None
    else
      var idx := Leb128.Unsigned(m, p);
      if idx >= e.stringIdsSize || (e.crossVerify && !e.isMemberName(idx)) || last >= idx then None
      else match VerifyValue(m, e, Leb128.After(m, p)) case None => None case Some(q) => VerifyElements(m, e, q, n - 1, idx)
  }

  // ----- Every encoded tree is accepted, up to the byte after it -----

  lemma {:induction false} CompleteValue(m: seq<Byte>, e: Env, p: nat, v: Value)
    requires Readable(m, e.fileEnd) && EndOfValue(m, e, p, v).Some?
    ensures p < EndOfValue(m, e, p, v).value <= e.fileEnd && VerifyValue(m, e, p) == EndOfValue(m, e, p, v)
    decreases v
  {
    hide EndOfArray, EndOfAnnotation, VerifyArray, VerifyAnnotation;
    match v
    case Scalar(_, _) => CompleteScalar(m, e, p, v);
    case Index(_, _, _) => CompleteIndex(m, e, p, v);
    case Flag(t, arg) => HeaderParts(m[p], t, arg);
    case Array(values) => CompleteArray(m, e, p + 1, values);
    case Annotation(typeIdx, elements) => CompleteAnnotation(m, e, p + 1, typeIdx, elements);
  }

  lemma HeaderParts(header: int, valueType: int, arg: int)
    requires 0 <= header == Header(valueType, arg) && 0 <= valueType < 32
    ensures header % 32 == valueType && header / 32 == arg
  {
  }

  lemma CompleteScalar(m: seq<Byte>, e: Env, p: nat, v: Value)
    requires Readable(m, e.fileEnd) && v.Scalar? && EndOfValue(m, e, p, v).Some?
    ensures p < EndOfValue(m, e, p, v).value <= e.fileEnd && VerifyValue(m, e, p) == EndOfValue(m, e, p, v)
  {
    hide EndOfArray, EndOfAnnotation, VerifyArray, VerifyAnnotation;
    HeaderParts(m[p], v.valueType, |v.payload| - 1);
  }

  lemma CompleteIndex(m: seq<Byte>, e: Env, p: nat, v: Value)
    requires Readable(m, e.fileEnd) && v.Index? && EndOfValue(m, e, p, v).Some?
    ensures p < EndOfValue(m, e, p, v).value <= e.fileEnd && VerifyValue(m, e, p) == EndOfValue(m, e, p, v)
  {
    hide EndOfArray, EndOfAnnotation, VerifyArray, VerifyAnnotation, LittleEndian;
    HeaderParts(m[p], v.valueType, v.size - 1);
  }

  lemma {:induction false} CompleteArray(m: seq<Byte>, e: Env, p: nat, vs: Values)
    requires Readable(m, e.fileEnd) && EndOfArray(m, e, p, vs).Some?
    ensures p < EndOfArray(m, e, p, vs).value <= e.fileEnd && VerifyArray(m, e, p) == EndOfArray(m, e, p, vs)
    decreases vs, 1
  {
    CompleteValues(m, e, Leb128.After(m, p), vs);
  }

  lemma {:induction false} CompleteValues(m: seq<Byte>, e: Env, p: nat, vs: Values)
    requires Readable(m, e.fileEnd) && p <= e.fileEnd && EndOfValues(m, e, p, vs).Some?
    ensures p <= EndOfValues(m, e, p, vs).value <= e.fileEnd
    ensures VerifyValues(m, e, p, Length(vs)) == EndOfValues(m, e, p, vs)
    decreases vs, 0
  {
    if vs.Cons? {
      CompleteValue(m, e, p, vs.head);
      CompleteValues(m, e, EndOfValue(m, e, p, vs.head).value, vs.tail);
    }
  }

  lemma {:induction false} CompleteAnnotation(m: seq<Byte>, e: Env, p: nat, typeIdx: U4, es: Elements)
    requires Readable(m, e.fileEnd) && EndOfAnnotation(m, e, p, typeIdx, es).Some?
    ensures p < EndOfAnnotation(m, e, p, typeIdx, es).value <= e.fileEnd
    ensures VerifyAnnotation(m, e, p) == EndOfAnnotation(m, e, p, typeIdx, es)
    decreases es, 1
  {
    CompleteElements(m, e, Leb128.After(m, Leb128.After(m, p)), -1, es);
  }

  lemma {:induction false} CompleteElements(m: seq<Byte>, e: Env, p: nat, last: int, es: Elements)
    requires Readable(m, e.fileEnd) && p <= e.fileEnd && EndOfElements(m, e, p, last, es).Some?
    ensures p <= EndOfElements(m, e, p, last, es).value <= e.fileEnd
    ensures VerifyElements(m, e, p, Count(es), last) == EndOfElements(m, e, p, last, es)
    decreases es, 0
  {
    if es.More? {
      CompleteValue(m, e, Leb128.After(m, p), es.value);
      CompleteElements(m, e, EndOfValue(m, e, Leb128.After(m, p), es.value).value, es.nameIdx, es.rest);
    }
  }

  // ----- What is accepted is a tree, unless an index is cut off -----

  /** Every index that the verifier meets on its walk has its payload in the file. */
  predicate WholeValue(m: seq<Byte>, e: Env, p: nat)
    requires Readable(m, e.fileEnd) && p <= e.fileEnd + SLACK
    decreases e.fileEnd + SLACK - p, 0
  {
    p + 1 <= e.fileEnd ==>
      var header: int := m[p];
      var valueType, arg := header % 32, header / 32;
      if Limit(e, valueType).Some? then p + 1 + arg + 1 <= e.fileEnd
      else if valueType == VALUE_ARRAY then WholeArray(m, e, p + 1)
      else valueType == VALUE_ANNOTATION ==> WholeAnnotation(m, e, p + 1)
  }

  predicate WholeArray(m: seq<Byte>, e: Env, p: nat)
    requires Readable(m, e.fileEnd) && p <= e.fileEnd + SLACK
    decreases e.fileEnd + SLACK - p, 2
  {
    Leb128.Valid(m, p, e.fileEnd) ==> WholeValues(m, e, Leb128.After(m, p), Leb128.Unsigned(m, p))
  }

  predicate WholeValues(m: seq<Byte>, e: Env, p: nat, n: nat)
    requires Readable(m, e.fileEnd) && p <= e.fileEnd + SLACK
    decreases e.fileEnd + SLACK - p, 1
  {
    n > 0 ==>
      && WholeValue(m, e, p)
      && (VerifyValue(m, e, p).Some? ==> WholeValues(m, e, VerifyValue(m, e, p).value, n - 1))
  }

  predicate WholeAnnotation(m: seq<Byte>, e: Env, p: nat)
    requires Readable(m, e.fileEnd) && p <= e.fileEnd + SLACK
    decreases e.fileEnd + SLACK - p, 2
  {
    Leb128.Valid(m, p, e.fileEnd) && Leb128.Valid(m, Leb128.After(m, p), e.fileEnd) ==>
      var q := Leb128.After(m, p);
      WholeElements(m, e, Leb128.After(m, q), Leb128.Unsigned(m, q))
  }

  predicate WholeElements(m: seq<Byte>, e: Env, p: nat, n: nat)
    requires Readable(m, e.fileEnd) && p <= e.fileEnd + SLACK
    decreases e.fileEnd + SLACK - p, 1
  {
    n > 0 && Leb128.Valid(m, p, e.fileEnd) ==>
      var q := Leb128.After(m, p);
      && WholeValue(m, e, q)
      && (VerifyValue(m, e, q).Some? ==> WholeElements(m, e, VerifyValue(m, e, q).value, n - 1))
  }

  lemma {:induction false} SoundValue(m: seq<Byte>, e: Env, p: nat) returns (v: Value)
    requires Readable(m, e.fileEnd) && p <= e.fileEnd + SLACK && WholeValue(m, e, p)
    requires VerifyValue(m, e, p).Some? && VerifyValue(m, e, p).value <= e.fileEnd
    ensures EndOfValue(m, e, p, v) == VerifyValue(m, e, p)
    decreases e.fileEnd + SLACK - p, 0
  {
    var header: int := m[p];
    var t, arg := header % 32, header / 32;
    if MaxArg(t).Some? {
      v := Scalar(t, m[p + 1..p + 1 + arg + 1]);
    } else if Limit(e, t).Some? {
      v := Index(t, LittleEndian(m, p + 1, arg + 1), arg + 1);
    } else if t == VALUE_ARRAY {
      var vs := SoundArray(m, e, p + 1);
      v := Array(vs);
    } else if t == VALUE_ANNOTATION {
      var typeIdx, es := SoundAnnotation(m, e, p + 1);
      v := Annotation(typeIdx, es);
    } else {
      v := Flag(t, arg);
    }
  }

  lemma {:induction false} SoundArray(m: seq<Byte>, e: Env, p: nat) returns (vs: Values)
    requires Readable(m, e.fileEnd) && p <= e.fileEnd + SLACK && WholeArray(m, e, p)
    requires VerifyArray(m, e, p).Some? && VerifyArray(m, e, p).value <= e.fileEnd
    ensures EndOfArray(m, e, p, vs) == VerifyArray(m, e, p)
    decreases e.fileEnd + SLACK - p, 2
  {
    vs := SoundValues(m, e, Leb128.After(m, p), Leb128.Unsigned(m, p));
  }

  lemma {:induction false} SoundValues(m: seq<Byte>, e: Env, p: nat, n: nat) returns (vs: Values)
    requires Readable(m, e.fileEnd) && p <= e.fileEnd + SLACK && WholeValues(m, e, p, n)
    requires VerifyValues(m, e, p, n).Some? && VerifyValues(m, e, p, n).value <= e.fileEnd
    ensures Length(vs) == n && EndOfValues(m, e, p, vs) == VerifyValues(m, e, p, n)
    decreases e.fileEnd + SLACK - p, 1
  {
    if n == 0 {
      vs := Nil;
    } else {
      var head := SoundValue(m, e, p);
      var tail := SoundValues(m, e, VerifyValue(m, e, p).value, n - 1);
      vs := Cons(head, tail);
    }
  }

  lemma {:induction false} SoundAnnotation(m: seq<Byte>, e: Env, p: nat) returns (typeIdx: U4, es: Elements)
    requires Readable(m, e.fileEnd) && p <= e.fileEnd + SLACK && WholeAnnotation(m, e, p)
    requires VerifyAnnotation(m, e, p).Some? && VerifyAnnotation(m, e, p).value <= e.fileEnd
    ensures EndOfAnnotation(m, e, p, typeIdx, es) == VerifyAnnotation(m, e, p)
    decreases e.fileEnd + SLACK - p, 2
  {
    typeIdx := Leb128.Unsigned(m, p);
    var q := Leb128.After(m, p);
    es := SoundElements(m, e, Leb128.After(m, q), Leb128.Unsigned(m, q), -1);
  }

  lemma {:induction false} SoundElements(m: seq<Byte>, e: Env, p: nat, n: nat, last: int) returns (es: Elements)
    requires Readable(m, e.fileEnd) && p <= e.fileEnd + SLACK && WholeElements(m, e, p, n)
    requires VerifyElements(m, e, p, n, last).Some? && VerifyElements(m, e, p, n, last).value <= e.fileEnd
    ensures Count(es) == n && EndOfElements(m, e, p, last, es) == VerifyElements(m, e, p, n, last)
    decreases e.fileEnd + SLACK - p, 1
  {
    if n == 0 {
      es := NoMore;
    } else {
      var idx := Leb128.Unsigned(m, p);
      var value := SoundValue(m, e, Leb128.After(m, p));
      var rest := SoundElements(m, e, VerifyValue(m, e, Leb128.After(m, p)).value, n - 1, idx);
      es := More(idx, value, rest);
    }
  }

  /** An encoded tree has none of its indices cut off. */
  lemma {:induction false} TreeIsWhole(m: seq<Byte>, e: Env, p: nat, v: Value)
    requires Readable(m, e.fileEnd) && EndOfValue(m, e, p, v).Some?
    ensures WholeValue(m, e, p)
    decreases v
  {
    hide EndOfArray, EndOfAnnotation, WholeArray, WholeAnnotation, LittleEndian;
    match v
    case Scalar(t, payload) => HeaderParts(m[p], t, |payload| - 1);
    case Index(t, _, size) => HeaderParts(m[p], t, size - 1);
    case Flag(t, arg) => HeaderParts(m[p], t, arg);
    case Array(values) => ArrayIsWhole(m, e, p + 1, values);
    case Annotation(typeIdx, elements) => AnnotationIsWhole(m, e, p + 1, typeIdx, elements);
  }

  lemma {:induction false} ArrayIsWhole(m: seq<Byte>, e: Env, p: nat, vs: Values)
    requires Readable(m, e.fileEnd) && EndOfArray(m, e, p, vs).Some?
    ensures WholeArray(m, e, p)
    decreases vs, 1
  {
    ValuesAreWhole(m, e, Leb128.After(m, p), vs);
  }

  lemma {:induction false} ValuesAreWhole(m: seq<Byte>, e: Env, p: nat, vs: Values)
    requires Readable(m, e.fileEnd) && p <= e.fileEnd && EndOfValues(m, e, p, vs).Some?
    ensures WholeValues(m, e, p, Length(vs))
    decreases vs, 0
  {
    if vs.Cons? {
      CompleteValue(m, e, p, vs.head);
      TreeIsWhole(m, e, p, vs.head);
      ValuesAreWhole(m, e, EndOfValue(m, e, p, vs.head).value, vs.tail);
    }
  }

  lemma {:induction false} AnnotationIsWhole(m: seq<Byte>, e: Env, p: nat, typeIdx: U4, es: Elements)
    requires Readable(m, e.fileEnd) && EndOfAnnotation(m, e, p, typeIdx, es).Some?
    ensures WholeAnnotation(m, e, p)
    decreases es, 1
  {
    ElementsAreWhole(m, e, Leb128.After(m, Leb128.After(m, p)), -1, es);
  }

  lemma {:induction false} ElementsAreWhole(m: seq<Byte>, e: Env, p: nat, last: int, es: Elements)
    requires Readable(m, e.fileEnd) && p <= e.fileEnd && EndOfElements(m, e, p, last, es).Some?
    ensures WholeElements(m, e, p, Count(es))
    decreases es, 0
  {
    if es.More? {
      var q := Leb128.After(m, p);
      CompleteValue(m, e, q, es.value);
      TreeIsWhole(m, e, q, es.value);
      ElementsAreWhole(m, e, EndOfValue(m, e, q, es.value).value, es.nameIdx, es.rest);
    }
  }

  /** What is accepted is the encoding of a tree exactly if it ends in the file and no index on the
      way is cut off by the end of the file. */
  lemma AcceptedIsTreeExactly(m: seq<Byte>, e: Env, p: nat)
    requires Readable(m, e.fileEnd) && p <= e.fileEnd + SLACK
    requires VerifyValue(m, e, p).Some?
    ensures (exists v :: EndOfValue(m, e, p, v) == VerifyValue(m, e, p)) <==>
      WholeValue(m, e, p) && VerifyValue(m, e, p).value <= e.fileEnd
  {
    if WholeValue(m, e, p) && VerifyValue(m, e, p).value <= e.fileEnd {
      var v := SoundValue(m, e, p);
    }
    if v :| EndOfValue(m, e, p, v) == VerifyValue(m, e, p) {
      TreeIsWhole(m, e, p, v);
      CompleteValue(m, e, p, v);
    }
  }

  lemma AcceptedIsArrayExactly(m: seq<Byte>, e: Env, p: nat)
    requires Readable(m, e.fileEnd) && p <= e.fileEnd + SLACK
    requires VerifyArray(m, e, p).Some?
    ensures (exists vs :: EndOfArray(m, e, p, vs) == VerifyArray(m, e, p)) <==>
      WholeArray(m, e, p) && VerifyArray(m, e, p).value <= e.fileEnd
  {
    if WholeArray(m, e, p) && VerifyArray(m, e, p).value <= e.fileEnd {
      var vs := SoundArray(m, e, p);
    }
    if vs :| EndOfArray(m, e, p, vs) == VerifyArray(m, e, p) {
      ArrayIsWhole(m, e, p, vs);
      CompleteArray(m, e, p, vs);
    }
  }

  lemma AcceptedIsAnnotationExactly(m: seq<Byte>, e: Env, p: nat)
    requires Readable(m, e.fileEnd) && p <= e.fileEnd + SLACK
    requires VerifyAnnotation(m, e, p).Some?
    ensures (exists t, es :: EndOfAnnotation(m, e, p, t, es) == VerifyAnnotation(m, e, p)) <==>
      WholeAnnotation(m, e, p) && VerifyAnnotation(m, e, p).value <= e.fileEnd
  {
    if WholeAnnotation(m, e, p) && VerifyAnnotation(m, e, p).value <= e.fileEnd {
      var t, es := SoundAnnotation(m, e, p);
    }
    if t, es :| EndOfAnnotation(m, e, p, t, es) == VerifyAnnotation(m, e, p) {
      AnnotationIsWhole(m, e, p, t, es);
      CompleteAnnotation(m, e, p, t, es);
    }
  }

  // ----- How near the end of the file that can happen -----

  /** What ends four bytes before the end of the file has met no index that is cut off. */
  lemma {:induction false} InsideIsWhole(m: seq<Byte>, e: Env, p: nat)
    requires Readable(m, e.fileEnd) && p <= e.fileEnd + SLACK
    requires VerifyValue(m, e, p).Some? && VerifyValue(m, e, p).value + 4 <= e.fileEnd
    ensures WholeValue(m, e, p)
    decreases e.fileEnd + SLACK - p, 0
  {
    hide LittleEndian, WholeValues, WholeElements, VerifyValues, VerifyElements, Leb128.Unsigned, Leb128.Size;
    hide Leb128.Valid;
    var t := m[p] as int % 32;
    if t == VALUE_ARRAY && VerifyArray(m, e, p + 1).Some? {
      InsideIsWholeValues(m, e, Leb128.After(m, p + 1), Leb128.Unsigned(m, p + 1));
    } else if t == VALUE_ANNOTATION && VerifyAnnotation(m, e, p + 1).Some? {
      var q := Leb128.After(m, p + 1);
      InsideIsWholeElements(m, e, Leb128.After(m, q), Leb128.Unsigned(m, q), -1);
    }
  }

  lemma {:induction false} InsideIsWholeValues(m: seq<Byte>, e: Env, p: nat, n: nat)
    requires Readable(m, e.fileEnd) && p <= e.fileEnd + SLACK
    requires VerifyValues(m, e, p, n).Some? && VerifyValues(m, e, p, n).value + 4 <= e.fileEnd
    ensures WholeValues(m, e, p, n)
    decreases e.fileEnd + SLACK - p, 1
  {
    if n > 0 {
      InsideIsWholeValues(m, e, VerifyValue(m, e, p).value, n - 1);
      InsideIsWhole(m, e, p);
    }
  }

  lemma {:induction false} InsideIsWholeElements(m: seq<Byte>, e: Env, p: nat, n: nat, last: int)
    requires Readable(m, e.fileEnd) && p <= e.fileEnd + SLACK
    requires VerifyElements(m, e, p, n, last).Some? && VerifyElements(m, e, p, n, last).value + 4 <= e.fileEnd
    ensures WholeElements(m, e, p, n)
    decreases e.fileEnd + SLACK - p, 1
  {
    if n > 0 {
      var q := Leb128.After(m, p);
      InsideIsWholeElements(m, e, VerifyValue(m, e, q).value, n - 1, Leb128.Unsigned(m, p));
      InsideIsWhole(m, e, q);
    }
  }

  /** Among ends four bytes inside the file, acceptance and being an encoding are the same. */
  lemma AcceptsExactly(m: seq<Byte>, e: Env, p: nat, q: nat)
    requires Readable(m, e.fileEnd) && p <= e.fileEnd + SLACK && q + 4 <= e.fileEnd
    ensures VerifyValue(m, e, p) == Some(q) <==> exists v :: EndOfValue(m, e, p, v) == Some(q)
  {
    if VerifyValue(m, e, p) == Some(q) {
      InsideIsWhole(m, e, p);
      AcceptedIsTreeExactly(m, e, p);
    }
    if v :| EndOfValue(m, e, p, v) == Some(q) {
      CompleteValue(m, e, p, v);
    }
  }

  lemma AcceptsArrayExactly(m: seq<Byte>, e: Env, p: nat, q: nat)
    requires Readable(m, e.fileEnd) && p <= e.fileEnd + SLACK && q + 4 <= e.fileEnd
    ensures VerifyArray(m, e, p) == Some(q) <==> exists vs :: EndOfArray(m, e, p, vs) == Some(q)
  {
    if VerifyArray(m, e, p) == Some(q) {
      InsideIsWholeValues(m, e, Leb128.After(m, p), Leb128.Unsigned(m, p));
      AcceptedIsArrayExactly(m, e, p);
    }
    if vs :| EndOfArray(m, e, p, vs) == Some(q) {
      CompleteArray(m, e, p, vs);
    }
  }

  lemma AcceptsAnnotationExactly(m: seq<Byte>, e: Env, p: nat, q: nat)
    requires Readable(m, e.fileEnd) && p <= e.fileEnd + SLACK && q + 4 <= e.fileEnd
    ensures VerifyAnnotation(m, e, p) == Some(q) <==> exists t, es :: EndOfAnnotation(m, e, p, t, es) == Some(q)
  {
    if VerifyAnnotation(m, e, p) == Some(q) {
      var sizeAt := Leb128.After(m, p);
      InsideIsWholeElements(m, e, Leb128.After(m, sizeAt), Leb128.Unsigned(m, sizeAt), -1);
      AcceptedIsAnnotationExactly(m, e, p);
    }
    if t, es :| EndOfAnnotation(m, e, p, t, es) == Some(q) {
      CompleteAnnotation(m, e, p, t, es);
    }
  }

  /** Zeros, and before q the header of a string index of four bytes. */
  function CutOff(fileEnd: nat, q: nat): seq<Byte>
    requires 1 <= q <= fileEnd
  {
    seq(fileEnd + 16, i => if i == q - 1 then VALUE_STRING + 32 * 3 else 0)
  }

  ghost predicate AcceptedWithoutTree(m: seq<Byte>, e: Env, p: nat, q: nat) {
    && Readable(m, e.fileEnd) && p <= e.fileEnd
    && VerifyValue(m, e, p) == Some(q) && forall v :: EndOfValue(m, e, p, v) != Some(q)
  }

  /** And four bytes is the exact distance, in every file that has a string. */
  lemma TruncatedIndexIsAccepted(e: Env, q: nat)
    requires 1 <= q <= e.fileEnd && e.stringIdsSize > 0
    ensures (exists m, p :: AcceptedWithoutTree(m, e, p, q)) <==> e.fileEnd < q + 4
  {
    if e.fileEnd < q + 4 {
      var m := CutOff(e.fileEnd, q);
      assert m[q - 1] == 119;
      assert VerifyValue(m, e, q - 1) == Some(q) && !WholeValue(m, e, q - 1);
      AcceptedIsTreeExactly(m, e, q - 1);
      hide EndOfValue, VerifyValue, WholeValue;
      assert AcceptedWithoutTree(m, e, q - 1, q);
    } else {
      forall m, p ensures !AcceptedWithoutTree(m, e, p, q) {
        if AcceptedWithoutTree(m, e, p, q) {
          AcceptsExactly(m, e, p, q);
        }
      }
    }
  }

  // ----- Writing a tree -----

  ghost predicate WellFormed(e: Env, v: Value)
    decreases v
  {
    match v
    case Scalar(t, payload) => MaxArg(t).Some? && 0 < |payload| <= MaxArg(t).value + 1
    case Index(t, idx, size) => Limit(e, t).Some? && 0 < size <= 4 && idx < Power256(size) && idx < Limit(e, t).value
    case Flag(t, arg) => IsFlag(t, arg) && 0 <= arg
    case Array(values) => Length(values) < 0x1_0000_0000 && AllWellFormed(e, values)
    case Annotation(typeIdx, elements) =>
      && typeIdx < e.typeIdsSize && (e.crossVerify ==> e.isClassDescriptor(typeIdx))
      && Count(elements) < 0x1_0000_0000 && ElementsWellFormed(e, -1, elements)
  }

  ghost predicate AllWellFormed(e: Env, vs: Values)
    decreases vs
  {
    match vs case Nil => true case Cons(head, tail) => WellFormed(e, head) && AllWellFormed(e, tail)
  }

  ghost predicate ElementsWellFormed(e: Env, last: int, es: Elements)
    decreases es
  {
    match es
    case NoMore => true
    case More(nameIdx, value, rest) =>
      && last < nameIdx < e.stringIdsSize && (e.crossVerify ==> e.isMemberName(nameIdx))
      && WellFormed(e, value) && ElementsWellFormed(e, nameIdx, rest)
  }

  // ----- The format, tag by tag -----

  /** value_type and the size of the payload, by the table of the format. */
  predicate ScalarInFormat(t: int, size: nat) {
    || (t == 0x00 && size == 1)
    || ((t == 0x02 || t == 0x03) && 1 <= size <= 2)
    || ((t == 0x04 || t == 0x10) && 1 <= size <= 4)
    || ((t == 0x06 || t == 0x11) && 1 <= size <= 8)
  }

  /** Strings, types, fields and enums, methods: each by its own table. */
  predicate IndexInFormat(e: Env, t: int, idx: U4) {
    || (t == 0x17 && idx < e.stringIdsSize)
    || (t == 0x18 && idx < e.typeIdsSize)
    || ((t == 0x19 || t == 0x1b) && idx < e.fieldIdsSize)
    || (t == 0x1a && idx < e.methodIdsSize)
  }

  ghost predicate InFormat(e: Env, v: Value)
    decreases v
  {
    match v
    case Scalar(t, payload) => ScalarInFormat(t, |payload|)
    case Index(t, idx, size) => 1 <= size <= 4 && idx < Power256(size) && IndexInFormat(e, t, idx)
    case Flag(t, arg) => (t == 0x1e && arg == 0) || (t == 0x1f && 0 <= arg <= 1)
    case Array(values) => Length(values) < 0x1_0000_0000 && ValuesInFormat(e, values)
    case Annotation(typeIdx, elements) =>
      && typeIdx < e.typeIdsSize && (e.crossVerify ==> e.isClassDescriptor(typeIdx))
      && Count(elements) < 0x1_0000_0000 && ElementsInFormat(e, -1, elements)
  }

  ghost predicate ValuesInFormat(e: Env, vs: Values)
    decreases vs
  {
    vs.Cons? ==> InFormat(e, vs.head) && ValuesInFormat(e, vs.tail)
  }

  /** Names ascend and are names of members. */
  ghost predicate ElementsInFormat(e: Env, last: int, es: Elements)
    decreases es
  {
    es.More? ==>
      && last < es.nameIdx < e.stringIdsSize && (e.crossVerify ==> e.isMemberName(es.nameIdx))
      && InFormat(e, es.value) && ElementsInFormat(e, es.nameIdx, es.rest)
  }

  lemma {:induction false} WellFormedExactly(e: Env, v: Value)
    ensures WellFormed(e, v) <==> InFormat(e, v)
    decreases v
  {
    match v
    case Array(values) => AllWellFormedExactly(e, values);
    case Annotation(_, elements) => ElementsWellFormedExactly(e, -1, elements);
    case _ =>
  }

  lemma {:induction false} AllWellFormedExactly(e: Env, vs: Values)
    ensures AllWellFormed(e, vs) <==> ValuesInFormat(e, vs)
    decreases vs
  {
    if vs.Cons? {
      WellFormedExactly(e, vs.head);
      AllWellFormedExactly(e, vs.tail);
    }
  }

  lemma {:induction false} ElementsWellFormedExactly(e: Env, last: int, es: Elements)
    ensures ElementsWellFormed(e, last, es) <==> ElementsInFormat(e, last, es)
    decreases es
  {
    if es.More? {
      WellFormedExactly(e, es.value);
      ElementsWellFormedExactly(e, es.nameIdx, es.rest);
    }
  }

  lemma {:induction false} LittleEndianBound(m: seq<Byte>, p: nat, n: nat)
    requires p + n <= |m|
    ensures LittleEndian(m, p, n) < Power256(n)
    decreases n
  {
    if n > 0 {
      LittleEndianBound(m, p + 1, n - 1);
    }
  }

  /** Every encoded tree keeps to the format: each kind of index to its own table, each payload to the
      size of its type, and so all the way down. */
  lemma {:induction false} EncodedIsInFormat(m: seq<Byte>, e: Env, p: nat, v: Value)
    requires Readable(m, e.fileEnd) && EndOfValue(m, e, p, v).Some?
    ensures InFormat(e, v)
    decreases v
  {
    hide EndOfArray, EndOfAnnotation, ValuesInFormat, ElementsInFormat, LittleEndian, Power256;
    match v
    case Index(_, _, size) => LittleEndianBound(m, p + 1, size);
    case Array(values) => ArrayIsInFormat(m, e, p + 1, values);
    case Annotation(typeIdx, elements) => AnnotationIsInFormat(m, e, p + 1, typeIdx, elements);
    case Flag(t, arg) => assert m[p] == t + 32 * arg;
    case _ =>
  }

  lemma {:induction false} ArrayIsInFormat(m: seq<Byte>, e: Env, p: nat, vs: Values)
    requires Readable(m, e.fileEnd) && EndOfArray(m, e, p, vs).Some?
    ensures InFormat(e, Array(vs))
    decreases vs, 1
  {
    hide EndOfValues, ValuesInFormat;
    ValuesAreInFormat(m, e, Leb128.After(m, p), vs);
  }

  lemma {:induction false} ValuesAreInFormat(m: seq<Byte>, e: Env, p: nat, vs: Values)
    requires Readable(m, e.fileEnd) && EndOfValues(m, e, p, vs).Some?
    ensures ValuesInFormat(e, vs)
    decreases vs, 0
  {
    hide InFormat, EndOfValue;
    if vs.Cons? {
      EncodedIsInFormat(m, e, p, vs.head);
      ValuesAreInFormat(m, e, EndOfValue(m, e, p, vs.head).value, vs.tail);
    }
  }

  lemma {:induction false} AnnotationIsInFormat(m: seq<Byte>, e: Env, p: nat, typeIdx: U4, es: Elements)
    requires Readable(m, e.fileEnd) && EndOfAnnotation(m, e, p, typeIdx, es).Some?
    ensures InFormat(e, Annotation(typeIdx, es))
    decreases es, 1
  {
    hide EndOfElements, ElementsInFormat, Leb128.Size;
    ElementsAreInFormat(m, e, Leb128.After(m, Leb128.After(m, p)), -1, es);
  }

  lemma {:induction false} ElementsAreInFormat(m: seq<Byte>, e: Env, p: nat, last: int, es: Elements)
    requires Readable(m, e.fileEnd) && EndOfElements(m, e, p, last, es).Some?
    ensures ElementsInFormat(e, last, es)
    decreases es, 0
  {
    hide InFormat, EndOfValue, Leb128.Size;
    if es.More? {
      var q := Leb128.After(m, p);
      EncodedIsInFormat(m, e, q, es.value);
      ElementsAreInFormat(m, e, EndOfValue(m, e, q, es.value).value, es.nameIdx, es.rest);
    }
  }

  function LittleEndianBytes(x: nat, n: nat): (s: seq<Byte>)
    ensures |s| == n
  {
    if n == 0 then [] else [x % 0x100] + LittleEndianBytes(x / 0x100, n - 1)
  }

  /** A header byte. */
  ghost function Head(valueType: int, arg: int): Byte
    requires 0 <= valueType < 32 && 0 <= arg < 8
  {
    Header(valueType, arg)
  }

  ghost function Serial(e: Env, v: Value): (s: seq<Byte>)
    requires WellFormed(e, v)
    ensures |s| > 0
    decreases v
  {
    match v
    case Scalar(t, payload) => [Head(t, |payload| - 1)] + payload
    case Index(t, idx, size) => [Head(t, size - 1)] + LittleEndianBytes(idx, size)
    case Flag(t, arg) => [Head(t, arg)]
    case Array(values) => [Head(VALUE_ARRAY, 0)] + SerialArray(e, values)
    case Annotation(typeIdx, elements) => [Head(VALUE_ANNOTATION, 0)] + SerialAnnotation(e, typeIdx, elements)
  }

  ghost function SerialArray(e: Env, vs: Values): seq<Byte>
    requires AllWellFormed(e, vs)
    decreases vs, 1
  {
    Leb128.Encode(Length(vs)) + SerialValues(e, vs)
  }

  ghost function SerialValues(e: Env, vs: Values): seq<Byte>
    requires AllWellFormed(e, vs)
    decreases vs, 0
  {
    match vs case Nil => [] case Cons(head, tail) => Serial(e, head) + SerialValues(e, tail)
  }

  ghost function SerialAnnotation(e: Env, typeIdx: U4, es: Elements): seq<Byte>
    requires ElementsWellFormed(e, -1, es)
    decreases es, 1
  {
    Leb128.Encode(typeIdx) + (Leb128.Encode(Count(es)) + SerialElements(e, -1, es))
  }

  ghost function SerialElements(e: Env, last: int, es: Elements): seq<Byte>
    requires ElementsWellFormed(e, last, es)
    decreases es, 0
  {
    match es
    case NoMore => []
    case More(nameIdx, value, rest) =>
      Leb128.Encode(nameIdx) + (Serial(e, value) + SerialElements(e, nameIdx, rest))
  }

  /** The bytes s stand at p, in the file. */
  ghost predicate At(m: seq<Byte>, e: Env, p: nat, s: seq<Byte>) {
    p + |s| <= e.fileEnd && p + |s| <= |m| && m[p..p + |s|] == s
  }

  lemma AtParts(m: seq<Byte>, e: Env, p: nat, a: seq<Byte>, b: seq<Byte>)
    requires At(m, e, p, a + b)
    ensures At(m, e, p, a) && At(m, e, p + |a|, b)
  {
    assert m[p..p + |a|] == m[p..p + |a + b|][..|a|];
    assert m[p + |a|..p + |a| + |b|] == m[p..p + |a + b|][|a|..];
  }

  lemma NumberAt(m: seq<Byte>, e: Env, p: nat, n: U4)
    requires Readable(m, e.fileEnd) && At(m, e, p, Leb128.Encode(n))
    ensures p <= e.fileEnd && IsNumber(m, e, p, n) && Leb128.After(m, p) == p + |Leb128.Encode(n)|
  {
    Leb128.RoundTrip(n, m, p, e.fileEnd);
  }

  lemma HeaderAt(m: seq<Byte>, e: Env, p: nat, h: Byte, rest: seq<Byte>)
    requires At(m, e, p, [h] + rest)
    ensures p < |m| && p + 1 <= e.fileEnd && m[p] == h && At(m, e, p + 1, rest)
  {
    AtParts(m, e, p, [h], rest);
    assert m[p..p + 1][0] == m[p];
  }

  lemma {:induction false} LittleEndianAt(m: seq<Byte>, e: Env, p: nat, x: nat, n: nat)
    requires At(m, e, p, LittleEndianBytes(x, n)) && x < Power256(n)
    ensures LittleEndian(m, p, n) == x
    decreases n
  {
    if n > 0 {
      HeaderAt(m, e, p, x % 0x100, LittleEndianBytes(x / 0x100, n - 1));
      LittleEndianAt(m, e, p + 1, x / 0x100, n - 1);
    }
  }

  /** A written tree is an encoding of that tree. */
  lemma {:induction false} SerialEncodes(m: seq<Byte>, e: Env, p: nat, v: Value)
    requires Readable(m, e.fileEnd) && WellFormed(e, v) && At(m, e, p, Serial(e, v))
    ensures EndOfValue(m, e, p, v) == Some(p + |Serial(e, v)|)
    decreases v
  {
    hide At, EndOfArray, EndOfAnnotation, SerialArray, SerialAnnotation, AllWellFormed, ElementsWellFormed;
    match v
    case Scalar(_, _) => SerialScalarEncodes(m, e, p, v);
    case Index(_, _, _) => SerialIndexEncodes(m, e, p, v);
    case Flag(t, arg) =>
      assert [Head(t, arg)] == [Head(t, arg)] + [];
      HeaderAt(m, e, p, Head(t, arg), []);
    case Array(values) =>
      HeaderAt(m, e, p, Head(VALUE_ARRAY, 0), SerialArray(e, values));
      SerialArrayEncodes(m, e, p + 1, values);
    case Annotation(typeIdx, elements) =>
      HeaderAt(m, e, p, Head(VALUE_ANNOTATION, 0), SerialAnnotation(e, typeIdx, elements));
      SerialAnnotationEncodes(m, e, p + 1, typeIdx, elements);
  }

  lemma SerialScalarEncodes(m: seq<Byte>, e: Env, p: nat, v: Value)
    requires Readable(m, e.fileEnd) && v.Scalar? && WellFormed(e, v) && At(m, e, p, Serial(e, v))
    ensures EndOfValue(m, e, p, v) == Some(p + |Serial(e, v)|)
  {
    hide At;
    HeaderAt(m, e, p, Head(v.valueType, |v.payload| - 1), v.payload);
    PayloadAt(m, e, p + 1, v.payload);
  }

  lemma SerialIndexEncodes(m: seq<Byte>, e: Env, p: nat, v: Value)
    requires Readable(m, e.fileEnd) && v.Index? && WellFormed(e, v) && At(m, e, p, Serial(e, v))
    ensures EndOfValue(m, e, p, v) == Some(p + |Serial(e, v)|)
  {
    hide At, LittleEndian, Power256;
    HeaderAt(m, e, p, Head(v.valueType, v.size - 1), LittleEndianBytes(v.idx, v.size));
    PayloadAt(m, e, p + 1, LittleEndianBytes(v.idx, v.size));
    LittleEndianAt(m, e, p + 1, v.idx, v.size);
  }

  lemma PayloadAt(m: seq<Byte>, e: Env, p: nat, s: seq<Byte>)
    requires At(m, e, p, s)
    ensures p + |s| <= e.fileEnd && p + |s| <= |m| && m[p..p + |s|] == s
  {
  }

  lemma {:induction false} SerialArrayEncodes(m: seq<Byte>, e: Env, p: nat, vs: Values)
    requires Readable(m, e.fileEnd) && AllWellFormed(e, vs) && Length(vs) < 0x1_0000_0000
    requires At(m, e, p, SerialArray(e, vs))
    ensures EndOfArray(m, e, p, vs) == Some(p + |SerialArray(e, vs)|)
    decreases vs, 1
  {
    hide At, IsNumber, Leb128.After, Leb128.Encode, EndOfValues, SerialValues;
    AtParts(m, e, p, Leb128.Encode(Length(vs)), SerialValues(e, vs));
    NumberAt(m, e, p, Length(vs));
    SerialValuesEncode(m, e, Leb128.After(m, p), vs);
  }

  lemma {:induction false} SerialValuesEncode(m: seq<Byte>, e: Env, p: nat, vs: Values)
    requires Readable(m, e.fileEnd) && AllWellFormed(e, vs) && At(m, e, p, SerialValues(e, vs))
    ensures EndOfValues(m, e, p, vs) == Some(p + |SerialValues(e, vs)|)
    decreases vs, 0
  {
    hide At, EndOfValue, Serial;
    if vs.Cons? {
      AtParts(m, e, p, Serial(e, vs.head), SerialValues(e, vs.tail));
      SerialEncodes(m, e, p, vs.head);
      SerialValuesEncode(m, e, p + |Serial(e, vs.head)|, vs.tail);
    }
  }

  lemma {:induction false} SerialAnnotationEncodes(m: seq<Byte>, e: Env, p: nat, typeIdx: U4, es: Elements)
    requires Readable(m, e.fileEnd) && WellFormed(e, Annotation(typeIdx, es))
    requires At(m, e, p, SerialAnnotation(e, typeIdx, es))
    ensures EndOfAnnotation(m, e, p, typeIdx, es) == Some(p + |SerialAnnotation(e, typeIdx, es)|)
    decreases es, 1
  {
    hide At, IsNumber, Leb128.After, Leb128.Encode, EndOfElements, SerialElements;
    var tail := Leb128.Encode(Count(es)) + SerialElements(e, -1, es);
    AtParts(m, e, p, Leb128.Encode(typeIdx), tail);
    NumberAt(m, e, p, typeIdx);
    AtParts(m, e, Leb128.After(m, p), Leb128.Encode(Count(es)), SerialElements(e, -1, es));
    NumberAt(m, e, Leb128.After(m, p), Count(es));
    SerialElementsEncode(m, e, Leb128.After(m, Leb128.After(m, p)), -1, es);
  }

  lemma {:induction false} SerialElementsEncode(m: seq<Byte>, e: Env, p: nat, last: int, es: Elements)
    requires Readable(m, e.fileEnd) && ElementsWellFormed(e, last, es) && At(m, e, p, SerialElements(e, last, es))
    ensures EndOfElements(m, e, p, last, es) == Some(p + |SerialElements(e, last, es)|)
    decreases es, 0
  {
    hide At, IsNumber, Leb128.After, Leb128.Encode, EndOfValue, Serial;
    if es.More? {
      AtParts(m, e, p, Leb128.Encode(es.nameIdx), Serial(e, es.value) + SerialElements(e, es.nameIdx, es.rest));
      NumberAt(m, e, p, es.nameIdx);
      AtParts(m, e, Leb128.After(m, p), Serial(e, es.value), SerialElements(e, es.nameIdx, es.rest));
      SerialEncodes(m, e, Leb128.After(m, p), es.value);
      SerialElementsEncode(m, e, Leb128.After(m, p) + |Serial(e, es.value)|, es.nameIdx, es.rest);
    }
  }

  /** Wherever a well-formed tree is written, the verifier accepts it and finds its end. */
  lemma SerialIsAccepted(m: seq<Byte>, e: Env, p: nat, v: Value)
    requires Readable(m, e.fileEnd) && WellFormed(e, v) && At(m, e, p, Serial(e, v))
    ensures VerifyValue(m, e, p) == Some(p + |Serial(e, v)|)
  {
    SerialEncodes(m, e, p, v);
    CompleteValue(m, e, p, v);
  }

  // ----- The verifier -----

  method ReadUnsignedLittleEndian(m: seq<Byte>, e: Env, p: nat, size: nat) returns (result: nat, next: nat)
    requires Readable(m, e.fileEnd)
    ensures (result, next) == ReadLittleEndian(m, e, p, size)
  {
    if p + size > e.fileEnd {
      return 0, p;
    }
    next := p;
    result := 0;
    var weight: nat := 1;
    while next < p + size
      invariant p <= next <= p + size
      invariant LittleEndian(m, p, size) == Weighed(result, weight, LittleEndian(m, next, p + size - next))
    {
      NextByte(result, weight, m[next], LittleEndian(m, next + 1, p + size - next - 1));
      hide Weighed;
      result := result + weight * m[next];
      weight := 0x100 * weight;
      next := next + 1;
    }
  }

  function Weighed(result: nat, weight: nat, rest: nat): nat { result + weight * rest }

  lemma NextByte(result: nat, weight: nat, byte: Byte, rest: nat)
    ensures 0 <= weight * byte
    ensures Weighed(result, weight, byte + 0x100 * rest) == Weighed(result + weight * byte, 0x100 * weight, rest)
  {
  }

  method VerifyEncodedArray(m: seq<Byte>, e: Env, p: nat) returns (end: Option<nat>)
    requires Readable(m, e.fileEnd) && p <= e.fileEnd + SLACK
    ensures end == VerifyArray(m, e, p)
    decreases e.fileEnd + SLACK - p, 2
  {
    hide VerifyValue, Leb128.Unsigned, Leb128.Size;
    var okay := true;
    var n: nat, data: nat;
    n, data, okay := Leb128.ReadAndVerifyUnsignedLeb128(m, p, Some(e.fileEnd), okay);
    if !okay {
      return None;
    }
    while n != 0
      invariant p < data <= e.fileEnd + SLACK
      invariant VerifyArray(m, e, p) == VerifyValues(m, e, data, n)
    {
      var next := VerifyEncodedValue(m, e, data);
      if next.None? {
        return None;
      }
      data, n := next.value, n - 1;
    }
    return Some(data);
  }

  method VerifyEncodedValue(m: seq<Byte>, e: Env, p: nat) returns (end: Option<nat>)
    requires Readable(m, e.fileEnd) && p <= e.fileEnd + SLACK
    ensures end == VerifyValue(m, e, p)
    decreases e.fileEnd + SLACK - p, 0
  {
    if p + 1 > e.fileEnd {
      return None;
    }
    var headerByte: int := m[p];
    var data: nat := p + 1;
    var valueType, valueArg := headerByte % 32, headerByte / 32;
    if valueType == VALUE_BYTE {
      if valueArg != 0 {
        return None;
      }
      data := data + 1;
    } else if valueType == VALUE_SHORT || valueType == VALUE_CHAR {
      if valueArg > 1 {
        return None;
      }
      data := data + valueArg + 1;
    } else if valueType == VALUE_INT || valueType == VALUE_FLOAT {
      if valueArg > 3 {
        return None;
      }
      data := data + valueArg + 1;
    } else if valueType == VALUE_LONG || valueType == VALUE_DOUBLE {
      data := data + valueArg + 1;
    } else if Limit(e, valueType).Some? {
      if valueArg > 3 {
        return None;
      }
      var idx;
      idx, data := ReadUnsignedLittleEndian(m, e, data, valueArg + 1);
      if idx >= Limit(e, valueType).value {
        return None;
      }
    } else if valueType == VALUE_ARRAY {
      if valueArg != 0 {
        return None;
      }
      end := VerifyEncodedArray(m, e, data);
      return;
    } else if valueType == VALUE_ANNOTATION {
      if valueArg != 0 {
        return None;
      }
      end := VerifyEncodedAnnotation(m, e, data);
      return;
    } else if valueType == VALUE_NULL {
      if valueArg != 0 {
        return None;
      }
    } else if valueType == VALUE_BOOLEAN {
      if valueArg > 1 {
        return None;
      }
    } else {
      return None;
    }
    return Some(data);
  }

  method VerifyEncodedAnnotation(m: seq<Byte>, e: Env, p: nat) returns (end: Option<nat>)
    requires Readable(m, e.fileEnd) && p <= e.fileEnd + SLACK
    ensures end == VerifyAnnotation(m, e, p)
    decreases e.fileEnd + SLACK - p, 2
  {
    hide VerifyValue, Leb128.Unsigned, Leb128.Size;
    var okay := true;
    var idx: U4, n: nat, data: nat;
    idx, data, okay := Leb128.ReadAndVerifyUnsignedLeb128(m, p, Some(e.fileEnd), okay);
    if !okay {
      return None;
    }
    if idx >= e.typeIdsSize {
      return None;
    }
    if e.crossVerify {
      if !e.isClassDescriptor(idx) {
        return None;
      }
    }
    n, data, okay := Leb128.ReadAndVerifyUnsignedLeb128(m, data, Some(e.fileEnd), okay);
    var lastIdx, first := 0, true;
    if !okay {
      return None;
    }
    while n != 0
      invariant p < data <= e.fileEnd + SLACK && okay
      invariant VerifyAnnotation(m, e, p) == VerifyElements(m, e, data, n, if first then -1 else lastIdx)
    {
      n := n - 1;
      idx, data, okay := Leb128.ReadAndVerifyUnsignedLeb128(m, data, Some(e.fileEnd), okay);
      if !okay {
        return None;
      }
      if idx >= e.stringIdsSize {
        return None;
      }
      if e.crossVerify {
        if !e.isMemberName(idx) {
          return None;
        }
      }
      if first {
        first := false;
      } else if lastIdx >= idx {
        return None;
      }
      var next := VerifyEncodedValue(m, e, data);
      lastIdx := idx;
      if next.None? {
        return None;
      }
      data := next.value;
    }
    return Some(data);
  }
}
