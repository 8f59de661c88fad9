/**
 * What `SystemdBusTypeContext.encode` (Bus/Encoder/SystemdBusEncoderImpl.swift)
 * does to a context, as functions on `CtxState`: the static dispatch
 * (representable, then dictionary, then array, then struct), the
 * per-position paths the coding containers take, and the element a
 * successful encode writes.
 *
 * Which path a value takes depends on where Swift meets it. In a generic
 * position (`encode<T: Encodable>`: an array element, a dictionary key or
 * value, a variant payload, the top-level value) it goes through the
 * static dispatch, where `Int`, `Int8` and `UInt`, being neither
 * representable nor collections, take the struct branch. As the field of
 * a struct or through a single-value container, Swift picks the concrete
 * overload, which converts them to a fixed-width representable type.
 */
module Encoder {
  import opened Wrappers
  import opened BusError
  import opened CTypes
  import opened BusType
  import opened TypeRepresentable
  import opened TypeContext
  import Message

  predicate IsIntLike(v: Value)
  {
    v.IntValue? || v.Int8Value? || v.UIntValue?
  }

  /**
   * The width conversions of the concrete `encode(Int)`, `encode(Int8)`
   * and `encode(UInt)` overloads: `Int64`/`UInt64` on a 64-bit word,
   * `Int32`/`UInt32` otherwise, and `UInt8(bitPattern:)` for `Int8`.
   */
  function IntScalar(v: Value, w: WordSize): (sc: Scalar)
    requires IsIntLike(v) && FitsWord(v, w)
    ensures v.IntValue? ==> ScalarWord(sc) == Message.Num(v.i)
                            && KindOf(sc) == (if w == Word64 then Int64Kind else Int32Kind)
    ensures v.UIntValue? ==> ScalarWord(sc) == Message.Num(v.u)
                             && KindOf(sc) == (if w == Word64 then UInt64Kind else UInt32Kind)
    ensures v.Int8Value? ==> KindOf(sc) == UInt8Kind && ScalarWord(sc).n % 0x100 == v.i8 % 0x100
  {
    match v
    case IntValue(i) => if w == Word64 then I64(i) else I32(i)
    case UIntValue(u) => if w == Word64 then U64(u) else U32(u)
    case Int8Value(i) => U8(UInt8BitPattern(i))
  }

  /**
   * The contents of the array a dictionary opens. Key and value tags come
   * from `_typeOfAnyValue` applied to the key and value metatypes, and a
   * metatype is never a representable instance.
   */
  function DictContents(key: CodableType, value: CodableType): (ts: seq<SystemdBusType>)
    ensures |ts| == 4 && ts[0] == DictEntryBegin && ts[3] == DictEntryEnd
  {
    [DictEntryBegin, TypeOfAnyValue(Metatype(key)), TypeOfAnyValue(Metatype(value)), DictEntryEnd]
  }

  /** The tags of a dict entry of two structs spell `{rr}`. */
  lemma StructPairTags()
    ensures SignatureArg(Some([DictEntryBegin, Struct, Struct, DictEntryEnd])) == Some(['{' as int, 'r' as int, 'r' as int, '}' as int])
  {
    var ts := [DictEntryBegin, Struct, Struct, DictEntryEnd];
    SignatureArgOfTags(ts);
    assert RawValues(ts) == [RawValue(DictEntryBegin), RawValue(Struct), RawValue(Struct), RawValue(DictEntryEnd)];
  }

  /**
   * Whatever the key and value types, a dictionary's array is declared as
   * `{rr}`.
   */
  lemma DictContentsAreAlwaysStructs(key: CodableType, value: CodableType)
    ensures DictContents(key, value) == [DictEntryBegin, Struct, Struct, DictEntryEnd]
    ensures SignatureArg(Some(DictContents(key, value))) == Some(['{' as int, 'r' as int, 'r' as int, '}' as int])
  {
    assert TypeOfAnyValue(Metatype(key)) == Struct && TypeOfAnyValue(Metatype(value)) == Struct;
    StructPairTags();
  }

  /** libsystemd refuses the `{rr}` array of every dictionary: a dict entry's key must be basic. */
  lemma DictArrayRefused(key: CodableType, value: CodableType)
    ensures SignatureArg(Some(DictContents(key, value))).Some?
    ensures !Message.ValidContents(RawValue(Array), SignatureArg(Some(DictContents(key, value))).value)
  {
    DictContentsAreAlwaysStructs(key, value);
    var c := RawValue(Struct);
    Message.DictArrayContents(c, c);
    assert SignatureArg(Some(DictContents(key, value))).value == [Message.DICT_ENTRY_BEGIN, c, c, Message.DICT_ENTRY_END];
  }

  /**
   * The standard library's `Dictionary.encode(to:)` writes String- and
   * Int-keyed dictionaries through a keyed container, values only; any
   * other key type alternates key and value in an unkeyed container.
   */
  predicate KeyedDictionary(key: CodableType)
  {
    key == Representable(StringKind) || key == IntType
  }

  // ----- the encode paths -----

  /** The static `encode(_:context:codingPath:)`. */
  function Encode(s: CtxState, v: Value, w: WordSize): (res: (CtxState, Result<()>))
    requires Valid(s) && FitsWord(v, w)
    ensures Valid(res.0)
    decreases v, 1
  {
    match v
    case ScalarValue(sc) => AppendScalarSpec(s, sc)
    case VariantValue(p) => VariantAppend(s, p, w)
    case DictionaryValue(_, _, _) => EncodeAsDictionary(s, v, w)
    case ArrayValue(_, _) => EncodeAsArray(s, v, w)
    case StructValue(_) => EncodeAsStruct(s, v, w)
    case _ => MergeInto(s, AppendScalarSpec(NewContext(Message.New()), IntScalar(v, w)))
  }

  /** The dictionary branch: an array declared with the pairs' contents, filled by `Dictionary.encode(to:)`. */
  function EncodeAsDictionary(s: CtxState, v: Value, w: WordSize): (res: (CtxState, Result<()>))
    requires Valid(s) && v.DictionaryValue? && FitsWord(v, w)
    ensures Valid(res.0)
    decreases v, 0, |v.entries| + 1
  {
    var (s1, r1) := OpenSpec(s, Array, DictContents(v.key, v.value));
    if !r1.Ok? then (s1, r1)
    else
      var (s2, r2) := EncodeEntries(s1, v, 0, w);
      if !r2.Ok? then (s2, r2) else CloseSpec(s2)
  }

  /** The array branch: an array declared with the element type's tag, filled by `Array.encode(to:)`. */
  function EncodeAsArray(s: CtxState, v: Value, w: WordSize): (res: (CtxState, Result<()>))
    requires Valid(s) && v.ArrayValue? && FitsWord(v, w)
    ensures Valid(res.0)
    decreases v, 0, |v.elements| + 1
  {
    var (s1, r1) := OpenSpec(s, Array, [CodableTypeTag(v.element)]);
    if !r1.Ok? then (s1, r1)
    else
      var (s2, r2) := EncodeElements(s1, v, 0, w);
      if !r2.Ok? then (s2, r2) else CloseSpec(s2)
  }

  /** The struct branch: the fields go into a fresh context, which is then merged. */
  function EncodeAsStruct(s: CtxState, v: Value, w: WordSize): (res: (CtxState, Result<()>))
    requires Valid(s) && v.StructValue? && FitsWord(v, w)
    ensures Valid(res.0)
    decreases v, 0, |v.fields| + 1
  {
    MergeInto(s, EncodeFields(NewContext(Message.New()), v, 0, w))
  }

  /**
   * The end of the struct branch: once the value is encoded into the
   * fresh sub-context, `merge` it into the parent.
   */
  function MergeInto(s: CtxState, sub: (CtxState, Result<()>)): (res: (CtxState, Result<()>))
    requires Valid(s) && Valid(sub.0)
    ensures Valid(res.0)
  {
    if !sub.1.Ok? then (s, sub.1)
    else
      var (s1, _, r) := MergeSpec(s, sub.0);
      (s1, r)
  }

  /** `Variant.append(context:)`: a variant whose one-tag signature is `_typeOfAnyValue` of the payload. */
  function VariantAppend(s: CtxState, payload: Value, w: WordSize): (res: (CtxState, Result<()>))
    requires Valid(s) && FitsWord(payload, w)
    ensures Valid(res.0)
    decreases VariantValue(payload), 0
  {
    var (s1, r1) := OpenSpec(s, Variant, [TypeOfAnyValue(Instance(payload))]);
    if !r1.Ok? then (s1, r1)
    else
      var (s2, r2) := Encode(s1, payload, w);
      if !r2.Ok? then (s2, r2) else CloseSpec(s2)
  }

  /** `Array.encode(to:)`: each element in order, through the unkeyed container's generic `encode`. */
  function EncodeElements(s: CtxState, v: Value, i: nat, w: WordSize): (res: (CtxState, Result<()>))
    requires Valid(s) && v.ArrayValue? && FitsWord(v, w) && i <= |v.elements|
    ensures Valid(res.0)
    decreases v, 0, |v.elements| - i
  {
    if i == |v.elements| then (s, Ok(()))
    else
      var (s1, r1) := Encode(s, v.elements[i], w);
      if !r1.Ok? then (s1, r1) else EncodeElements(s1, v, i + 1, w)
  }

  /** One turn of the array loop, given what encoding element i did. */
  lemma ElementsStep(s: CtxState, v: Value, i: nat, w: WordSize, s1: CtxState, r: Result<()>)
    requires Valid(s) && v.ArrayValue? && FitsWord(v, w) && i < |v.elements|
    requires (s1, r) == Encode(s, v.elements[i], w)
    ensures Valid(s1)
    ensures EncodeElements(s, v, i, w) == if !r.Ok? then (s1, r) else EncodeElements(s1, v, i + 1, w)
  {
  }

  /** `Dictionary.encode(to:)`: values only when keyed, otherwise key then value, entry by entry. */
  function EncodeEntries(s: CtxState, v: Value, i: nat, w: WordSize): (res: (CtxState, Result<()>))
    requires Valid(s) && v.DictionaryValue? && FitsWord(v, w) && i <= |v.entries|
    ensures Valid(res.0)
    decreases v, 0, |v.entries| - i
  {
    if i == |v.entries| then (s, Ok(()))
    else
      var (s1, r1) := EncodeEntry(s, v, i, w);
      if !r1.Ok? then (s1, r1) else EncodeEntries(s1, v, i + 1, w)
  }

  /** With `String` or `Int` keys, the entries loop writes each value and stops at the first failure. */
  lemma KeyedEntriesStep(s: CtxState, v: Value, i: nat, w: WordSize, s1: CtxState, r: Result<()>)
    requires Valid(s) && v.DictionaryValue? && FitsWord(v, w) && i < |v.entries| && KeyedDictionary(v.key)
    requires (s1, r) == Encode(s, v.entries[i].1, w)
    ensures Valid(s1)
    ensures EncodeEntries(s, v, i, w) == if !r.Ok? then (s1, r) else EncodeEntries(s1, v, i + 1, w)
  {
    assert EncodeEntry(s, v, i, w) == (s1, r);
  }

  /** One entry of `Dictionary.encode(to:)`: the key (unless keyed), then the value. */
  function EncodeEntry(s: CtxState, v: Value, i: nat, w: WordSize): (res: (CtxState, Result<()>))
    requires Valid(s) && v.DictionaryValue? && FitsWord(v, w) && i < |v.entries|
    ensures Valid(res.0)
    decreases v, 0, |v.entries| - i, 0
  {
    var (s1, r1) := if KeyedDictionary(v.key) then (s, Ok(())) else Encode(s, v.entries[i].0, w);
    if !r1.Ok? then (s1, r1) else Encode(s1, v.entries[i].1, w)
  }

  /** A struct's synthesized `encode(to:)`: each field in order, through the keyed container. */
  function EncodeFields(s: CtxState, v: Value, i: nat, w: WordSize): (res: (CtxState, Result<()>))
    requires Valid(s) && v.StructValue? && FitsWord(v, w) && i <= |v.fields|
    ensures Valid(res.0)
    decreases v, 0, |v.fields| - i
  {
    if i == |v.fields| then (s, Ok(()))
    else
      var (s1, r1) := EncodeField(s, v.fields[i], w);
      if !r1.Ok? then (s1, r1) else EncodeFields(s1, v, i + 1, w)
  }

  /** One turn of the struct loop, given what encoding field i did. */
  lemma FieldsStep(s: CtxState, v: Value, i: nat, w: WordSize, s1: CtxState, r: Result<()>)
    requires Valid(s) && v.StructValue? && FitsWord(v, w) && i < |v.fields|
    requires (s1, r) == EncodeField(s, v.fields[i], w)
    ensures Valid(s1)
    ensures EncodeFields(s, v, i, w) == if !r.Ok? then (s1, r) else EncodeFields(s1, v, i + 1, w)
  {
  }

  /**
   * A value whose static type Swift knows: a struct field
   * (`encode(_:forKey:)`) or the single-value container's `encode`. The
   * integer overloads convert; everything else takes the static dispatch.
   */
  function EncodeField(s: CtxState, v: Value, w: WordSize): (res: (CtxState, Result<()>))
    requires Valid(s) && FitsWord(v, w)
    ensures Valid(res.0)
    decreases v, 2
  {
    if IsIntLike(v) then AppendScalarSpec(s, IntScalar(v, w)) else Encode(s, v, w)
  }

  /**
   * The private `encodeDict`: one dict entry per pair, declared `{kv}`
   * with k and v from the key and value metatypes, key written before value.
   */
  function EncodeDict(s: CtxState, v: Value, w: WordSize): (res: (CtxState, Result<()>))
    requires Valid(s) && v.DictionaryValue? && FitsWord(v, w)
    ensures Valid(res.0)
  {
    var (s1, r1) := OpenSpec(s, Array, DictContents(v.key, v.value));
    if !r1.Ok? then (s1, r1)
    else
      var (s2, r2) := EncodeDictEntries(s1, v, 0, w);
      if !r2.Ok? then (s2, r2) else CloseSpec(s2)
  }

  function EncodeDictEntries(s: CtxState, v: Value, i: nat, w: WordSize): (res: (CtxState, Result<()>))
    requires Valid(s) && v.DictionaryValue? && FitsWord(v, w) && i <= |v.entries|
    ensures Valid(res.0)
    decreases |v.entries| - i
  {
    if i == |v.entries| then (s, Ok(()))
    else
      var (s1, r1) := EncodeDictEntry(s, v, i, w);
      if !r1.Ok? then (s1, r1) else EncodeDictEntries(s1, v, i + 1, w)
  }

  /** One turn of the `encodeDict` loop, given what writing pair i did. */
  lemma DictEntriesStep(s: CtxState, v: Value, i: nat, w: WordSize, s1: CtxState, r: Result<()>)
    requires Valid(s) && v.DictionaryValue? && FitsWord(v, w) && i < |v.entries|
    requires (s1, r) == EncodeDictEntry(s, v, i, w)
    ensures Valid(s1)
    ensures EncodeDictEntries(s, v, i, w) == if !r.Ok? then (s1, r) else EncodeDictEntries(s1, v, i + 1, w)
  {
  }

  /** One pair of `encodeDict`: a dict entry holding the key, then the value. */
  function EncodeDictEntry(s: CtxState, v: Value, i: nat, w: WordSize): (res: (CtxState, Result<()>))
    requires Valid(s) && v.DictionaryValue? && FitsWord(v, w) && i < |v.entries|
    ensures Valid(res.0)
  {
    var entryTypes := [TypeOfAnyValue(Metatype(v.key)), TypeOfAnyValue(Metatype(v.value))];
    var (s1, r1) := OpenSpec(s, DictEntry, entryTypes);
    if !r1.Ok? then (s1, r1)
    else
      var (s2, r2) := Encode(s1, v.entries[i].0, w);
      if !r2.Ok? then (s2, r2)
      else
        var (s3, r3) := Encode(s2, v.entries[i].1, w);
        if !r3.Ok? then (s3, r3) else CloseSpec(s3)
  }

  // ----- what a successful encode writes -----

  /**
   * The values the static dispatch can write. libsystemd accepts the
   * one-tag contents of a variant or an array only when the tag is basic
   * or `v`, so a variant's payload and an array's element type must be
   * representable; a dictionary's array is declared `{rr}` and always
   * refused; a struct, `Int`, `Int8` or `UInt` reaches `merge`, which
   * fails on a message being written.
   */
  predicate Encodable(v: Value)
  {
    match v
    case ScalarValue(_) => true
    case VariantValue(p) => (p.ScalarValue? || p.VariantValue?) && Encodable(p)
    case ArrayValue(et, es) => et.Representable? && forall i :: 0 <= i < |es| ==> Encodable(es[i])
    case _ => false
  }

  /** The elements from index i on are encodable. */
  predicate ElementsEncodable(v: Value, i: nat)
    requires v.ArrayValue?
  {
    forall j :: i <= j < |v.elements| ==> Encodable(v.elements[j])
  }

  lemma ElementsEncodableStep(v: Value, i: nat)
    requires v.ArrayValue? && i < |v.elements|
    ensures ElementsEncodable(v, i) <==> Encodable(v.elements[i]) && ElementsEncodable(v, i + 1)
  {
  }

  /**
   * The errno an encode fails with, 0 when the value is encodable: EINVAL
   * where libsystemd refuses a container's contents, which it checks on
   * opening, before anything inside is written; EPERM where `merge` peeks
   * at the message being written. The first refusal in writing order
   * decides, so a struct whose fields fail gives the fields' errno.
   */
  function Refusal(v: Value): (e: int)
    ensures e == 0 <==> Encodable(v)
    ensures e == 0 || e == EPERM || e == EINVAL
    decreases v, 1
  {
    match v
    case ScalarValue(_) => 0
    case VariantValue(p) => if p.ScalarValue? || p.VariantValue? then Refusal(p) else EINVAL
    case ArrayValue(et, _) => if et.Representable? then ElementsRefusal(v, 0) else EINVAL
    case DictionaryValue(_, _, _) => EINVAL
    case StructValue(_) => if FieldsRefusal(v, 0) != 0 then FieldsRefusal(v, 0) else EPERM
    case _ => EPERM
  }

  /** The errno of the first element from i on that is refused, or 0. */
  function ElementsRefusal(v: Value, i: nat): (e: int)
    requires v.ArrayValue? && i <= |v.elements|
    ensures e == 0 <==> ElementsEncodable(v, i)
    ensures e == 0 || e == EPERM || e == EINVAL
    decreases v, 0, |v.elements| - i
  {
    if i == |v.elements| then 0
    else if Refusal(v.elements[i]) != 0 then Refusal(v.elements[i])
    else ElementsRefusal(v, i + 1)
  }

  /** The errno of the first field from i on that is refused, or 0; an integer field is converted and never refused. */
  function FieldsRefusal(v: Value, i: nat): (e: int)
    requires v.StructValue? && i <= |v.fields|
    ensures e == 0 || e == EPERM || e == EINVAL
    decreases v, 0, |v.fields| - i
  {
    if i == |v.fields| then 0
    else
      var f := v.fields[i];
      if !IsIntLike(f) && Refusal(f) != 0 then Refusal(f) else FieldsRefusal(v, i + 1)
  }

  /** The one element the static dispatch adds for an encodable value. */
  function Wire(v: Value): Message.Elem
    requires Encodable(v)
    decreases v, 1
  {
    match v
    case ScalarValue(sc) => ScalarElem(sc)
    case VariantValue(p) =>
      Message.Container(Message.VARIANT_CODE, [RawValue(TypeOfAnyValue(Instance(p)))], [Wire(p)])
    case ArrayValue(et, _) =>
      Message.Container(Message.ARRAY_CODE, [RawValue(CodableTypeTag(et))], WireElements(v, 0))
  }

  function WireElements(v: Value, i: nat): (items: seq<Message.Elem>)
    requires v.ArrayValue? && i <= |v.elements| && Encodable(v)
    ensures |items| == |v.elements| - i
    decreases v, 0, |v.elements| - i
  {
    if i == |v.elements| then []
    else
      ElementEncodable(v, i);
      [Wire(v.elements[i])] + WireElements(v, i + 1)
  }

  /** The written item for element j is that element's own element. */
  lemma {:induction false} WireElementAt(v: Value, i: nat, j: nat)
    requires v.ArrayValue? && Encodable(v) && i <= j < |v.elements|
    ensures Encodable(v.elements[j]) && WireElements(v, i)[j - i] == Wire(v.elements[j])
    decreases j - i
  {
    WireElementsCons(v, i);
    var rest := WireElements(v, i + 1);
    var x := Wire(v.elements[i]);
    if i == j {
      assert WireElements(v, i)[j - i] == x;
    } else {
      WireElementAt(v, i + 1, j);
      ConsIndex(x, rest, j - i);
    }
  }

  /** Nothing in front of a sequence leaves it as it is. */
  lemma NilConcat<T>(front: seq<T>, s: seq<T>)
    requires front == []
    ensures front + s == s
  {
  }

  /** Past the head, indexing a sequence with one element in front indexes the rest. */
  lemma ConsIndex<T>(x: T, rest: seq<T>, k: nat)
    requires 0 < k <= |rest|
    ensures ([x] + rest)[k] == rest[k - 1]
  {
  }

  /** The written items from element i on are element i's, then those from i + 1 on. */
  lemma WireElementsCons(v: Value, i: nat)
    requires v.ArrayValue? && Encodable(v) && i < |v.elements|
    ensures Encodable(v.elements[i])
    ensures WireElements(v, i) == [Wire(v.elements[i])] + WireElements(v, i + 1)
  {
    ElementEncodable(v, i);
  }

  /** An element of an encodable array is encodable. */
  lemma ElementEncodable(v: Value, k: nat)
    requires v.ArrayValue? && Encodable(v) && k < |v.elements|
    ensures Encodable(v.elements[k])
  {
  }

  /** The state a successful encode of v leaves: one element more, same level and current type. */
  predicate Wrote(s: CtxState, s': CtxState, v: Value)
    requires Encodable(v) && !s.msg.sealed
  {
    s'.msg == Message.AddItem(s.msg, Wire(v)) && s'.level == s.level && s'.current == s.current
    && (if v.ScalarValue? then s'.contents == s.contents else s'.contents.None?)
  }

  // ----- the encode theorem -----

  /** The outcome the static dispatch promises for a value: success exactly when it is encodable, else its `Refusal`. */
  predicate Succeeds(s: CtxState, res: (CtxState, Result<()>), v: Value)
  {
    res.1 == (if Encodable(v) then Ok(()) else Fail(ErrorOf(-Refusal(v))))
    && (Encodable(v) ==> !res.0.msg.sealed && |res.0.msg.open| == |s.msg.open|)
  }

  /**
   * On a message being written, the static dispatch succeeds exactly for
   * the encodable values; anything else fails with the errno `Refusal`
   * gives: EINVAL for contents libsystemd refuses, EPERM where the struct
   * branch's `merge` peeks at the message being written.
   */
  lemma {:induction false} EncodeOutcome(s: CtxState, v: Value, w: WordSize)
    requires Valid(s) && !s.msg.sealed && FitsWord(v, w)
    ensures Succeeds(s, Encode(s, v, w), v)
    decreases v, 2
  {
    match v
    case ScalarValue(sc) =>
    case VariantValue(p) => VariantOutcome(s, p, w);
    case ArrayValue(_, _) => ArrayOutcome(s, v, w);
    case DictionaryValue(_, _, _) => DictionaryOutcome(s, v, w);
    case StructValue(_) =>
      var sub := EncodeFields(NewContext(Message.New()), v, 0, w);
      FieldsOutcome(NewContext(Message.New()), v, 0, w);
      MergeNeverSucceeds(s, sub.0);
      assert EncodeAsStruct(s, v, w) == MergeInto(s, sub);
    case _ =>
      MergeNeverSucceeds(s, AppendScalarSpec(NewContext(Message.New()), IntScalar(v, w)).0);
  }

  lemma {:induction false} VariantOutcome(s: CtxState, p: Value, w: WordSize)
    requires Valid(s) && !s.msg.sealed && FitsWord(p, w)
    ensures Succeeds(s, VariantAppend(s, p, w), VariantValue(p))
    decreases VariantValue(p), 1
  {
    var t := TypeOfAnyValue(Instance(p));
    if p.ScalarValue? || p.VariantValue? {
      OpenOneTag(s, Variant, t);
      EncodeOutcome(OpenSpec(s, Variant, [t]).0, p, w);
    } else {
      assert t == Struct;
      OneTagRefused(s, Variant, t);
    }
  }

  lemma {:induction false} ArrayOutcome(s: CtxState, v: Value, w: WordSize)
    requires Valid(s) && !s.msg.sealed && v.ArrayValue? && FitsWord(v, w)
    ensures Succeeds(s, EncodeAsArray(s, v, w), v)
    decreases v, 1
  {
    var t := CodableTypeTag(v.element);
    if v.element.Representable? {
      OpenOneTag(s, Array, t);
      ElementsOutcome(OpenSpec(s, Array, [t]).0, v, 0, w);
    } else {
      OneTagRefused(s, Array, t);
    }
  }

  /** A dictionary is refused as soon as its `{rr}` array is opened, and nothing is written. */
  lemma DictionaryOutcome(s: CtxState, v: Value, w: WordSize)
    requires Valid(s) && !s.msg.sealed && v.DictionaryValue? && FitsWord(v, w)
    ensures EncodeAsDictionary(s, v, w) == (s, Fail(ErrorOf(-EINVAL)))
  {
    DictArrayRefused(v.key, v.value);
  }

  lemma {:induction false} ElementsOutcome(s: CtxState, v: Value, i: nat, w: WordSize)
    requires Valid(s) && !s.msg.sealed && v.ArrayValue? && FitsWord(v, w) && i <= |v.elements|
    ensures var res := EncodeElements(s, v, i, w);
            res.1 == (if ElementsEncodable(v, i) then Ok(()) else Fail(ErrorOf(-ElementsRefusal(v, i))))
            && (res.1.Ok? ==> !res.0.msg.sealed && |res.0.msg.open| == |s.msg.open|)
    decreases v, 0, |v.elements| - i
  {
    if i < |v.elements| {
      var e := v.elements[i];
      EncodeOutcome(s, e, w);
      ElementsEncodableStep(v, i);
      var res1 := Encode(s, e, w);
      if res1.1.Ok? {
        ElementsOutcome(res1.0, v, i + 1, w);
      }
    }
  }

  /** Struct fields encoded into a message being written: the first refusal, if any, is the result. */
  lemma {:induction false} FieldsOutcome(s: CtxState, v: Value, i: nat, w: WordSize)
    requires Valid(s) && !s.msg.sealed && v.StructValue? && FitsWord(v, w) && i <= |v.fields|
    ensures var res := EncodeFields(s, v, i, w);
            res.1 == (if FieldsRefusal(v, i) == 0 then Ok(()) else Fail(ErrorOf(-FieldsRefusal(v, i))))
            && (res.1.Ok? ==> !res.0.msg.sealed)
    decreases v, 0, |v.fields| - i
  {
    if i < |v.fields| {
      var f := v.fields[i];
      if !IsIntLike(f) {
        EncodeOutcome(s, f, w);
      }
      var (s1, r1) := EncodeField(s, f, w);
      if r1.Ok? {
        FieldsOutcome(s1, v, i + 1, w);
      }
    }
  }

  /**
   * A successful encode adds exactly one element, `Wire(v)`, to the
   * innermost open container, leaving the level and current type alone.
   */
  lemma {:induction false} EncodeWrites(s: CtxState, v: Value, w: WordSize)
    requires Valid(s) && !s.msg.sealed && FitsWord(v, w) && Encodable(v)
    ensures Wrote(s, Encode(s, v, w).0, v)
    decreases v, 1
  {
    match v
    case ScalarValue(sc) =>
    case VariantValue(p) => VariantWrites(s, p, w);
    case ArrayValue(_, _) => ArrayWrites(s, v, w);
  }

  lemma {:induction false} VariantWrites(s: CtxState, p: Value, w: WordSize)
    requires Valid(s) && !s.msg.sealed && FitsWord(p, w) && Encodable(VariantValue(p))
    ensures Wrote(s, VariantAppend(s, p, w).0, VariantValue(p))
    decreases VariantValue(p), 0
  {
    var t := TypeOfAnyValue(Instance(p));
    OpenOneTag(s, Variant, t);
    var s1 := OpenSpec(s, Variant, [t]).0;
    EncodeOutcome(s1, p, w);
    EncodeWrites(s1, p, w);
    Message.AddSingleItem(s1.msg, Wire(p));
    Message.FillAndClose(s.msg, RawValue(Variant), [RawValue(t)], [Wire(p)]);
  }

  lemma {:induction false} ArrayWrites(s: CtxState, v: Value, w: WordSize)
    requires Valid(s) && !s.msg.sealed && v.ArrayValue? && FitsWord(v, w) && Encodable(v)
    ensures Wrote(s, EncodeAsArray(s, v, w).0, v)
    decreases v, 0, |v.elements| + 1
  {
    var t := CodableTypeTag(v.element);
    OpenOneTag(s, Array, t);
    var s1 := OpenSpec(s, Array, [t]).0;
    ElementsOutcome(s1, v, 0, w);
    ElementsWrite(s1, v, 0, w);
    Message.FillAndClose(s.msg, RawValue(Array), [RawValue(t)], WireElements(v, 0));
  }

  lemma {:induction false} ElementsWrite(s: CtxState, v: Value, i: nat, w: WordSize)
    requires Valid(s) && !s.msg.sealed && v.ArrayValue? && FitsWord(v, w) && i <= |v.elements|
    requires Encodable(v)
    ensures var s' := EncodeElements(s, v, i, w).0;
            s'.msg == Message.AddItems(s.msg, WireElements(v, i))
            && s'.level == s.level && s'.current == s.current
    decreases v, 0, |v.elements| - i
  {
    if i < |v.elements| {
      var e := v.elements[i];
      EncodeOutcome(s, e, w);
      EncodeWrites(s, e, w);
      var s1 := Encode(s, e, w).0;
      ElementsWrite(s1, v, i + 1, w);
      var rest := WireElements(v, i + 1);
      assert WireElements(v, i) == [Wire(e)] + rest;
      assert ([Wire(e)] + rest)[1..] == rest;
    }
  }

  // ----- further consequences -----

  /** A sealed message (one received, or already sent) cannot be written: every encode fails. */
  lemma EncodeOnSealedFails(s: CtxState, v: Value, w: WordSize)
    requires Valid(s) && s.msg.sealed && FitsWord(v, w)
    ensures !Encode(s, v, w).1.Ok?
  {
    match v
    case StructValue(_) =>
      MergeNeverSucceeds(s, EncodeFields(NewContext(Message.New()), v, 0, w).0);
    case IntValue(_) =>
      MergeNeverSucceeds(s, AppendScalarSpec(NewContext(Message.New()), IntScalar(v, w)).0);
    case Int8Value(_) =>
      MergeNeverSucceeds(s, AppendScalarSpec(NewContext(Message.New()), IntScalar(v, w)).0);
    case UIntValue(_) =>
      MergeNeverSucceeds(s, AppendScalarSpec(NewContext(Message.New()), IntScalar(v, w)).0);
    case _ =>
  }

  /**
   * Every value the dispatch can write is written as its static type
   * declares: a representable value under its kind's code, an array as `a`
   * followed by its element kind's code, each element agreeing with that.
   * So the checks libsystemd makes on what is appended inside a container
   * would accept it.
   */
  lemma {:induction false} WrittenAsDeclared(x: Value, t: CodableType)
    requires Encodable(x) && HasType(x, t)
    ensures Message.Conforms(Wire(x))
    ensures t.Representable? ==> Message.ElemSig(Wire(x)) == [RawValue(KindTag(t.kind))]
    ensures t.ArrayOf? ==> t.element.Representable?
                           && Message.ElemSig(Wire(x)) == [Message.ARRAY_CODE, RawValue(KindTag(t.element.kind))]
    decreases x, 1
  {
    match x
    case ScalarValue(sc) =>
      assert Wire(x) == ScalarElem(sc);
    case VariantValue(p) =>
      VariantWrittenAsDeclared(p);
    case ArrayValue(_, _) =>
      ArrayWrittenAsDeclared(x);
  }

  /** A variant is written as `v`, holding its payload written as the payload's kind declares. */
  lemma {:induction false} VariantWrittenAsDeclared(p: Value)
    requires Encodable(VariantValue(p))
    ensures Message.Conforms(Wire(VariantValue(p)))
    ensures Message.ElemSig(Wire(VariantValue(p))) == [RawValue(KindTag(VariantKind))]
    decreases VariantValue(p), 0
  {
    var k := KindOfValue(p).value;
    WrittenAsDeclared(p, Representable(k));
    Message.VariantConformance([RawValue(TypeOfAnyValue(Instance(p)))], Wire(p));
    assert KindTag(VariantKind) == Variant;
  }

  /** An array is written as `a` and its element kind's code, each element agreeing with that code. */
  lemma {:induction false} ArrayWrittenAsDeclared(x: Value)
    requires x.ArrayValue? && Encodable(x) && HasType(x, ArrayOf(x.element))
    ensures Message.Conforms(Wire(x))
    ensures Message.ElemSig(Wire(x)) == [Message.ARRAY_CODE, RawValue(KindTag(x.element.kind))]
    decreases x, 0
  {
    var items := WireElements(x, 0);
    var sig := [RawValue(KindTag(x.element.kind))];
    assert CodableTypeTag(x.element) == KindTag(x.element.kind);
    assert Wire(x) == Message.Container(Message.ARRAY_CODE, sig, items);
    forall i | 0 <= i < |items|
      ensures Message.Conforms(items[i]) && Message.ElemSig(items[i]) == sig
    {
      WireElementAt(x, 0, i);
      var e := x.elements[i];
      assert HasType(e, x.element);
      WrittenAsDeclared(e, x.element);
    }
    Message.ArrayConformance(sig, items);
  }

  // ----- the private encodeDict -----

  /** `encodeDict` is refused as a dictionary is, when its `{rr}` array is opened; nothing is written. */
  lemma EncodeDictRefused(s: CtxState, v: Value, w: WordSize)
    requires Valid(s) && !s.msg.sealed && v.DictionaryValue? && FitsWord(v, w)
    ensures EncodeDict(s, v, w) == (s, Fail(ErrorOf(-EINVAL)))
  {
    DictArrayRefused(v.key, v.value);
  }

  /** A dict entry declared `rr` is refused when opened. */
  lemma StructPairRefused(s: CtxState)
    requires Valid(s) && !s.msg.sealed
    ensures OpenSpec(s, DictEntry, [Struct, Struct]) == (s, Fail(ErrorOf(-EINVAL)))
  {
    SignatureArgOfTags([Struct, Struct]);
    assert RawValues([Struct, Struct]) == [RawValue(Struct), RawValue(Struct)];
    Message.DictEntryContents(RawValue(Struct), RawValue(Struct));
  }

  /**
   * Each pair's dict entry, declared `rr` from the key and value
   * metatypes, would be refused as well: its key code is not basic.
   */
  lemma EncodeDictEntryRefused(s: CtxState, v: Value, i: nat, w: WordSize)
    requires Valid(s) && !s.msg.sealed && v.DictionaryValue? && FitsWord(v, w) && i < |v.entries|
    ensures EncodeDictEntry(s, v, i, w) == (s, Fail(ErrorOf(-EINVAL)))
  {
    assert [TypeOfAnyValue(Metatype(v.key)), TypeOfAnyValue(Metatype(v.value))] == [Struct, Struct];
    StructPairRefused(s);
  }
}
