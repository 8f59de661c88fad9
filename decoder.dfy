/**
 * What the static `SystemdBusTypeContext.decode` (Bus/Decoder/SystemdBusDecoderImpl.swift)
 * does to a context, as functions on `CtxState`, together with the
 * `init(from:)` of the Swift types it meets and the coding containers
 * they use: a representable type is one basic read (a `Variant` enters
 * its container and decodes the type it finds there); anything else
 * enters a container, traps if that container holds dict entries, runs
 * the type's `init(from:)`, and exits.
 *
 * As with encoding, the path depends on where Swift meets a type: a
 * struct field of type `Int`, `Int8` or `UInt` uses the keyed container's
 * concrete overload (one fixed-width read); in a generic position the
 * same types take the container branch.
 */
module Decoder {
  import opened Wrappers
  import opened BusError
  import opened CTypes
  import opened BusType
  import opened TypeRepresentable
  import opened TypeContext
  import opened Dictionaries
  import Message
  import Encoder

  // ----- the integer overloads -----

  predicate IsIntType(t: CodableType)
  {
    t.IntType? || t.Int8Type? || t.UIntType?
  }

  /**
   * The representable kind the concrete `decode(Int)`, `decode(Int8)` and
   * `decode(UInt)` overloads read: 64-bit on a 64-bit word, else 32-bit;
   * `UInt8` for `Int8`.
   */
  function IntKind(t: CodableType, w: WordSize): (k: Kind)
    requires IsIntType(t)
  {
    match t
    case IntType => if w == Word64 then Int64Kind else Int32Kind
    case UIntType => if w == Word64 then UInt64Kind else UInt32Kind
    case Int8Type => UInt8Kind
  }

  /** The conversion back: `Int(_:)`, `UInt(_:)` and `Int8(bitPattern:)`. */
  function IntFromScalar(t: CodableType, sc: Scalar, w: WordSize): (v: Value)
    requires IsIntType(t) && KindOf(sc) == IntKind(t, w)
    ensures HasType(v, t)
  {
    match t
    case IntType => IntValue(if w == Word64 then sc.i64 else sc.i32)
    case UIntType => UIntValue(if w == Word64 then sc.u64 else sc.u32)
    case Int8Type => Int8Value(Int8BitPattern(sc.u8))
  }

  /** The static type of an integer value. */
  function IntTypeOf(v: Value): (t: CodableType)
    requires Encoder.IsIntLike(v)
    ensures IsIntType(t) && HasType(v, t)
  {
    match v
    case IntValue(_) => IntType
    case UIntValue(_) => UIntType
    case Int8Value(_) => Int8Type
  }

  /**
   * The decoder's width conversions invert the encoder's: the scalar an
   * integer is written as has the kind the decoder reads, and converts
   * back to the same integer (for `Int8`, through the `UInt8` bit pattern).
   */
  lemma IntConversionRoundTrip(v: Value, w: WordSize)
    requires Encoder.IsIntLike(v) && FitsWord(v, w)
    ensures KindOf(Encoder.IntScalar(v, w)) == IntKind(IntTypeOf(v), w)
    ensures IntFromScalar(IntTypeOf(v), Encoder.IntScalar(v, w), w) == v
  {
    if v.Int8Value? {
      BitPatternRoundTrip(v.i8, 0);
    }
  }

  /** A concrete integer overload: one read of the fixed-width kind, then the conversion. */
  function ReadInteger(s: CtxState, t: CodableType, w: WordSize): (res: (CtxState, Result<Value>))
    requires Valid(s) && IsIntType(t)
    ensures Valid(res.0) && res.0.level == s.level && res.0.msg.sealed == s.msg.sealed
    ensures Message.Weight(res.0.msg) <= Message.Weight(s.msg)
    ensures res.1.Ok? && s.msg.sealed && !Message.AtEndOfContainer(s.msg) ==>
              Message.Weight(res.0.msg) < Message.Weight(s.msg)
    ensures res.1.Ok? ==> HasType(res.1.value, t)
  {
    var (s1, r) := ReadScalarSpec(s, IntKind(t, w));
    if r.Ok? then (s1, Ok(IntFromScalar(t, r.value, w))) else (s1, Lift(r))
  }

  // ----- helpers of the decoder -----

  /** `decodeNil()`: the binary form has no nil, so the answer is always no. */
  function DecodeNil(s: CtxState): (isNil: bool)
    ensures !isNil
  {
    false
  }

  /** `isDecodingDict`: the last peek saw an array whose contents start with a dict entry. */
  predicate IsDecodingDict(s: CtxState)
  {
    s.current == Array && s.contents.Some? && |s.contents.value| > 0 && s.contents.value[0] == DictEntryBegin
  }

  /** `assertType(_:)`: EBADMSG unless the next element has the expected tag. */
  function AssertType(s: CtxState, t: SystemdBusType): (res: Result<()>)
    requires Valid(s)
    ensures res.Ok? <==> PeekTypeSpec(s).Ok? && PeekTypeSpec(s).value.t == t
    ensures res.Fail? && PeekTypeSpec(s).Ok? ==> res.error == ErrorOf(-EBADMSG)
    ensures res.Trap? <==> PeekTypeSpec(s).Trap?
  {
    match PeekTypeSpec(s)
    case Trap => Trap
    case Fail(e) => Fail(e)
    case Ok(p) => if p.t == t then Ok(()) else Fail(ErrorOf(-EBADMSG))
  }

  // ----- dictionaries as the standard library builds them -----

  /** Every key and value has the dictionary's key and value types. */
  predicate EntriesTyped(entries: seq<(Value, Value)>, kt: CodableType, vt: CodableType)
  {
    forall i :: 0 <= i < |entries| ==> HasType(entries[i].0, kt) && HasType(entries[i].1, vt)
  }

  /** The assignment keeps every key and value of the dictionary's types. */
  lemma AssignTyped(entries: seq<(Value, Value)>, k: Value, v: Value, kt: CodableType, vt: CodableType)
    requires EntriesTyped(entries, kt, vt) && HasType(k, kt) && HasType(v, vt)
    ensures EntriesTyped(Assign(entries, k, v), kt, vt)
  {
    var r := Assign(entries, k, v);
    forall i | 0 <= i < |r|
      ensures HasType(r[i].0, kt) && HasType(r[i].1, vt)
    {
      if r[i] != (k, v) {
        var j :| 0 <= j < |entries| && entries[j] == r[i];
      }
    }
  }


  // ----- the decode paths -----

  /** The static `decode(_:context:codingPath:)`. */
  function Decode(s: CtxState, t: CodableType, w: WordSize): (res: (CtxState, Result<Value>))
    requires Valid(s)
    ensures Valid(res.0) && res.0.msg.sealed == s.msg.sealed
    ensures Message.Weight(res.0.msg) <= Message.Weight(s.msg)
    ensures res.1.Ok? && s.msg.sealed && !Message.AtEndOfContainer(s.msg) ==>
              Message.Weight(res.0.msg) < Message.Weight(s.msg)
    ensures res.1.Ok? ==> HasType(res.1.value, t)
    decreases Message.Weight(s.msg), t, 3
  {
    match t
    case Representable(k) =>
      if k == VariantKind then DecodeVariant(s, w)
      else
        var (s1, r) := ReadScalarSpec(s, k);
        if r.Ok? then (s1, Ok(ScalarValue(r.value))) else (s1, Lift(r))
    case _ => DecodeInContainer(s, t, w)
  }

  /**
   * `Variant.init(context:)`: enter the variant, decode the representable
   * type its content has (EBADMSG when there is none), and always try to
   * exit, ignoring a failure to do so.
   */
  function DecodeVariant(s: CtxState, w: WordSize): (res: (CtxState, Result<Value>))
    requires Valid(s)
    ensures Valid(res.0) && res.0.msg.sealed == s.msg.sealed
    ensures Message.Weight(res.0.msg) <= Message.Weight(s.msg)
    ensures res.1.Ok? && s.msg.sealed && !Message.AtEndOfContainer(s.msg) ==>
              Message.Weight(res.0.msg) < Message.Weight(s.msg)
    ensures res.1.Ok? ==> res.1.value.VariantValue?
    decreases Message.Weight(s.msg), Representable(VariantKind), 2
  {
    var (s1, r1) := EnterSpec(s, None, None);
    if !r1.Ok? then (s1, Lift(r1))
    else
      var peeked := PeekTypeSpec(s1);
      var (s2, r2) :=
        match peeked
        case Trap => (s1, Trap)
        case Fail(e) => (s1, Fail(e))
        case Ok(p) =>
          match TagKind(p.t)
          case None => (s1, Fail(ErrorOf(-EBADMSG)))
          case Some(k) =>
            assert Message.Weight(s1.msg) < Message.Weight(s.msg);
            var (s2, r2) := Decode(s1, Representable(k), w);
            (s2, if r2.Ok? then Ok(VariantValue(r2.value)) else r2);
      if peeked.Trap? then (s1, Trap) else (ExitSpec(s2).0, r2)
  }

  /**
   * The branch for a type that is not representable: enter whatever
   * container comes next, trap on a dictionary's, decode, exit.
   */
  function DecodeInContainer(s: CtxState, t: CodableType, w: WordSize): (res: (CtxState, Result<Value>))
    requires Valid(s) && !t.Representable?
    ensures Valid(res.0) && res.0.msg.sealed == s.msg.sealed
    ensures Message.Weight(res.0.msg) <= Message.Weight(s.msg)
    ensures res.1.Ok? && s.msg.sealed && !Message.AtEndOfContainer(s.msg) ==>
              Message.Weight(res.0.msg) < Message.Weight(s.msg)
    ensures res.1.Ok? ==> HasType(res.1.value, t)
    decreases Message.Weight(s.msg), t, 2
  {
    var (s1, r1) := EnterSpec(s, None, None);
    if !r1.Ok? then (s1, Lift(r1))
    else if IsDecodingDict(s1) then (s1, Trap)
    else
      var (s2, r2) := DecodeFrom(s1, t, w);
      if !r2.Ok? then (s2, r2)
      else
        var (s3, r3) := ExitSpec(s2);
        if r3.Ok? then (s3, r2) else (s3, Lift(r3))
  }

  /**
   * `T(from: SystemdBusDecoderImpl)` for the non-representable types:
   * the integers read one value through a single-value container; arrays,
   * dictionaries and structs use the standard library's and the
   * synthesized `init(from:)`.
   */
  function DecodeFrom(s: CtxState, t: CodableType, w: WordSize): (res: (CtxState, Result<Value>))
    requires Valid(s) && !t.Representable?
    ensures Valid(res.0) && res.0.msg.sealed == s.msg.sealed
    ensures Message.Weight(res.0.msg) <= Message.Weight(s.msg)
    ensures res.1.Ok? ==> HasType(res.1.value, t)
    decreases Message.Weight(s.msg), t, 1
  {
    match t
    case ArrayOf(_) => DecodeElements(s, t, [], w)
    case DictionaryOf(kt, vt) =>
      if Encoder.KeyedDictionary(kt) then (s, Ok(DictionaryValue(kt, vt, [])))
      else DecodePairs(s, t, [], w)
    case StructOf(_) => DecodeFields(s, t, [], w)
    case IntType => ReadInteger(s, t, w)
    case Int8Type => ReadInteger(s, t, w)
    case UIntType => ReadInteger(s, t, w)
  }

  /** `Array.init(from:)`: decode elements through the unkeyed container until it is at its end. */
  function DecodeElements(s: CtxState, t: CodableType, acc: seq<Value>, w: WordSize): (res: (CtxState, Result<Value>))
    requires Valid(s) && t.ArrayOf?
    requires forall i :: 0 <= i < |acc| ==> HasType(acc[i], t.element)
    ensures Valid(res.0) && res.0.msg.sealed == s.msg.sealed
    ensures Message.Weight(res.0.msg) <= Message.Weight(s.msg)
    ensures res.1.Ok? ==> HasType(res.1.value, t)
    decreases Message.Weight(s.msg), t, 0
  {
    if IsAtEndSpec(s) then (s, Ok(ArrayValue(t.element, acc)))
    else
      var (s1, r1) := Decode(s, t.element, w);
      if !r1.Ok? then (s1, r1)
      else DecodeElements(s1, t, acc + [r1.value], w)
  }

  /**
   * `Dictionary.init(from:)` for keys other than String and Int: keys and
   * values alternate in the unkeyed container; a key with no value after
   * it is corrupt data; a repeated key keeps the later value.
   */
  function DecodePairs(s: CtxState, t: CodableType, acc: seq<(Value, Value)>, w: WordSize): (res: (CtxState, Result<Value>))
    requires Valid(s) && t.DictionaryOf? && EntriesTyped(acc, t.key, t.value)
    ensures Valid(res.0) && res.0.msg.sealed == s.msg.sealed
    ensures Message.Weight(res.0.msg) <= Message.Weight(s.msg)
    ensures res.1.Ok? ==> HasType(res.1.value, t)
    decreases Message.Weight(s.msg), t, 0
  {
    if IsAtEndSpec(s) then (s, Ok(DictionaryValue(t.key, t.value, acc)))
    else
      var (s1, rk) := Decode(s, t.key, w);
      if !rk.Ok? then (s1, rk)
      else if IsAtEndSpec(s1) then (s1, Fail(DataCorrupted))
      else
        var (s2, rv) := Decode(s1, t.value, w);
        if !rv.Ok? then (s2, rv)
        else
          AssignTyped(acc, rk.value, rv.value, t.key, t.value);
          DecodePairs(s2, t, Assign(acc, rk.value, rv.value), w)
  }

  /** The synthesized `init(from:)` of a struct: each field in order, through the keyed container. */
  function DecodeFields(s: CtxState, t: CodableType, acc: seq<Value>, w: WordSize): (res: (CtxState, Result<Value>))
    requires Valid(s) && t.StructOf? && |acc| <= |t.fields|
    requires forall i :: 0 <= i < |acc| ==> HasType(acc[i], t.fields[i])
    ensures Valid(res.0) && res.0.msg.sealed == s.msg.sealed
    ensures Message.Weight(res.0.msg) <= Message.Weight(s.msg)
    ensures res.1.Ok? ==> HasType(res.1.value, t)
    decreases Message.Weight(s.msg), t, 0, |t.fields| - |acc|
  {
    if |acc| == |t.fields| then (s, Ok(StructValue(acc)))
    else
      var (s1, r1) := DecodeField(s, t.fields[|acc|], w);
      if !r1.Ok? then (s1, r1)
      else DecodeFields(s1, t, acc + [r1.value], w)
  }

  /**
   * `decode(_:forKey:)`: the concrete integer overloads read one
   * fixed-width value; every other type goes through the static decode.
   */
  function DecodeField(s: CtxState, t: CodableType, w: WordSize): (res: (CtxState, Result<Value>))
    requires Valid(s)
    ensures Valid(res.0) && res.0.msg.sealed == s.msg.sealed
    ensures Message.Weight(res.0.msg) <= Message.Weight(s.msg)
    ensures res.1.Ok? ==> HasType(res.1.value, t)
    decreases Message.Weight(s.msg), t, 4
  {
    if IsIntType(t) then ReadInteger(s, t, w) else Decode(s, t, w)
  }

  /** `SystemdBusDecoder.decode(_:from:)`: a fresh context on the message, then the static decode. */
  function DecodeMessage(m: Message.MsgState, t: CodableType, w: WordSize): (res: Result<Value>)
    requires Message.Valid(m)
    ensures res.Ok? ==> HasType(res.value, t)
  {
    Decode(NewContext(m), t, w).1
  }

  // ----- reading back what the encoder wrote -----

  /** `SystemdBusType(rawValue:)` over the characters of tags plus the NUL gives the tags and `Invalid`. */
  lemma {:induction false} TagsOfRawValues(tags: seq<SystemdBusType>)
    ensures TagsOf(RawValues(tags) + [0]) == Some(tags + [Invalid])
  {
    if tags == [] {
      var codes := [0];
      assert codes[1..] == [];
      var rest := TagsOf(codes[1..]);
      assert rest == Some([]);
      var first := FromRawValue(codes[0]);
      assert first == Some(Invalid);
      assert TagsOf(codes) == Some([first.value] + rest.value);
      assert [first.value] + rest.value == [Invalid];
      assert RawValues(tags) + [0] == codes;
      assert tags + [Invalid] == [Invalid];
    } else {
      RawValueRoundTrip(tags[0]);
      TagsOfRawValues(tags[1..]);
      assert (RawValues(tags) + [0])[1..] == RawValues(tags[1..]) + [0];
      assert [tags[0]] + (tags[1..] + [Invalid]) == tags + [Invalid];
    }
  }

  /** Peeking at a container whose signature spells known tags reports its tag and those tags. */
  lemma PeekContainer(s: CtxState, c: SystemdBusType, tags: seq<SystemdBusType>, items: seq<Message.Elem>)
    requires Valid(s) && s.msg.sealed && !Message.AtEndOfContainer(s.msg)
    requires Message.Next(s.msg) == Message.Container(RawValue(c), RawValues(tags), items)
    ensures PeekTypeSpec(s) == Ok(Peeked(1, c, Some(tags)))
  {
    RawValueRoundTrip(c);
    TagsOfRawValues(tags);
    assert DropLast(tags + [Invalid]) == tags;
  }

  /** The context after entering the next element, a container. */
  function Entered(s: CtxState, c: SystemdBusType, tags: seq<SystemdBusType>, items: seq<Message.Elem>): CtxState
    requires Valid(s) && s.msg.sealed && !Message.AtEndOfContainer(s.msg)
  {
    var m := Message.Advance(s.msg);
    s.(msg := m.(cursor := m.cursor + [Message.ReadFrame(RawValue(c), items, 0)]),
       level := s.level + 1, current := c, contents := Some(tags))
  }

  /** `enterContainer()` with no arguments enters the container that comes next, whatever it is. */
  lemma EnterContainerNext(s: CtxState, c: SystemdBusType, tags: seq<SystemdBusType>, items: seq<Message.Elem>)
    requires Valid(s) && s.msg.sealed && !Message.AtEndOfContainer(s.msg) && Invalid !in tags
    requires Message.Next(s.msg) == Message.Container(RawValue(c), RawValues(tags), items)
    ensures EnterSpec(s, None, None) == (Entered(s, c, tags, items), Ok(1))
  {
    PeekContainer(s, c, tags, items);
    SignatureArgOfTags(tags);
  }

  /** Leaving a container once all of it is read returns to the element after it. */
  lemma ExitEntered(s: CtxState, c: SystemdBusType, tags: seq<SystemdBusType>, items: seq<Message.Elem>, s2: CtxState)
    requires Valid(s) && s.msg.sealed && !Message.AtEndOfContainer(s.msg)
    requires var e := Entered(s, c, tags, items);
             s2.msg == e.msg.(cursor := e.msg.cursor[|e.msg.cursor| - 1 := Message.ReadFrame(RawValue(c), items, |items|)])
    ensures ExitSpec(s2).1 == Ok(()) && ExitSpec(s2).0.msg == Message.Advance(s.msg)
    ensures ExitSpec(s2).0.level == s2.level - 1
  {
    var m := Message.Advance(s.msg);
    assert s2.msg.cursor[..|s2.msg.cursor| - 1] == m.cursor;
  }

  /** Every value the dispatch can write fits the word size, whatever it is. */
  lemma {:induction false} EncodableFitsWord(v: Value, w: WordSize)
    requires Encoder.Encodable(v)
    ensures FitsWord(v, w)
  {
    match v
    case ScalarValue(_) =>
    case VariantValue(p) => EncodableFitsWord(p, w);
    case ArrayValue(_, es) =>
      forall i | 0 <= i < |es|
        ensures FitsWord(es[i], w)
      {
        EncodableFitsWord(es[i], w);
      }
  }

  /**
   * Decoding, as its static type, a value the encoder wrote gives that
   * value back, moves past its element and leaves the level as it was.
   */
  lemma {:induction false} DecodeWire(s: CtxState, v: Value, t: CodableType, w: WordSize)
    requires Valid(s) && s.msg.sealed && !Message.AtEndOfContainer(s.msg)
    requires Encoder.Encodable(v) && HasType(v, t)
    requires Message.Next(s.msg) == Encoder.Wire(v)
    ensures Decode(s, t, w).1 == Ok(v)
    ensures Decode(s, t, w).0.msg == Message.Advance(s.msg) && Decode(s, t, w).0.level == s.level
    decreases v, 1
  {
    match v
    case ScalarValue(sc) =>
      ScalarRoundTrip(sc);
    case VariantValue(p) =>
      VariantDecodes(s, p, w);
    case ArrayValue(e, es) =>
      ArrayDecodes(s, v, w);
  }

  /** A written variant is a container whose signature spells the tag of its payload. */
  lemma VariantWireShape(p: Value)
    requires Encoder.Encodable(VariantValue(p))
    ensures Encoder.Wire(VariantValue(p)) ==
              Message.Container(RawValue(Variant), RawValues([TypeOfAnyValue(Instance(p))]), [Encoder.Wire(p)])
  {
    assert RawValues([TypeOfAnyValue(Instance(p))]) == [RawValue(TypeOfAnyValue(Instance(p)))];
  }

  /** A written array is an array container whose signature spells its element tag. */
  lemma ArrayWireShape(v: Value)
    requires v.ArrayValue? && Encoder.Encodable(v)
    ensures Encoder.Wire(v) == Message.Container(RawValue(Array), RawValues([CodableTypeTag(v.element)]), Encoder.WireElements(v, 0))
  {
    assert RawValues([CodableTypeTag(v.element)]) == [RawValue(CodableTypeTag(v.element))];
  }

  /** The variant path once its container is entered and its content has a representable kind. */
  lemma VariantUnfold(s: CtxState, w: WordSize, s1: CtxState, k: Kind, s2: CtxState, x: Value)
    requires Valid(s) && EnterSpec(s, None, None) == (s1, Ok(1))
    requires PeekTypeSpec(s1).Ok? && TagKind(PeekTypeSpec(s1).value.t) == Some(k)
    requires Decode(s1, Representable(k), w) == (s2, Ok(x))
    ensures DecodeVariant(s, w) == (ExitSpec(s2).0, Ok(VariantValue(x)))
  {
  }

  /** The variant path when the entered content has no representable kind. */
  lemma VariantNoKind(s: CtxState, w: WordSize, s1: CtxState)
    requires Valid(s) && EnterSpec(s, None, None) == (s1, Ok(1))
    requires PeekTypeSpec(s1).Ok? && TagKind(PeekTypeSpec(s1).value.t).None?
    ensures DecodeVariant(s, w).1 == Fail(ErrorOf(-EBADMSG))
  {
  }

  /** The container path when what was entered is a dictionary's array. */
  lemma InContainerOnDict(s: CtxState, t: CodableType, w: WordSize, s1: CtxState)
    requires Valid(s) && !t.Representable? && EnterSpec(s, None, None) == (s1, Ok(1)) && IsDecodingDict(s1)
    ensures Decode(s, t, w) == (s1, Trap)
  {
    assert DecodeInContainer(s, t, w) == (s1, Trap);
  }

  /** The container path when the contents decode and the exit succeeds. */
  lemma InContainerUnfold(s: CtxState, t: CodableType, w: WordSize, s1: CtxState, s2: CtxState, x: Value)
    requires Valid(s) && !t.Representable? && EnterSpec(s, None, None) == (s1, Ok(1)) && !IsDecodingDict(s1)
    requires DecodeFrom(s1, t, w) == (s2, Ok(x)) && ExitSpec(s2).1 == Ok(())
    ensures Decode(s, t, w) == (ExitSpec(s2).0, Ok(x))
  {
    assert DecodeInContainer(s, t, w) == (ExitSpec(s2).0, Ok(x));
  }

  /** Peeking at a written scalar or variant reports the registry tag of its kind. */
  lemma PeekRepresentable(s: CtxState, p: Value)
    requires Valid(s) && s.msg.sealed && !Message.AtEndOfContainer(s.msg)
    requires (p.ScalarValue? || p.VariantValue?) && Encoder.Encodable(p)
    requires Message.Next(s.msg) == Encoder.Wire(p)
    ensures PeekTypeSpec(s).Ok? && PeekTypeSpec(s).value.t == KindTag(KindOfValue(p).value)
  {
    match p
    case ScalarValue(sc) =>
      assert Encoder.Wire(p) == ScalarElem(sc) && KindOfValue(p) == Some(KindOf(sc));
      PeekScalar(s, sc);
    case VariantValue(q) =>
      assert KindOfValue(p) == Some(VariantKind) && KindTag(VariantKind) == Variant;
      PeekVariant(s, q);
  }

  /** Peeking at a written variant reports the variant tag. */
  lemma PeekVariant(s: CtxState, q: Value)
    requires Valid(s) && s.msg.sealed && !Message.AtEndOfContainer(s.msg)
    requires Encoder.Encodable(VariantValue(q)) && Message.Next(s.msg) == Encoder.Wire(VariantValue(q))
    ensures PeekTypeSpec(s).Ok? && PeekTypeSpec(s).value.t == Variant
  {
    VariantWireShape(q);
    PeekContainer(s, Variant, [TypeOfAnyValue(Instance(q))], [Encoder.Wire(q)]);
  }

  /** Peeking at a written scalar reports the registry tag of its kind. */
  lemma PeekScalar(s: CtxState, sc: Scalar)
    requires Valid(s) && s.msg.sealed && !Message.AtEndOfContainer(s.msg)
    requires Message.Next(s.msg) == ScalarElem(sc)
    ensures PeekTypeSpec(s).Ok? && PeekTypeSpec(s).value.t == KindTag(KindOf(sc))
  {
    RawValueRoundTrip(KindTag(KindOf(sc)));
  }

  /** Entering a written variant shows its payload next, with the tag of the payload's kind. */
  lemma VariantEnters(s: CtxState, p: Value) returns (s1: CtxState)
    requires Valid(s) && s.msg.sealed && !Message.AtEndOfContainer(s.msg)
    requires (p.ScalarValue? || p.VariantValue?) && Encoder.Encodable(VariantValue(p))
    requires Message.Next(s.msg) == Encoder.Wire(VariantValue(p))
    ensures s1 == Entered(s, Variant, [TypeOfAnyValue(Instance(p))], [Encoder.Wire(p)])
    ensures EnterSpec(s, None, None) == (s1, Ok(1))
    ensures Valid(s1) && s1.msg.sealed && !Message.AtEndOfContainer(s1.msg) && Message.Next(s1.msg) == Encoder.Wire(p)
    ensures PeekTypeSpec(s1).Ok? && TagKind(PeekTypeSpec(s1).value.t) == KindOfValue(p)
    ensures Message.Advance(s1.msg) ==
              s1.msg.(cursor := s1.msg.cursor[|s1.msg.cursor| - 1 := Message.ReadFrame(RawValue(Variant), [Encoder.Wire(p)], 1)])
  {
    var tags := [TypeOfAnyValue(Instance(p))];
    var items := [Encoder.Wire(p)];
    VariantWireShape(p);
    EnterContainerNext(s, Variant, tags, items);
    s1 := Entered(s, Variant, tags, items);
    PeekRepresentable(s1, p);
    KindTagRoundTrip(KindOfValue(p).value);
  }

  /** The payload of a variant that reads back reads back, as its own kind. */
  lemma VariantPayload(p: Value)
    requires Encoder.Encodable(VariantValue(p))
    ensures Encoder.Encodable(p) && KindOfValue(p).Some? && HasType(p, Representable(KindOfValue(p).value))
  {
  }

  /** Inside a written variant the payload reads back as its own kind and the variant is left behind. */
  lemma {:induction false} PayloadDecodes(s: CtxState, p: Value, w: WordSize) returns (s1: CtxState, s2: CtxState)
    requires Valid(s) && s.msg.sealed && !Message.AtEndOfContainer(s.msg)
    requires Encoder.Encodable(VariantValue(p))
    requires Message.Next(s.msg) == Encoder.Wire(VariantValue(p))
    ensures KindOfValue(p).Some? && EnterSpec(s, None, None) == (s1, Ok(1))
    ensures PeekTypeSpec(s1).Ok? && TagKind(PeekTypeSpec(s1).value.t) == KindOfValue(p)
    ensures Decode(s1, Representable(KindOfValue(p).value), w) == (s2, Ok(p))
    ensures ExitSpec(s2).1 == Ok(()) && ExitSpec(s2).0.msg == Message.Advance(s.msg) && ExitSpec(s2).0.level == s.level
    decreases VariantValue(p), 0, 0
  {
    s1 := VariantEnters(s, p);
    var k := KindOfValue(p).value;
    VariantPayload(p);
    DecodeWire(s1, p, Representable(k), w);
    s2 := Decode(s1, Representable(k), w).0;
    ExitEntered(s, Variant, [TypeOfAnyValue(Instance(p))], [Encoder.Wire(p)], s2);
  }

  lemma {:induction false} VariantDecodes(s: CtxState, p: Value, w: WordSize)
    requires Valid(s) && s.msg.sealed && !Message.AtEndOfContainer(s.msg)
    requires Encoder.Encodable(VariantValue(p))
    requires Message.Next(s.msg) == Encoder.Wire(VariantValue(p))
    ensures DecodeVariant(s, w).1 == Ok(VariantValue(p))
    ensures DecodeVariant(s, w).0.msg == Message.Advance(s.msg) && DecodeVariant(s, w).0.level == s.level
    decreases VariantValue(p), 0, 1
  {
    var s1, s2 := PayloadDecodes(s, p, w);
    VariantUnfold(s, w, s1, KindOfValue(p).value, s2, p);
  }

  /** Entering a written array shows its elements from the first, and it is not a dictionary's. */
  lemma ArrayEnters(s: CtxState, v: Value) returns (s1: CtxState)
    requires Valid(s) && s.msg.sealed && !Message.AtEndOfContainer(s.msg)
    requires v.ArrayValue? && Encoder.Encodable(v)
    requires Message.Next(s.msg) == Encoder.Wire(v)
    ensures s1 == Entered(s, Array, [CodableTypeTag(v.element)], Encoder.WireElements(v, 0))
    ensures EnterSpec(s, None, None) == (s1, Ok(1)) && !IsDecodingDict(s1)
    ensures Valid(s1) && s1.msg.sealed && s1.level == s.level + 1
    ensures Message.Top(s1.msg) == Message.ReadFrame(Message.ARRAY_CODE, Encoder.WireElements(v, 0), 0)
  {
    var tags := [CodableTypeTag(v.element)];
    var items := Encoder.WireElements(v, 0);
    ArrayWireShape(v);
    EnterContainerNext(s, Array, tags, items);
    s1 := Entered(s, Array, tags, items);
  }

  lemma {:induction false} ArrayDecodes(s: CtxState, v: Value, w: WordSize)
    requires Valid(s) && s.msg.sealed && !Message.AtEndOfContainer(s.msg)
    requires v.ArrayValue? && Encoder.Encodable(v) && HasType(v, ArrayOf(v.element))
    requires Message.Next(s.msg) == Encoder.Wire(v)
    ensures Decode(s, ArrayOf(v.element), w).1 == Ok(v)
    ensures Decode(s, ArrayOf(v.element), w).0.msg == Message.Advance(s.msg)
    ensures Decode(s, ArrayOf(v.element), w).0.level == s.level
    decreases v, 0
  {
    var t := ArrayOf(v.element);
    var s1 := ArrayEnters(s, v);
    assert v.elements[..0] == [];
    ElementsDecode(s1, v, 0, w);
    var s2 := DecodeElements(s1, t, [], w).0;
    assert DecodeFrom(s1, t, w) == (s2, Ok(v));
    ExitEntered(s, Array, [CodableTypeTag(v.element)], Encoder.WireElements(v, 0), s2);
    InContainerUnfold(s, t, w, s1, s2, v);
  }

  /** The message with its innermost cursor moved to position `pos`. */
  function MovedTo(m: Message.MsgState, pos: nat): Message.MsgState
    requires Message.Valid(m) && m.sealed
  {
    m.(cursor := m.cursor[|m.cursor| - 1 := Message.Top(m).(pos := pos)])
  }

  lemma MovedToTop(m: Message.MsgState)
    requires Message.Valid(m) && m.sealed
    ensures MovedTo(m, Message.Top(m).pos) == m
  {
    assert m.cursor[|m.cursor| - 1 := Message.Top(m)] == m.cursor;
  }

  lemma MovedAgain(m: Message.MsgState, a: nat, b: nat)
    requires Message.Valid(m) && m.sealed && a <= |Message.Top(m).items|
    ensures Message.Valid(MovedTo(m, a)) && MovedTo(m, a).sealed
    ensures MovedTo(MovedTo(m, a), b) == MovedTo(m, b)
  {
    var m1 := MovedTo(m, a);
    assert forall i :: 0 <= i < |m1.cursor| ==> m1.cursor[i].pos <= |m1.cursor[i].items|;
    assert m1.cursor[|m1.cursor| - 1 := Message.Top(m1).(pos := b)] == m.cursor[|m.cursor| - 1 := Message.Top(m).(pos := b)];
  }

  /** The unkeyed loop reads a written element back and goes on with it appended. */
  lemma ElementReadsBack(s: CtxState, t: CodableType, acc: seq<Value>, e: Value, w: WordSize) returns (s1: CtxState)
    requires Valid(s) && s.msg.sealed && !Message.AtEndOfContainer(s.msg) && t.ArrayOf?
    requires forall i :: 0 <= i < |acc| ==> HasType(acc[i], t.element)
    requires Encoder.Encodable(e) && HasType(e, t.element)
    requires Message.Next(s.msg) == Encoder.Wire(e)
    ensures Valid(s1) && s1.msg.sealed && s1.level == s.level && s1.msg == Message.Advance(s.msg)
    ensures DecodeElements(s, t, acc, w) == DecodeElements(s1, t, acc + [e], w)
    decreases e, 2
  {
    DecodeWire(s, e, t.element, w);
    s1 := Decode(s, t.element, w).0;
    ElementsUnfold(s, t, acc, w, s1, e);
  }

  /** The element the position of a written array points at is that array's next element. */
  lemma NextElement(s: CtxState, v: Value, j: nat)
    requires Valid(s) && s.msg.sealed && v.ArrayValue? && Encoder.Encodable(v) && j < |v.elements|
    requires Message.Top(s.msg) == Message.ReadFrame(Message.ARRAY_CODE, Encoder.WireElements(v, 0), j)
    ensures !Message.AtEndOfContainer(s.msg) && Message.Next(s.msg) == Encoder.Wire(v.elements[j])
    ensures Message.Advance(s.msg) == MovedTo(s.msg, j + 1)
    ensures Message.Top(MovedTo(s.msg, j + 1)) == Message.ReadFrame(Message.ARRAY_CODE, Encoder.WireElements(v, 0), j + 1)
  {
    NextInFrame(s.msg, Message.ARRAY_CODE, Encoder.WireElements(v, 0), j);
    Encoder.WireElementAt(v, 0, j);
  }

  /** Reading position j of a container yields its j-th element and moves the position to j + 1. */
  lemma NextInFrame(m: Message.MsgState, code: int, items: seq<Message.Elem>, j: nat)
    requires Message.Valid(m) && m.sealed && j < |items| && Message.Top(m) == Message.ReadFrame(code, items, j)
    ensures !Message.AtEndOfContainer(m) && Message.Next(m) == items[j]
    ensures Message.Advance(m) == MovedTo(m, j + 1)
    ensures Message.Top(MovedTo(m, j + 1)) == Message.ReadFrame(code, items, j + 1)
  {
  }

  /** The elements of an array that reads back read back, have its element type, and so does a prefix of them. */
  lemma ElementTyped(v: Value, j: nat)
    requires v.ArrayValue? && Encoder.Encodable(v) && HasType(v, ArrayOf(v.element))
    requires j < |v.elements|
    ensures Encoder.Encodable(v.elements[j]) && HasType(v.elements[j], v.element)
    ensures forall i :: 0 <= i < j ==> HasType(v.elements[..j][i], v.element)
    ensures v.elements[..j] + [v.elements[j]] == v.elements[..j + 1]
  {
    forall i | 0 <= i < j ensures HasType(v.elements[..j][i], v.element) {
      assert v.elements[..j][i] == v.elements[i];
    }
  }

  /**
   * One turn of the unkeyed loop over a written array: the next element
   * reads back and the array's position moves by one.
   */
  lemma ElementStep(s: CtxState, v: Value, j: nat, w: WordSize) returns (s1: CtxState)
    requires Valid(s) && s.msg.sealed && v.ArrayValue? && Encoder.Encodable(v) && HasType(v, ArrayOf(v.element))
    requires j < |v.elements|
    requires Message.Top(s.msg) == Message.ReadFrame(Message.ARRAY_CODE, Encoder.WireElements(v, 0), j)
    ensures Valid(s1) && s1.msg.sealed && s1.level == s.level && s1.msg == MovedTo(s.msg, j + 1)
    ensures Message.Top(s1.msg) == Message.ReadFrame(Message.ARRAY_CODE, Encoder.WireElements(v, 0), j + 1)
    ensures DecodeElements(s, ArrayOf(v.element), v.elements[..j], w) == DecodeElements(s1, ArrayOf(v.element), v.elements[..j + 1], w)
    decreases v, 0, 0
  {
    NextElement(s, v, j);
    ElementTyped(v, j);
    s1 := ElementReadsBack(s, ArrayOf(v.element), v.elements[..j], v.elements[j], w);
  }

  /** At the end of the array's container the loop stops with what it has read. */
  lemma ElementsAtEnd(s: CtxState, t: CodableType, acc: seq<Value>, w: WordSize)
    requires Valid(s) && t.ArrayOf? && forall i :: 0 <= i < |acc| ==> HasType(acc[i], t.element)
    requires IsAtEndSpec(s)
    ensures DecodeElements(s, t, acc, w) == (s, Ok(ArrayValue(t.element, acc)))
  {
  }

  /** Past the end, the loop decodes one element and goes on with it appended. */
  lemma ElementsUnfold(s: CtxState, t: CodableType, acc: seq<Value>, w: WordSize, s1: CtxState, e: Value)
    requires Valid(s) && t.ArrayOf? && forall i :: 0 <= i < |acc| ==> HasType(acc[i], t.element)
    requires !IsAtEndSpec(s) && Decode(s, t.element, w) == (s1, Ok(e))
    ensures Valid(s1) && HasType(e, t.element)
    ensures DecodeElements(s, t, acc, w) == DecodeElements(s1, t, acc + [e], w)
  {
  }

  /** Once every element of a written array is read, the loop returns the array. */
  lemma ElementsDone(s: CtxState, v: Value, w: WordSize)
    requires Valid(s) && s.msg.sealed && v.ArrayValue? && Encoder.Encodable(v) && HasType(v, ArrayOf(v.element))
    requires Message.Top(s.msg) == Message.ReadFrame(Message.ARRAY_CODE, Encoder.WireElements(v, 0), |v.elements|)
    ensures var res := DecodeElements(s, ArrayOf(v.element), v.elements[..|v.elements|], w);
            res.1 == Ok(v) && res.0.level == s.level && res.0.msg == MovedTo(s.msg, |v.elements|)
  {
    assert v.elements[..|v.elements|] == v.elements;
    ElementsAtEnd(s, ArrayOf(v.element), v.elements, w);
    MovedToTop(s.msg);
  }

  /** The unkeyed loop reads the remaining elements back, in order. */
  lemma {:induction false} ElementsDecode(s: CtxState, v: Value, j: nat, w: WordSize)
    requires Valid(s) && s.msg.sealed && v.ArrayValue? && Encoder.Encodable(v) && HasType(v, ArrayOf(v.element))
    requires j <= |v.elements|
    requires Message.Top(s.msg) == Message.ReadFrame(Message.ARRAY_CODE, Encoder.WireElements(v, 0), j)
    ensures var res := DecodeElements(s, ArrayOf(v.element), v.elements[..j], w);
            res.1 == Ok(v) && res.0.level == s.level
            && res.0.msg == MovedTo(s.msg, |v.elements|)
    decreases v, 0, |v.elements| - j
  {
    if j == |v.elements| {
      ElementsDone(s, v, w);
    } else {
      var s1 := ElementStep(s, v, j, w);
      ElementsDecode(s1, v, j + 1, w);
      MovedAgain(s.msg, j + 1, |v.elements|);
    }
  }

  /** Written into a new message, an encodable value leaves exactly its element in the body. */
  lemma EncodeIntoNew(v: Value, w: WordSize)
    requires Encoder.Encodable(v) && FitsWord(v, w)
    ensures var (s1, r) := Encoder.Encode(NewContext(Message.New()), v, w);
            r == Ok(()) && Message.Seal(s1.msg) == (0, Message.Received([Encoder.Wire(v)]))
  {
    var s0 := NewContext(Message.New());
    Encoder.EncodeOutcome(s0, v, w);
    Encoder.EncodeWrites(s0, v, w);
    var s1 := Encoder.Encode(s0, v, w).0;
    assert s1.msg == Message.AddItem(s0.msg, Encoder.Wire(v));
    assert s1.msg.body == [Encoder.Wire(v)] && s1.msg.open == [];
  }

  /** A received message holding one written value decodes to that value. */
  lemma DecodeReceived(v: Value, t: CodableType, w: WordSize)
    requires Encoder.Encodable(v) && HasType(v, t)
    ensures DecodeMessage(Message.Received([Encoder.Wire(v)]), t, w) == Ok(v)
  {
    var m := Message.Received([Encoder.Wire(v)]);
    assert Message.Top(m) == Message.ReadFrame(0, [Encoder.Wire(v)], 0);
    DecodeWire(NewContext(m), v, t, w);
  }

  /**
   * The round trip: a value the static encoder writes into a new message
   * succeeds, and once the message is sealed the static decoder reads the
   * value back as its own type.
   */
  lemma EncodeDecodeRoundTrip(v: Value, t: CodableType, w: WordSize)
    requires Encoder.Encodable(v) && HasType(v, t)
    ensures FitsWord(v, w)
    ensures var (s1, r) := Encoder.Encode(NewContext(Message.New()), v, w);
            r == Ok(()) && Message.Seal(s1.msg) == (0, Message.Received([Encoder.Wire(v)]))
    ensures DecodeMessage(Message.Received([Encoder.Wire(v)]), t, w) == Ok(v)
  {
    EncodableFitsWord(v, w);
    EncodeIntoNew(v, w);
    DecodeReceived(v, t, w);
  }

  /**
   * Whatever non-representable type it is decoded as, a received array of
   * dict entries stops the decoder: entering it shows contents starting
   * with a dict entry, and the static decode traps on those.
   */
  lemma DictionaryTraps(s: CtxState, tags: seq<SystemdBusType>, items: seq<Message.Elem>, t: CodableType, w: WordSize)
    requires Valid(s) && s.msg.sealed && !Message.AtEndOfContainer(s.msg)
    requires Invalid !in tags && tags != [] && tags[0] == DictEntryBegin && !t.Representable?
    requires Message.Next(s.msg) == Message.Container(RawValue(Array), RawValues(tags), items)
    ensures Decode(s, t, w).1 == Trap
  {
    EnterContainerNext(s, Array, tags, items);
    var s1 := Entered(s, Array, tags, items);
    assert IsDecodingDict(s1);
    InContainerOnDict(s, t, w, s1);
  }

  /**
   * A received variant holding an array does not decode: inside it the
   * decoder peeks an array, which has no representable kind, so it fails
   * with EBADMSG.
   */
  lemma VariantOfArrayFails(s: CtxState, vtags: seq<SystemdBusType>, atags: seq<SystemdBusType>,
                            items: seq<Message.Elem>, w: WordSize)
    requires Valid(s) && s.msg.sealed && !Message.AtEndOfContainer(s.msg)
    requires Invalid !in vtags
    requires Message.Next(s.msg) ==
               Message.Container(RawValue(Variant), RawValues(vtags), [Message.Container(RawValue(Array), RawValues(atags), items)])
    ensures Decode(s, Representable(VariantKind), w).1 == Fail(ErrorOf(-EBADMSG))
  {
    var inner := [Message.Container(RawValue(Array), RawValues(atags), items)];
    EnterContainerNext(s, Variant, vtags, inner);
    var s1 := Entered(s, Variant, vtags, inner);
    PeekContainer(s1, Array, atags, items);
    assert TagKind(Array).None?;
    VariantNoKind(s, w, s1);
  }

  /**
   * At the end of an array, decoding an array or a struct with no fields
   * still succeeds: `enterContainer` returns 0 without entering, the empty
   * value is built, and `exitContainer` then leaves the enclosing array,
   * so the level ends one below where it started.
   */
  lemma EmptyAtArrayEndLeavesArray(s: CtxState, t: CodableType, w: WordSize)
    requires Valid(s) && s.msg.sealed && Message.AtEndOfContainer(s.msg)
    requires Message.Top(s.msg).code == Message.ARRAY_CODE && |s.msg.cursor| > 1
    requires t.ArrayOf? || t == StructOf([])
    ensures Decode(s, t, w).1 == Ok(if t.ArrayOf? then ArrayValue(t.element, []) else StructValue([]))
    ensures Decode(s, t, w).0.level == s.level - 1
    ensures Decode(s, t, w).0.msg == s.msg.(cursor := s.msg.cursor[..|s.msg.cursor| - 1])
  {
    var (s1, r1) := EnterSpec(s, None, None);
    assert PeekTypeSpec(s) == Ok(Peeked(0, Invalid, None));
    assert r1 == Ok(0) && s1.msg == s.msg && s1.level == s.level;
    assert s1.current == Invalid;
    if t.ArrayOf? {
      assert IsAtEndSpec(s1);
      ElementsAtEnd(s1, t, [], w);
      assert DecodeFrom(s1, t, w) == (s1, Ok(ArrayValue(t.element, [])));
    } else {
      assert DecodeFields(s1, t, [], w) == (s1, Ok(StructValue([])));
      assert DecodeFrom(s1, t, w) == (s1, Ok(StructValue([])));
    }
    var (s2, r2) := DecodeFrom(s1, t, w);
    var (s3, r3) := ExitSpec(s2);
    assert r3.Ok?;
    assert DecodeInContainer(s, t, w) == (s3, r2);
  }
}
