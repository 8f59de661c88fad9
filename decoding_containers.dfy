/**
 * The decoding side as the program runs it: `SystemdBusDecoderImpl`, its
 * three coding containers (the files under Decoder/Container) and the
 * static `SystemdBusTypeContext.decode` they call back into, all reading
 * from one shared `SystemdBusTypeContext`. Each method is proved against
 * the function in module Decoder that describes it, so what is proved
 * there (the round trip, the dictionary trap, the variant quirks) holds of
 * these methods.
 *
 * The standard library's `Array.init(from:)`, `Dictionary.init(from:)`
 * and a struct's synthesized `init(from:)` are written out as the loops
 * they are, since they are what drives the containers.
 */
module DecodingContainers {
  import opened Wrappers
  import opened BusError
  import opened CTypes
  import opened BusType
  import opened TypeRepresentable
  import opened TypeContext
  import opened Decoder
  import opened Dictionaries
  import opened EncodingContainers
  import Message
  import Encoder

  /** The representable kinds with a concrete `decode(_:)` overload on the containers. */
  predicate HasOverload(k: Kind)
  {
    k in {BoolKind, StringKind, DoubleKind, Int16Kind, Int32Kind, Int64Kind,
          UInt8Kind, UInt16Kind, UInt32Kind, UInt64Kind}
  }

  /**
   * The static types whose unkeyed decode goes through `_decode`, the only
   * path that moves `currentIndex`: `Bool`, `String`, `Double`, the
   * unsigned integers, and `Int8` and `UInt`, which are read as unsigned.
   * `Int` and the signed fixed-width integers call the context directly;
   * generic types use the static decode.
   */
  predicate Advances(t: CodableType)
  {
    match t
    case Representable(k) => k in {BoolKind, StringKind, DoubleKind, UInt8Kind, UInt16Kind, UInt32Kind, UInt64Kind}
    case Int8Type => true
    case UIntType => true
    case _ => false
  }

  /** The overload a container picks for a type Swift knows statically reads exactly what `DecodeField` describes. */
  lemma OverloadIsField(s: CtxState, k: Kind, w: WordSize)
    requires Valid(s) && HasOverload(k)
    ensures var (s1, r) := ReadScalarSpec(s, k);
            DecodeField(s, Representable(k), w) == (s1, if r.Ok? then Ok(ScalarValue(r.value)) else Lift(r))
  {
  }

  /** For a representable type, what a container's overload reads is what the static decode reads. */
  lemma OverloadIsDecode(s: CtxState, k: Kind, w: WordSize)
    requires Valid(s)
    ensures DecodeField(s, Representable(k), w) == Decoder.Decode(s, Representable(k), w)
  {
  }

  /** An integer overload is the read of its fixed-width kind by the static decode, then the conversion. */
  lemma IntegerViaKind(s: CtxState, t: CodableType, w: WordSize)
    requires Valid(s) && IsIntType(t)
    ensures var (s1, r) := Decoder.Decode(s, Representable(IntKind(t, w)), w);
            r.Ok? ==> r.value.ScalarValue? && KindOf(r.value.scalar) == IntKind(t, w)
    ensures var (s1, r) := Decoder.Decode(s, Representable(IntKind(t, w)), w);
            DecodeField(s, t, w) == (s1, if r.Ok? then Ok(IntFromScalar(t, r.value.scalar, w)) else r)
  {
  }

  /** `SystemdBusDecoderImpl`: hands out containers that all read from its one context. */
  class DecoderImpl {
    const context: SystemdBusTypeContext
    const codingPath: seq<CodingKey>
    const count: Option<int>

    constructor (ctx: SystemdBusTypeContext, path: seq<CodingKey>, n: Option<int>)
      ensures context == ctx && codingPath == path && count == n
    {
      context := ctx;
      codingPath := path;
      count := n;
    }

    /** `container(keyedBy:)`. */
    method KeyedContainer() returns (c: KeyedDecodingContainer)
      ensures fresh(c) && c.context == context && c.codingPath == codingPath
    {
      c := new KeyedDecodingContainer(context, codingPath);
    }

    /** `unkeyedContainer()`: the decoder's `count` is passed on. */
    method UnkeyedContainer() returns (c: UnkeyedDecodingContainer)
      ensures fresh(c) && c.context == context && c.codingPath == codingPath
      ensures c.count == count && c.currentIndex == 0
    {
      c := new UnkeyedDecodingContainer(context, codingPath, count);
    }

    /** `singleValueContainer()`. */
    method SingleValueContainer() returns (c: SingleValueDecodingContainer)
      ensures fresh(c) && c.context == context && c.codingPath == codingPath
    {
      c := new SingleValueDecodingContainer(context, codingPath);
    }
  }

  /** `KeyedSystemdBusDecodingContainer`: the binary form has no keys, so every key reads the next value. */
  class KeyedDecodingContainer {
    const context: SystemdBusTypeContext
    const codingPath: seq<CodingKey>

    constructor (ctx: SystemdBusTypeContext, path: seq<CodingKey>)
      ensures context == ctx && codingPath == path
    {
      context := ctx;
      codingPath := path;
    }

    /** `allKeys`: none. */
    method AllKeys() returns (keys: seq<CodingKey>)
      ensures keys == []
    {
      keys := [];
    }

    /** `contains(_:)`: every key is accepted. */
    method Contains(key: CodingKey) returns (b: bool)
      ensures b
    {
      b := true;
    }

    /** `nestedContainer(keyedBy:forKey:)`: same context, the key appended to the path. */
    method NestedContainer(key: CodingKey) returns (c: KeyedDecodingContainer)
      ensures fresh(c) && c.context == context && c.codingPath == codingPath + [key]
    {
      c := new KeyedDecodingContainer(context, codingPath + [key]);
    }

    /** `nestedUnkeyedContainer(forKey:)`: unlike the keyed one, the path does not get the key. */
    method NestedUnkeyedContainer(key: CodingKey) returns (c: UnkeyedDecodingContainer)
      ensures fresh(c) && c.context == context && c.codingPath == codingPath
      ensures c.count.None? && c.currentIndex == 0
    {
      c := new UnkeyedDecodingContainer(context, codingPath, None);
    }

    /** `superDecoder()` and `superDecoder(forKey:)`: both keep the path as it is. */
    method SuperDecoder(key: Option<CodingKey>) returns (d: DecoderImpl)
      ensures fresh(d) && d.context == context && d.codingPath == codingPath && d.count.None?
    {
      d := new DecoderImpl(context, codingPath, None);
    }

    /** `decodeNil(forKey:)`: the context's `decodeNil`, always false. */
    method DecodeNil(key: CodingKey) returns (isNil: bool)
      ensures isNil == Decoder.DecodeNil(context.State()) && !isNil
    {
      isNil := Decoder.DecodeNil(context.State());
    }

    /**
     * The `Int`, `Int8` and `UInt` overloads: `_decode` of the fixed-width
     * type (through the static decode, where it is representable), then
     * the conversion.
     */
    method DecodeInteger(t: CodableType, key: CodingKey, w: WordSize) returns (res: Result<Value>)
      requires context.Valid() && IsIntType(t)
      modifies context
      ensures context.Valid() && (context.State(), res) == DecodeField(old(context.State()), t, w)
    {
      IntegerViaKind(context.State(), t, w);
      var r := DecodeRepresentable(context, IntKind(t, w), w, codingPath + [key]);
      res := if r.Ok? then Ok(IntFromScalar(t, r.value.scalar, w)) else r;
    }

    /** The overloads for `Bool`, `String`, `Double` and the fixed-width integers: `_decode`, the static decode. */
    method DecodeScalar(k: Kind, key: CodingKey, w: WordSize) returns (res: Result<Value>)
      requires context.Valid() && HasOverload(k)
      modifies context
      ensures context.Valid() && (context.State(), res) == DecodeField(old(context.State()), Representable(k), w)
    {
      OverloadIsDecode(context.State(), k, w);
      res := DecodeRepresentable(context, k, w, codingPath + [key]);
    }

    /** `decode(_: some Decodable, forKey:)`: the static decode, the key added to the path. */
    method DecodeGeneric(t: CodableType, key: CodingKey, w: WordSize) returns (res: Result<Value>)
      requires context.Valid()
      modifies context
      ensures context.Valid() && (context.State(), res) == Decoder.Decode(old(context.State()), t, w)
      decreases Message.Weight(context.message), t, 4
    {
      res := DecodeValue(context, t, w, codingPath + [key]);
    }

    /** `decode(_:forKey:)` for a type Swift knows statically: the overload it picks. */
    method Decode(t: CodableType, key: CodingKey, w: WordSize) returns (res: Result<Value>)
      requires context.Valid()
      modifies context
      ensures context.Valid() && (context.State(), res) == DecodeField(old(context.State()), t, w)
      decreases Message.Weight(context.message), t, 5
    {
      if IsIntType(t) {
        res := DecodeInteger(t, key, w);
      } else if t.Representable? && HasOverload(t.kind) {
        res := DecodeScalar(t.kind, key, w);
      } else {
        res := DecodeGeneric(t, key, w);
      }
    }
  }

  /**
   * `UnkeyedSystemdBusDecodingContainer`: `currentIndex` counts the reads
   * made through `_decode`; `count` is what the decoder passed in, and the
   * decoders in this program always pass none.
   */
  class UnkeyedDecodingContainer {
    const context: SystemdBusTypeContext
    const codingPath: seq<CodingKey>
    const count: Option<int>
    var currentIndex: int

    constructor (ctx: SystemdBusTypeContext, path: seq<CodingKey>, n: Option<int>)
      ensures context == ctx && codingPath == path && count == n && currentIndex == 0
    {
      context := ctx;
      codingPath := path;
      count := n;
      currentIndex := 0;
    }

    /** `isAtEnd`: the index reached `count` when there is one, else the context's `isAtEnd`. */
    method IsAtEnd() returns (b: bool)
      requires context.Valid()
      ensures count.Some? ==> (b <==> currentIndex == count.value)
      ensures count.None? ==> b == IsAtEndSpec(context.State())
    {
      if count.Some? {
        b := currentIndex == count.value;
      } else {
        b := context.IsAtEnd();
      }
    }

    /** `nestedContainer(keyedBy:)`: same context and path. */
    method NestedContainer() returns (c: KeyedDecodingContainer)
      ensures fresh(c) && c.context == context && c.codingPath == codingPath
    {
      c := new KeyedDecodingContainer(context, codingPath);
    }

    /** `nestedUnkeyedContainer()`: same context, no count, its own index from 0. */
    method NestedUnkeyedContainer() returns (c: UnkeyedDecodingContainer)
      ensures fresh(c) && c.context == context && c.codingPath == codingPath
      ensures c.count.None? && c.currentIndex == 0
    {
      c := new UnkeyedDecodingContainer(context, codingPath, None);
    }

    /** `superDecoder()`. */
    method SuperDecoder() returns (d: DecoderImpl)
      ensures fresh(d) && d.context == context && d.codingPath == codingPath && d.count.None?
    {
      d := new DecoderImpl(context, codingPath, None);
    }

    /** `decodeNil()`: always false, and the index stays. */
    method DecodeNil() returns (isNil: bool)
      ensures isNil == Decoder.DecodeNil(context.State()) && !isNil
    {
      isNil := Decoder.DecodeNil(context.State());
    }

    /** `_decode`: one read of a representable kind; the index moves only when it succeeded. */
    method DecodeKind(k: Kind, w: WordSize) returns (res: Result<Value>)
      requires context.Valid() && k != VariantKind
      modifies this, context
      ensures context.Valid() && (context.State(), res) == Decoder.Decode(old(context.State()), Representable(k), w)
      ensures currentIndex == old(currentIndex) + (if res.Ok? then 1 else 0)
    {
      res := DecodeRepresentable(context, k, w, codingPath);
      if res.Ok? {
        currentIndex := currentIndex + 1;
      }
    }

    /**
     * The `Int`, `Int8` and `UInt` overloads. `Int` calls the context's
     * decode of `Int64` or `Int32` and leaves the index; `Int8` and `UInt`
     * go through the container's own `UInt8`, `UInt64` or `UInt32`
     * overload, which is `_decode`, and move it.
     */
    method DecodeInteger(t: CodableType, w: WordSize) returns (res: Result<Value>)
      requires context.Valid() && IsIntType(t)
      modifies this, context
      ensures context.Valid() && (context.State(), res) == DecodeField(old(context.State()), t, w)
      ensures currentIndex == old(currentIndex) + (if res.Ok? && Advances(t) then 1 else 0)
    {
      IntegerViaKind(context.State(), t, w);
      var r;
      if t.IntType? {
        r := DecodeRepresentable(context, IntKind(t, w), w, codingPath);
      } else {
        r := DecodeKind(IntKind(t, w), w);
      }
      res := if r.Ok? then Ok(IntFromScalar(t, r.value.scalar, w)) else r;
    }

    /**
     * The overloads for `Bool`, `String`, `Double` and the fixed-width
     * integers: the unsigned ones and the first three use `_decode`;
     * `Int16`, `Int32` and `Int64` call the context and leave the index.
     */
    method DecodeScalar(k: Kind, w: WordSize) returns (res: Result<Value>)
      requires context.Valid() && HasOverload(k)
      modifies this, context
      ensures context.Valid() && (context.State(), res) == DecodeField(old(context.State()), Representable(k), w)
      ensures currentIndex == old(currentIndex) + (if res.Ok? && Advances(Representable(k)) then 1 else 0)
    {
      OverloadIsDecode(context.State(), k, w);
      if k in {Int16Kind, Int32Kind, Int64Kind} {
        res := DecodeRepresentable(context, k, w, codingPath);
      } else {
        res := DecodeKind(k, w);
      }
    }

    /** `decode(_: some Decodable)`: the static decode; the index stays. */
    method DecodeGeneric(t: CodableType, w: WordSize) returns (res: Result<Value>)
      requires context.Valid()
      modifies context
      ensures context.Valid() && (context.State(), res) == Decoder.Decode(old(context.State()), t, w)
      decreases Message.Weight(context.message), t, 4
    {
      res := DecodeValue(context, t, w, codingPath);
    }

    /** `decode(_:)` for a type Swift knows statically: the overload it picks. */
    method Decode(t: CodableType, w: WordSize) returns (res: Result<Value>)
      requires context.Valid()
      modifies this, context
      ensures context.Valid() && (context.State(), res) == DecodeField(old(context.State()), t, w)
      ensures currentIndex == old(currentIndex) + (if res.Ok? && Advances(t) then 1 else 0)
      decreases Message.Weight(context.message), t, 5
    {
      if IsIntType(t) {
        res := DecodeInteger(t, w);
      } else if t.Representable? && HasOverload(t.kind) {
        res := DecodeScalar(t.kind, w);
      } else {
        res := DecodeGeneric(t, w);
      }
    }
  }

  /** `SingleValueSystemdBusDecodingContainer`: every overload reads through the context. */
  class SingleValueDecodingContainer {
    const context: SystemdBusTypeContext
    const codingPath: seq<CodingKey>

    constructor (ctx: SystemdBusTypeContext, path: seq<CodingKey>)
      ensures context == ctx && codingPath == path
    {
      context := ctx;
      codingPath := path;
    }

    /** `decodeNil()`: false, and false too if the context's `decodeNil` threw. */
    method DecodeNil() returns (isNil: bool)
      ensures isNil == Decoder.DecodeNil(context.State()) && !isNil
    {
      isNil := Decoder.DecodeNil(context.State());
    }

    /** The `Int`, `Int8` and `UInt` overloads: the context's decode of the fixed-width type, then the conversion. */
    method DecodeInteger(t: CodableType, w: WordSize) returns (res: Result<Value>)
      requires context.Valid() && IsIntType(t)
      modifies context
      ensures context.Valid() && (context.State(), res) == ReadInteger(old(context.State()), t, w)
    {
      var r := context.ReadScalar(IntKind(t, w));
      res := if r.Ok? then Ok(IntFromScalar(t, r.value, w)) else Lift(r);
    }

    /** The other fixed-type overloads: the context's decode of the kind. */
    method DecodeScalar(k: Kind, w: WordSize) returns (res: Result<Value>)
      requires context.Valid() && HasOverload(k)
      modifies context
      ensures context.Valid() && (context.State(), res) == DecodeField(old(context.State()), Representable(k), w)
    {
      OverloadIsField(context.State(), k, w);
      var r := context.ReadScalar(k);
      res := if r.Ok? then Ok(ScalarValue(r.value)) else Lift(r);
    }

    /** `decode(_: some Decodable)`: the static decode. */
    method DecodeGeneric(t: CodableType, w: WordSize) returns (res: Result<Value>)
      requires context.Valid()
      modifies context
      ensures context.Valid() && (context.State(), res) == Decoder.Decode(old(context.State()), t, w)
      decreases Message.Weight(context.message), t, 4
    {
      res := DecodeValue(context, t, w, codingPath);
    }
  }

  // ----- the static decode and the loops of the standard library -----

  /**
   * The static `decode(_:context:codingPath:)`: a representable type reads
   * itself; anything else enters a container, traps on a dictionary's,
   * runs `init(from:)` and exits.
   */
  method DecodeValue(ctx: SystemdBusTypeContext, t: CodableType, w: WordSize, path: seq<CodingKey>)
    returns (res: Result<Value>)
    requires ctx.Valid()
    modifies ctx
    ensures ctx.Valid() && (ctx.State(), res) == Decoder.Decode(old(ctx.State()), t, w)
    decreases Message.Weight(ctx.message), t, 3
  {
    if t.Representable? {
      if t.kind == VariantKind {
        res := VariantInit(ctx, w);
      } else {
        res := DecodeRepresentable(ctx, t.kind, w, path);
      }
      return;
    }
    res := DecodeContainerValue(ctx, t, w, path);
  }

  /** The branch of the static decode for a type that is not representable. */
  method DecodeContainerValue(ctx: SystemdBusTypeContext, t: CodableType, w: WordSize, path: seq<CodingKey>)
    returns (res: Result<Value>)
    requires ctx.Valid() && !t.Representable?
    modifies ctx
    ensures ctx.Valid() && (ctx.State(), res) == DecodeInContainer(old(ctx.State()), t, w)
    decreases Message.Weight(ctx.message), t, 2
  {
    var entered := ctx.EnterContainer(None, None);
    if !entered.Ok? {
      return Lift(entered);
    }
    if IsDecodingDict(ctx.State()) {
      // `fatalError()`
      return Trap;
    }
    res := InitFrom(ctx, t, w, path);
    if !res.Ok? {
      return;
    }
    var exited := ctx.ExitContainer();
    if !exited.Ok? {
      res := Lift(exited);
    }
  }

  /** The static decode of a representable type other than `Variant`: `T(context:)`, one basic read. */
  method DecodeRepresentable(ctx: SystemdBusTypeContext, k: Kind, w: WordSize, path: seq<CodingKey>)
    returns (res: Result<Value>)
    requires ctx.Valid() && k != VariantKind
    modifies ctx
    ensures ctx.Valid() && (ctx.State(), res) == Decoder.Decode(old(ctx.State()), Representable(k), w)
  {
    var r := ctx.ReadScalar(k);
    res := if r.Ok? then Ok(ScalarValue(r.value)) else Lift(r);
  }

  /**
   * `Variant.init(context:)`: enter, look up the Swift type of the peeked
   * tag (EBADMSG when there is none), decode it, and on the way out
   * always try to exit, ignoring a failure to do so.
   */
  method VariantInit(ctx: SystemdBusTypeContext, w: WordSize) returns (res: Result<Value>)
    requires ctx.Valid()
    modifies ctx
    ensures ctx.Valid() && (ctx.State(), res) == DecodeVariant(old(ctx.State()), w)
    decreases Message.Weight(ctx.message), Representable(VariantKind), 2
  {
    ghost var s := ctx.State();
    var entered := ctx.EnterContainer(None, None);
    if !entered.Ok? {
      return Lift(entered);
    }
    var peeked := ctx.PeekType();
    if peeked.Trap? {
      return Trap;
    }
    match peeked
    case Fail(e) =>
      res := Fail(e);
    case Ok(p) =>
      var swiftType := TagKind(p.t);
      if swiftType.None? {
        res := Fail(ErrorOf(-EBADMSG));
      } else {
        assert Message.Weight(ctx.message) < Message.Weight(s.msg);
        var r := DecodeValue(ctx, Representable(swiftType.value), w, []);
        res := if r.Ok? then Ok(VariantValue(r.value)) else r;
      }
    var _ := ctx.ExitContainer();
  }

  /** `T(from: SystemdBusDecoderImpl(context:codingPath:))` for the types that are not representable. */
  method InitFrom(ctx: SystemdBusTypeContext, t: CodableType, w: WordSize, path: seq<CodingKey>)
    returns (res: Result<Value>)
    requires ctx.Valid() && !t.Representable?
    modifies ctx
    ensures ctx.Valid() && (ctx.State(), res) == DecodeFrom(old(ctx.State()), t, w)
    decreases Message.Weight(ctx.message), t, 1
  {
    var decoder := new DecoderImpl(ctx, path, None);
    match t
    case ArrayOf(_) =>
      res := ArrayInit(decoder, t, w);
    case DictionaryOf(_, _) =>
      res := DictionaryInit(decoder, t, w);
    case StructOf(_) =>
      res := StructInit(decoder, t, w);
    case IntType | Int8Type | UIntType =>
      var single := decoder.SingleValueContainer();
      res := single.DecodeInteger(t, w);
  }

  /** The standard library's `Array.init(from:)`: decode elements until the unkeyed container is at its end. */
  method ArrayInit(decoder: DecoderImpl, t: CodableType, w: WordSize) returns (res: Result<Value>)
    requires decoder.context.Valid() && t.ArrayOf? && decoder.count.None?
    modifies decoder.context
    ensures decoder.context.Valid()
    ensures (decoder.context.State(), res) == DecodeElements(old(decoder.context.State()), t, [], w)
    decreases Message.Weight(decoder.context.message), t, 0
  {
    var ctx := decoder.context;
    var container := decoder.UnkeyedContainer();
    var elements: seq<Value> := [];
    while true
      invariant ctx.Valid() && container.context == ctx && container.count.None?
      invariant forall i :: 0 <= i < |elements| ==> HasType(elements[i], t.element)
      invariant Message.Weight(ctx.message) <= old(Message.Weight(ctx.message))
      invariant DecodeElements(ctx.State(), t, elements, w) == DecodeElements(old(ctx.State()), t, [], w)
      decreases Message.Weight(ctx.message)
    {
      var atEnd := container.IsAtEnd();
      if atEnd {
        ElementsAtEnd(ctx.State(), t, elements, w);
        return Ok(ArrayValue(t.element, elements));
      }
      ghost var before := ctx.State();
      var r := container.DecodeGeneric(t.element, w);
      if !r.Ok? {
        ElementFails(before, t, elements, w);
        return r;
      }
      ElementsUnfold(before, t, elements, w, ctx.State(), r.value);
      elements := elements + [r.value];
    }
  }

  /**
   * The standard library's `Dictionary.init(from:)`. With `String` or
   * `Int` keys it walks the keyed container's `allKeys`, which is empty,
   * so the dictionary is empty and nothing is read. Otherwise keys and
   * values alternate in an unkeyed container; a key with no value after
   * it is corrupt data, and a repeated key keeps the later value.
   */
  method DictionaryInit(decoder: DecoderImpl, t: CodableType, w: WordSize) returns (res: Result<Value>)
    requires decoder.context.Valid() && t.DictionaryOf? && decoder.count.None?
    modifies decoder.context
    ensures decoder.context.Valid()
    ensures (decoder.context.State(), res) == DecodeFrom(old(decoder.context.State()), t, w)
    decreases Message.Weight(decoder.context.message), t, 0
  {
    if Encoder.KeyedDictionary(t.key) {
      var container := decoder.KeyedContainer();
      var keys := container.AllKeys();
      return Ok(DictionaryValue(t.key, t.value, []));
    }
    var ctx := decoder.context;
    var container := decoder.UnkeyedContainer();
    var entries: seq<(Value, Value)> := [];
    while true
      invariant ctx.Valid() && container.context == ctx && container.count.None?
      invariant EntriesTyped(entries, t.key, t.value)
      invariant Message.Weight(ctx.message) <= old(Message.Weight(ctx.message))
      invariant DecodePairs(ctx.State(), t, entries, w) == DecodePairs(old(ctx.State()), t, [], w)
      decreases Message.Weight(ctx.message)
    {
      var atEnd := container.IsAtEnd();
      if atEnd {
        return Ok(DictionaryValue(t.key, t.value, entries));
      }
      ghost var before := ctx.State();
      var key := container.DecodeGeneric(t.key, w);
      if !key.Ok? {
        return key;
      }
      ghost var afterKey := ctx.State();
      atEnd := container.IsAtEnd();
      if atEnd {
        return Fail(DataCorrupted);
      }
      var value := container.DecodeGeneric(t.value, w);
      if !value.Ok? {
        PairValueFails(before, t, entries, w, afterKey, key.value);
        return value;
      }
      PairStep(before, t, entries, w, afterKey, key.value, ctx.State(), value.value);
      AssignTyped(entries, key.value, value.value, t.key, t.value);
      entries := Assign(entries, key.value, value.value);
    }
  }

  /** A struct's synthesized `init(from:)`: each field in order, through one keyed container. */
  method StructInit(decoder: DecoderImpl, t: CodableType, w: WordSize) returns (res: Result<Value>)
    requires decoder.context.Valid() && t.StructOf?
    modifies decoder.context
    ensures decoder.context.Valid()
    ensures (decoder.context.State(), res) == DecodeFields(old(decoder.context.State()), t, [], w)
    decreases Message.Weight(decoder.context.message), t, 0
  {
    var ctx := decoder.context;
    var container := decoder.KeyedContainer();
    var fields: seq<Value> := [];
    while |fields| < |t.fields|
      invariant ctx.Valid() && container.context == ctx
      invariant |fields| <= |t.fields| && forall i :: 0 <= i < |fields| ==> HasType(fields[i], t.fields[i])
      invariant Message.Weight(ctx.message) <= old(Message.Weight(ctx.message))
      invariant DecodeFields(ctx.State(), t, fields, w) == DecodeFields(old(ctx.State()), t, [], w)
      decreases |t.fields| - |fields|
    {
      ghost var before := ctx.State();
      var r := container.Decode(t.fields[|fields|], IntKey(|fields|), w);
      if !r.Ok? {
        return r;
      }
      FieldStep(before, t, fields, w, ctx.State(), r.value);
      fields := fields + [r.value];
    }
    return Ok(StructValue(fields));
  }

  // ----- one turn of each loop -----

  lemma ElementFails(s: CtxState, t: CodableType, acc: seq<Value>, w: WordSize)
    requires Valid(s) && t.ArrayOf? && forall i :: 0 <= i < |acc| ==> HasType(acc[i], t.element)
    requires !IsAtEndSpec(s) && !Decoder.Decode(s, t.element, w).1.Ok?
    ensures DecodeElements(s, t, acc, w) == Decoder.Decode(s, t.element, w)
  {
  }

  lemma PairValueFails(s: CtxState, t: CodableType, acc: seq<(Value, Value)>, w: WordSize, s1: CtxState, k: Value)
    requires Valid(s) && t.DictionaryOf? && EntriesTyped(acc, t.key, t.value)
    requires !IsAtEndSpec(s) && Decoder.Decode(s, t.key, w) == (s1, Ok(k)) && !IsAtEndSpec(s1)
    requires !Decoder.Decode(s1, t.value, w).1.Ok?
    ensures DecodePairs(s, t, acc, w) == Decoder.Decode(s1, t.value, w)
  {
  }

  lemma PairStep(s: CtxState, t: CodableType, acc: seq<(Value, Value)>, w: WordSize,
                 s1: CtxState, k: Value, s2: CtxState, v: Value)
    requires Valid(s) && t.DictionaryOf? && EntriesTyped(acc, t.key, t.value)
    requires !IsAtEndSpec(s) && Decoder.Decode(s, t.key, w) == (s1, Ok(k)) && !IsAtEndSpec(s1)
    requires Decoder.Decode(s1, t.value, w) == (s2, Ok(v))
    ensures Valid(s2) && EntriesTyped(Assign(acc, k, v), t.key, t.value)
    ensures DecodePairs(s, t, acc, w) == DecodePairs(s2, t, Assign(acc, k, v), w)
  {
    AssignTyped(acc, k, v, t.key, t.value);
  }

  lemma FieldStep(s: CtxState, t: CodableType, acc: seq<Value>, w: WordSize, s1: CtxState, v: Value)
    requires Valid(s) && t.StructOf? && |acc| < |t.fields|
    requires forall i :: 0 <= i < |acc| ==> HasType(acc[i], t.fields[i])
    requires DecodeField(s, t.fields[|acc|], w) == (s1, Ok(v))
    ensures Valid(s1) && forall i :: 0 <= i < |acc| + 1 ==> HasType((acc + [v])[i], t.fields[i])
    ensures DecodeFields(s, t, acc, w) == DecodeFields(s1, t, acc + [v], w)
  {
  }
}
