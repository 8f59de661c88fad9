/**
 * The encoding side as the program runs it: `SystemdBusEncoderImpl`, its
 * three coding containers (the files under Encoder/Container) and the static
 * `SystemdBusTypeContext.encode` that they call back into, all writing into
 * one shared `SystemdBusTypeContext`. Each method is proved against the
 * function in module Encoder that describes it, so the properties proved
 * there (which values succeed, what is written) hold of these methods.
 *
 * The standard library's `Array.encode(to:)`, `Dictionary.encode(to:)` and
 * a struct's synthesized `encode(to:)` are written out as the loops they
 * are, since they are what drives the containers.
 */
module EncodingContainers {
  import opened Wrappers
  import opened BusError
  import opened CTypes
  import opened BusType
  import opened TypeRepresentable
  import opened TypeContext
  import opened Encoder
  import Message

  /** A coding key: a name (struct fields, `String` dictionary keys) or an `Int` dictionary key. */
  datatype CodingKey = NamedKey(name: string) | IntKey(n: int)

  /** The key the standard library's keyed dictionary coding gives an entry. */
  function DictionaryKey(k: Value): (key: CodingKey)
    ensures k.ScalarValue? && k.scalar.Str? ==> key == NamedKey(k.scalar.s)
    ensures k.IntValue? ==> key == IntKey(k.i)
  {
    match k
    case ScalarValue(Str(s)) => NamedKey(s)
    case IntValue(i) => IntKey(i)
    case _ => IntKey(0)
  }

  /** `SystemdBusEncoderImpl`: hands out containers that all write into its one context. */
  class EncoderImpl {
    const context: SystemdBusTypeContext
    const codingPath: seq<CodingKey>

    constructor (ctx: SystemdBusTypeContext, path: seq<CodingKey>)
      ensures context == ctx && codingPath == path
    {
      context := ctx;
      codingPath := path;
    }

    /** `container(keyedBy:)`. */
    method KeyedContainer() returns (c: KeyedEncodingContainer)
      ensures fresh(c) && c.context == context && c.codingPath == codingPath
    {
      c := new KeyedEncodingContainer(context, codingPath);
    }

    /** `unkeyedContainer()`. */
    method UnkeyedContainer() returns (c: UnkeyedEncodingContainer)
      ensures fresh(c) && c.context == context && c.codingPath == codingPath && c.count == 0
    {
      c := new UnkeyedEncodingContainer(context, codingPath);
    }

    /** `singleValueContainer()`. */
    method SingleValueContainer() returns (c: SingleValueEncodingContainer)
      ensures fresh(c) && c.context == context && c.codingPath == codingPath
    {
      c := new SingleValueEncodingContainer(context, codingPath);
    }
  }

  /** `KeyedSystemdBusEncodingContainer`: the key never reaches the message. */
  class KeyedEncodingContainer {
    const context: SystemdBusTypeContext
    const codingPath: seq<CodingKey>

    constructor (ctx: SystemdBusTypeContext, path: seq<CodingKey>)
      ensures context == ctx && codingPath == path
    {
      context := ctx;
      codingPath := path;
    }

    /** `nestedContainer(keyedBy:forKey:)`: same context, the key appended to the path. */
    method NestedContainer(key: CodingKey) returns (c: KeyedEncodingContainer)
      ensures fresh(c) && c.context == context && c.codingPath == codingPath + [key]
    {
      c := new KeyedEncodingContainer(context, codingPath + [key]);
    }

    /** `nestedUnkeyedContainer(forKey:)`. */
    method NestedUnkeyedContainer(key: CodingKey) returns (c: UnkeyedEncodingContainer)
      ensures fresh(c) && c.context == context && c.codingPath == codingPath + [key] && c.count == 0
    {
      c := new UnkeyedEncodingContainer(context, codingPath + [key]);
    }

    /** `superEncoder()` and `superEncoder(forKey:)`: both keep the path as it is. */
    method SuperEncoder(key: Option<CodingKey>) returns (e: EncoderImpl)
      ensures fresh(e) && e.context == context && e.codingPath == codingPath
    {
      e := new EncoderImpl(context, codingPath);
    }

    /** `encodeNil(forKey:)`: the context's `encodeNil` writes nothing. */
    method EncodeNil(key: CodingKey) returns (res: Result<()>)
      ensures res == Ok(())
    {
      res := Ok(());
    }

    /** The `Int`, `Int8` and `UInt` overloads: converted, then appended. */
    method EncodeInteger(v: Value, key: CodingKey, w: WordSize) returns (res: Result<()>)
      requires context.Valid() && IsIntLike(v) && FitsWord(v, w)
      modifies context
      ensures context.Valid() && (context.State(), res) == EncodeField(old(context.State()), v, w)
    {
      res := context.AppendScalar(IntScalar(v, w));
    }

    /** The overloads for `Bool`, `String`, `Double` and the fixed-width integers: a basic append. */
    method EncodeScalar(sc: Scalar, key: CodingKey) returns (res: Result<()>)
      requires context.Valid()
      modifies context
      ensures context.Valid() && (context.State(), res) == AppendScalarSpec(old(context.State()), sc)
    {
      res := context.AppendScalar(sc);
    }

    /** `encode(_: some Encodable, forKey:)`: the static dispatch, the key added to the path. */
    method EncodeGeneric(v: Value, key: CodingKey, w: WordSize) returns (res: Result<()>)
      requires context.Valid() && FitsWord(v, w)
      modifies context
      ensures context.Valid() && (context.State(), res) == Encoder.Encode(old(context.State()), v, w)
      decreases v, 2
    {
      res := EncodeValue(context, v, w, codingPath + [key]);
    }

    /** `encode(_:forKey:)` for a value whose static type Swift knows: the overload it picks. */
    method Encode(v: Value, key: CodingKey, w: WordSize) returns (res: Result<()>)
      requires context.Valid() && FitsWord(v, w)
      modifies context
      ensures context.Valid() && (context.State(), res) == EncodeField(old(context.State()), v, w)
      decreases v, 3
    {
      if IsIntLike(v) {
        res := EncodeInteger(v, key, w);
      } else if v.ScalarValue? {
        res := EncodeScalar(v.scalar, key);
      } else {
        res := EncodeGeneric(v, key, w);
      }
    }

    /** `encodeIfPresent(_:forKey:)`: nil writes nothing, a value is encoded as `encode` would. */
    method EncodeIfPresent(v: Option<Value>, key: CodingKey, w: WordSize) returns (res: Result<()>)
      requires context.Valid() && (v.Some? ==> FitsWord(v.value, w))
      modifies context
      ensures context.Valid()
      ensures v.None? ==> res == Ok(()) && context.State() == old(context.State())
      ensures v.Some? ==> (context.State(), res) == EncodeField(old(context.State()), v.value, w)
    {
      if v.Some? {
        res := Encode(v.value, key, w);
      } else {
        res := EncodeNil(key);
      }
    }
  }

  /** `UnkeyedSystemdBusEncodingContainer`: `count` counts the successful encodes. */
  class UnkeyedEncodingContainer {
    const context: SystemdBusTypeContext
    const codingPath: seq<CodingKey>
    var count: int

    constructor (ctx: SystemdBusTypeContext, path: seq<CodingKey>)
      ensures context == ctx && codingPath == path && count == 0
    {
      context := ctx;
      codingPath := path;
      count := 0;
    }

    /** `nestedContainer(keyedBy:)`: same context and path. */
    method NestedContainer() returns (c: KeyedEncodingContainer)
      ensures fresh(c) && c.context == context && c.codingPath == codingPath
    {
      c := new KeyedEncodingContainer(context, codingPath);
    }

    /** `nestedUnkeyedContainer()`: same context, its own count from 0. */
    method NestedUnkeyedContainer() returns (c: UnkeyedEncodingContainer)
      ensures fresh(c) && c.context == context && c.codingPath == codingPath && c.count == 0
    {
      c := new UnkeyedEncodingContainer(context, codingPath);
    }

    /** `superEncoder()`. */
    method SuperEncoder() returns (e: EncoderImpl)
      ensures fresh(e) && e.context == context && e.codingPath == codingPath
    {
      e := new EncoderImpl(context, codingPath);
    }

    /** `encodeNil()`: nothing is written, yet the count goes up. */
    method EncodeNil() returns (res: Result<()>)
      modifies this
      ensures res == Ok(()) && count == old(count) + 1
    {
      res := Ok(());
      count := count + 1;
    }

    /**
     * The `Int`, `Int8` and `UInt` overloads: `_encode` of the converted
     * value, which is representable, so the static dispatch appends it.
     */
    method EncodeInteger(v: Value, w: WordSize) returns (res: Result<()>)
      requires context.Valid() && IsIntLike(v) && FitsWord(v, w)
      modifies this, context
      ensures context.Valid() && (context.State(), res) == EncodeField(old(context.State()), v, w)
      ensures count == old(count) + (if res.Ok? then 1 else 0)
    {
      res := context.AppendScalar(IntScalar(v, w));
      if res.Ok? {
        count := count + 1;
      }
    }

    /** `_encode` of a representable value (the other fixed-type overloads). */
    method EncodeScalar(sc: Scalar) returns (res: Result<()>)
      requires context.Valid()
      modifies this, context
      ensures context.Valid() && (context.State(), res) == AppendScalarSpec(old(context.State()), sc)
      ensures count == old(count) + (if res.Ok? then 1 else 0)
    {
      res := context.AppendScalar(sc);
      if res.Ok? {
        count := count + 1;
      }
    }

    /** `encode(_: some Encodable)`: `_encode`, the static dispatch and then the count. */
    method EncodeGeneric(v: Value, w: WordSize) returns (res: Result<()>)
      requires context.Valid() && FitsWord(v, w)
      modifies this, context
      ensures context.Valid() && (context.State(), res) == Encoder.Encode(old(context.State()), v, w)
      ensures count == old(count) + (if res.Ok? then 1 else 0)
      decreases v, 2
    {
      res := EncodeValue(context, v, w, codingPath);
      if res.Ok? {
        count := count + 1;
      }
    }

    /** `encode(_:)` for a value whose static type Swift knows: the overload it picks. */
    method Encode(v: Value, w: WordSize) returns (res: Result<()>)
      requires context.Valid() && FitsWord(v, w)
      modifies this, context
      ensures context.Valid() && (context.State(), res) == EncodeField(old(context.State()), v, w)
      ensures count == old(count) + (if res.Ok? then 1 else 0)
      decreases v, 3
    {
      if IsIntLike(v) {
        res := EncodeInteger(v, w);
      } else if v.ScalarValue? {
        res := EncodeScalar(v.scalar);
      } else {
        res := EncodeGeneric(v, w);
      }
    }
  }

  /** `SingleValueSystemdBusEncodingContainer`. */
  class SingleValueEncodingContainer {
    const context: SystemdBusTypeContext
    const codingPath: seq<CodingKey>

    constructor (ctx: SystemdBusTypeContext, path: seq<CodingKey>)
      ensures context == ctx && codingPath == path
    {
      context := ctx;
      codingPath := path;
    }

    /** `encodeNil()`: writes nothing. */
    method EncodeNil() returns (res: Result<()>)
      ensures res == Ok(())
    {
      res := Ok(());
    }

    /** The `Int`, `Int8` and `UInt` overloads: converted, then appended. */
    method EncodeInteger(v: Value, w: WordSize) returns (res: Result<()>)
      requires context.Valid() && IsIntLike(v) && FitsWord(v, w)
      modifies context
      ensures context.Valid() && (context.State(), res) == EncodeField(old(context.State()), v, w)
    {
      res := context.AppendScalar(IntScalar(v, w));
    }

    /** The other fixed-type overloads: a basic append. */
    method EncodeScalar(sc: Scalar) returns (res: Result<()>)
      requires context.Valid()
      modifies context
      ensures context.Valid() && (context.State(), res) == AppendScalarSpec(old(context.State()), sc)
    {
      res := context.AppendScalar(sc);
    }

    /** `encode(_: some Encodable)`: the static dispatch. */
    method EncodeGeneric(v: Value, w: WordSize) returns (res: Result<()>)
      requires context.Valid() && FitsWord(v, w)
      modifies context
      ensures context.Valid() && (context.State(), res) == Encoder.Encode(old(context.State()), v, w)
      decreases v, 2
    {
      res := EncodeValue(context, v, w, codingPath);
    }
  }

  // ----- the static dispatch and the loops of the standard library -----

  /**
   * The static `encode(_:context:codingPath:)`: representable, then
   * dictionary, then array, then struct.
   */
  method EncodeValue(ctx: SystemdBusTypeContext, v: Value, w: WordSize, path: seq<CodingKey>)
    returns (res: Result<()>)
    requires ctx.Valid() && FitsWord(v, w)
    modifies ctx
    ensures ctx.Valid() && (ctx.State(), res) == Encode(old(ctx.State()), v, w)
    decreases v, 1
  {
    match v
    case ScalarValue(sc) =>
      res := ctx.AppendScalar(sc);
    case VariantValue(p) =>
      res := AppendVariant(ctx, p, w);
    case DictionaryValue(_, _, _) =>
      res := EncodeDictionaryValue(ctx, v, w, path);
    case ArrayValue(_, _) =>
      res := EncodeArrayValue(ctx, v, w, path);
    case StructValue(_) =>
      res := EncodeStructValue(ctx, v, w, path);
    case _ =>
      res := EncodeIntegerValue(ctx, v, w, path);
  }

  /** The dictionary branch of the static dispatch: an array of the pairs' contents. */
  method EncodeDictionaryValue(ctx: SystemdBusTypeContext, v: Value, w: WordSize, path: seq<CodingKey>)
    returns (res: Result<()>)
    requires ctx.Valid() && v.DictionaryValue? && FitsWord(v, w)
    modifies ctx
    ensures ctx.Valid() && (ctx.State(), res) == EncodeAsDictionary(old(ctx.State()), v, w)
    decreases v, 0, 3
  {
    res := ctx.OpenContainer(Array, DictContents(v.key, v.value));
    if !res.Ok? {
      return;
    }
    var encoder := new EncoderImpl(ctx, path);
    res := DictionaryEncode(encoder, v, w);
    if !res.Ok? {
      return;
    }
    res := ctx.CloseContainer();
  }

  /** The array branch of the static dispatch: an array of the element type's tag. */
  method EncodeArrayValue(ctx: SystemdBusTypeContext, v: Value, w: WordSize, path: seq<CodingKey>)
    returns (res: Result<()>)
    requires ctx.Valid() && v.ArrayValue? && FitsWord(v, w)
    modifies ctx
    ensures ctx.Valid() && (ctx.State(), res) == EncodeAsArray(old(ctx.State()), v, w)
    decreases v, 0, 3
  {
    res := ctx.OpenContainer(Array, [CodableTypeTag(v.element)]);
    if !res.Ok? {
      return;
    }
    var encoder := new EncoderImpl(ctx, path);
    res := ArrayEncode(encoder, v, w);
    if !res.Ok? {
      return;
    }
    res := ctx.CloseContainer();
  }

  /** The struct branch: encode into a fresh context, then merge it into this one. */
  method EncodeStructValue(ctx: SystemdBusTypeContext, v: Value, w: WordSize, path: seq<CodingKey>)
    returns (res: Result<()>)
    requires ctx.Valid() && v.StructValue? && FitsWord(v, w)
    modifies ctx
    ensures ctx.Valid() && (ctx.State(), res) == EncodeAsStruct(old(ctx.State()), v, w)
    decreases v, 0, 3
  {
    var structContext := new SystemdBusTypeContext(Message.New());
    var encoder := new EncoderImpl(structContext, path);
    res := StructEncode(encoder, v, w);
    if !res.Ok? {
      return;
    }
    res := ctx.Merge(structContext);
  }

  /**
   * `Int`, `Int8` and `UInt` encode themselves through a single-value
   * container of a fresh context, which is then merged.
   */
  method EncodeIntegerValue(ctx: SystemdBusTypeContext, v: Value, w: WordSize, path: seq<CodingKey>)
    returns (res: Result<()>)
    requires ctx.Valid() && (v.IntValue? || v.Int8Value? || v.UIntValue?) && FitsWord(v, w)
    modifies ctx
    ensures ctx.Valid() && (ctx.State(), res) == Encode(old(ctx.State()), v, w)
    decreases v, 0, 3
  {
    var structContext := new SystemdBusTypeContext(Message.New());
    var encoder := new EncoderImpl(structContext, path);
    var single := encoder.SingleValueContainer();
    res := single.EncodeInteger(v, w);
    if !res.Ok? {
      return;
    }
    res := ctx.Merge(structContext);
  }

  /** `Variant.append(context:)`: open a one-tag variant, encode the payload, close. */
  method AppendVariant(ctx: SystemdBusTypeContext, payload: Value, w: WordSize) returns (res: Result<()>)
    requires ctx.Valid() && FitsWord(payload, w)
    modifies ctx
    ensures ctx.Valid() && (ctx.State(), res) == VariantAppend(old(ctx.State()), payload, w)
    decreases VariantValue(payload), 0
  {
    res := ctx.OpenContainer(Variant, [TypeOfAnyValue(Instance(payload))]);
    if !res.Ok? {
      return;
    }
    res := EncodeValue(ctx, payload, w, []);
    if !res.Ok? {
      return;
    }
    res := ctx.CloseContainer();
  }

  /** The standard library's `Array.encode(to:)`: every element through one unkeyed container. */
  method ArrayEncode(encoder: EncoderImpl, v: Value, w: WordSize) returns (res: Result<()>)
    requires encoder.context.Valid() && v.ArrayValue? && FitsWord(v, w)
    modifies encoder.context
    ensures encoder.context.Valid()
    ensures (encoder.context.State(), res) == EncodeElements(old(encoder.context.State()), v, 0, w)
    decreases v, 0, 0
  {
    var container := encoder.UnkeyedContainer();
    var i := 0;
    while i < |v.elements|
      invariant 0 <= i <= |v.elements|
      invariant container.context == encoder.context && container.context.Valid()
      invariant container.count == i
      invariant EncodeElements(container.context.State(), v, i, w)
             == EncodeElements(old(encoder.context.State()), v, 0, w)
    {
      ghost var before := container.context.State();
      res := container.EncodeGeneric(v.elements[i], w);
      ElementsStep(before, v, i, w, container.context.State(), res);
      if !res.Ok? {
        return;
      }
      i := i + 1;
    }
    res := Ok(());
  }

  /**
   * The standard library's `Dictionary.encode(to:)`: with `String` or `Int`
   * keys, each value under its key in a keyed container; otherwise key and
   * value in turn in an unkeyed container.
   */
  method DictionaryEncode(encoder: EncoderImpl, v: Value, w: WordSize) returns (res: Result<()>)
    requires encoder.context.Valid() && v.DictionaryValue? && FitsWord(v, w)
    modifies encoder.context
    ensures encoder.context.Valid()
    ensures (encoder.context.State(), res) == EncodeEntries(old(encoder.context.State()), v, 0, w)
    decreases v, 0, 2
  {
    if KeyedDictionary(v.key) {
      res := KeyedDictionaryEncode(encoder, v, w);
    } else {
      res := UnkeyedDictionaryEncode(encoder, v, w);
    }
  }

  method KeyedDictionaryEncode(encoder: EncoderImpl, v: Value, w: WordSize) returns (res: Result<()>)
    requires encoder.context.Valid() && v.DictionaryValue? && FitsWord(v, w) && KeyedDictionary(v.key)
    modifies encoder.context
    ensures encoder.context.Valid()
    ensures (encoder.context.State(), res) == EncodeEntries(old(encoder.context.State()), v, 0, w)
    decreases v, 0, 1
  {
    var ctx := encoder.context;
    var container := encoder.KeyedContainer();
    var i := 0;
    while i < |v.entries|
      invariant 0 <= i <= |v.entries|
      invariant container.context == ctx && ctx.Valid()
      invariant EncodeEntries(ctx.State(), v, i, w) == EncodeEntries(old(ctx.State()), v, 0, w)
    {
      ghost var before := ctx.State();
      res := container.EncodeGeneric(v.entries[i].1, DictionaryKey(v.entries[i].0), w);
      KeyedEntriesStep(before, v, i, w, ctx.State(), res);
      if !res.Ok? {
        return;
      }
      i := i + 1;
    }
    res := Ok(());
  }

  method UnkeyedDictionaryEncode(encoder: EncoderImpl, v: Value, w: WordSize) returns (res: Result<()>)
    requires encoder.context.Valid() && v.DictionaryValue? && FitsWord(v, w) && !KeyedDictionary(v.key)
    modifies encoder.context
    ensures encoder.context.Valid()
    ensures (encoder.context.State(), res) == EncodeEntries(old(encoder.context.State()), v, 0, w)
    decreases v, 0, 1
  {
    var ctx := encoder.context;
    var container := encoder.UnkeyedContainer();
    var i := 0;
    while i < |v.entries|
      invariant 0 <= i <= |v.entries|
      invariant container.context == ctx && ctx.Valid()
      invariant container.count == 2 * i
      invariant EncodeEntries(ctx.State(), v, i, w) == EncodeEntries(old(ctx.State()), v, 0, w)
    {
      res := UnkeyedEntryEncode(container, v, i, w);
      if !res.Ok? {
        return;
      }
      i := i + 1;
    }
    res := Ok(());
  }

  /** One turn of the unkeyed dictionary loop: the key, then the value. */
  method UnkeyedEntryEncode(container: UnkeyedEncodingContainer, v: Value, i: nat, w: WordSize)
    returns (res: Result<()>)
    requires container.context.Valid() && v.DictionaryValue? && FitsWord(v, w) && i < |v.entries|
    requires !KeyedDictionary(v.key)
    modifies container, container.context
    ensures container.context.Valid()
    ensures (container.context.State(), res) == EncodeEntry(old(container.context.State()), v, i, w)
    ensures res.Ok? ==> container.count == old(container.count) + 2
    decreases v, 0, 0
  {
    res := container.EncodeGeneric(v.entries[i].0, w);
    if !res.Ok? {
      return;
    }
    res := container.EncodeGeneric(v.entries[i].1, w);
  }

  /** A struct's synthesized `encode(to:)`: each field under its name in one keyed container. */
  method StructEncode(encoder: EncoderImpl, v: Value, w: WordSize) returns (res: Result<()>)
    requires encoder.context.Valid() && v.StructValue? && FitsWord(v, w)
    modifies encoder.context
    ensures encoder.context.Valid()
    ensures (encoder.context.State(), res) == EncodeFields(old(encoder.context.State()), v, 0, w)
    decreases v, 0, 0
  {
    var container := encoder.KeyedContainer();
    var i := 0;
    while i < |v.fields|
      invariant 0 <= i <= |v.fields|
      invariant container.context == encoder.context && container.context.Valid()
      invariant EncodeFields(container.context.State(), v, i, w)
             == EncodeFields(old(encoder.context.State()), v, 0, w)
    {
      ghost var before := container.context.State();
      res := container.Encode(v.fields[i], IntKey(i), w);
      FieldsStep(before, v, i, w, container.context.State(), res);
      if !res.Ok? {
        return;
      }
      i := i + 1;
    }
    res := Ok(());
  }

  /**
   * The private `encodeDict`: one dict entry container per pair, key
   * before value, inside the array.
   */
  method EncodeDictionary(ctx: SystemdBusTypeContext, v: Value, w: WordSize, path: seq<CodingKey>)
    returns (res: Result<()>)
    requires ctx.Valid() && v.DictionaryValue? && FitsWord(v, w)
    modifies ctx
    ensures ctx.Valid() && (ctx.State(), res) == EncodeDict(old(ctx.State()), v, w)
  {
    res := ctx.OpenContainer(Array, DictContents(v.key, v.value));
    if !res.Ok? {
      return;
    }
    ghost var inArray := ctx.State();
    var i := 0;
    while i < |v.entries|
      invariant 0 <= i <= |v.entries| && ctx.Valid()
      invariant EncodeDictEntries(ctx.State(), v, i, w) == EncodeDictEntries(inArray, v, 0, w)
    {
      ghost var before := ctx.State();
      res := EncodeDictionaryEntry(ctx, v, i, w, path);
      DictEntriesStep(before, v, i, w, ctx.State(), res);
      if !res.Ok? {
        return;
      }
      i := i + 1;
    }
    res := ctx.CloseContainer();
  }

  /** The body of `encodeDict`'s `forEach` block for pair i. */
  method EncodeDictionaryEntry(ctx: SystemdBusTypeContext, v: Value, i: nat, w: WordSize, path: seq<CodingKey>)
    returns (res: Result<()>)
    requires ctx.Valid() && v.DictionaryValue? && FitsWord(v, w) && i < |v.entries|
    modifies ctx
    ensures ctx.Valid() && (ctx.State(), res) == EncodeDictEntry(old(ctx.State()), v, i, w)
  {
    var keyType := TypeOfAnyValue(Metatype(v.key));
    var valueType := TypeOfAnyValue(Metatype(v.value));
    res := ctx.OpenContainer(DictEntry, [keyType, valueType]);
    if !res.Ok? {
      return;
    }
    res := EncodeValue(ctx, v.entries[i].0, w, path);
    if !res.Ok? {
      return;
    }
    res := EncodeValue(ctx, v.entries[i].1, w, path);
    if !res.Ok? {
      return;
    }
    res := ctx.CloseContainer();
  }
}
