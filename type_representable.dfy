/**
 * The Swift side of the type registry (Bus/SystemdBusTypeRepresentable.swift):
 * the fourteen types that read and write themselves as one D-Bus element,
 * the static types and values the Codable layer handles, and the maps
 * between Swift types and bus tags.
 */
module TypeRepresentable {
  import opened Wrappers
  import opened CTypes
  import opened BusType
  import Message

  /** The types conforming to SystemdBusTypeRepresentable. */
  datatype Kind =
    | UInt8Kind | BoolKind | Int32Kind | UInt32Kind | FileDescriptorKind | Int16Kind | UInt16Kind
    | Int64Kind | UInt64Kind | DoubleKind | StringKind | ObjectPathKind | SignatureKind | VariantKind

  /**
   * A value of a representable type other than Variant. A Double is kept
   * as its IEEE-754 bit pattern; a FileDescriptor as its raw CInt.
   */
  datatype Scalar =
    | U8(u8: UInt8) | Bool(b: bool) | I32(i32: Int32) | U32(u32: UInt32) | Fd(fd: Int32)
    | I16(i16: Int16) | U16(u16: UInt16) | I64(i64: Int64) | U64(u64: UInt64) | F64(bits: UInt64)
    | Str(s: string) | Path(path: string) | Sig(signature: string)

  /**
   * The static Swift types the Codable layer meets: the representable
   * kinds, the standard integers that are Codable but not representable
   * (Int, Int8, UInt), arrays, dictionaries and Codable structs (whose
   * synthesized conformance goes through a keyed container, field by field).
   */
  datatype CodableType =
    | Representable(kind: Kind)
    | IntType | Int8Type | UIntType
    | ArrayOf(element: CodableType)
    | DictionaryOf(key: CodableType, value: CodableType)
    | StructOf(fields: seq<CodableType>)

  /** A Swift value of one of those types; `VariantValue` is `Variant(value:)`, whose payload is any Codable. */
  datatype Value =
    | ScalarValue(scalar: Scalar)
    | VariantValue(payload: Value)
    | IntValue(i: int)
    | Int8Value(i8: Int8)
    | UIntValue(u: nat)
    | ArrayValue(element: CodableType, elements: seq<Value>)
    | DictionaryValue(key: CodableType, value: CodableType, entries: seq<(Value, Value)>)
    | StructValue(fields: seq<Value>)

  /** What `_typeOfAnyValue` may be handed: an instance, or (as the dictionary path does) a metatype. */
  datatype AnyThing = Instance(v: Value) | Metatype(t: CodableType)

  function KindOf(s: Scalar): (k: Kind)
    ensures k != VariantKind
  {
    match s
    case U8(_) => UInt8Kind
    case Bool(_) => BoolKind
    case I32(_) => Int32Kind
    case U32(_) => UInt32Kind
    case Fd(_) => FileDescriptorKind
    case I16(_) => Int16Kind
    case U16(_) => UInt16Kind
    case I64(_) => Int64Kind
    case U64(_) => UInt64Kind
    case F64(_) => DoubleKind
    case Str(_) => StringKind
    case Path(_) => ObjectPathKind
    case Sig(_) => SignatureKind
  }

  /** The static type of a value, as Swift sees it. */
  predicate HasType(v: Value, t: CodableType)
  {
    match v
    case ScalarValue(s) => t == Representable(KindOf(s))
    case VariantValue(_) => t == Representable(VariantKind)
    case IntValue(_) => t == IntType
    case Int8Value(_) => t == Int8Type
    case UIntValue(_) => t == UIntType
    case ArrayValue(et, es) =>
      t == ArrayOf(et) && forall i :: 0 <= i < |es| ==> HasType(es[i], et)
    case DictionaryValue(kt, vt, entries) =>
      t == DictionaryOf(kt, vt)
      && forall i :: 0 <= i < |entries| ==> HasType(entries[i].0, kt) && HasType(entries[i].1, vt)
    case StructValue(fs) =>
      t.StructOf? && |fs| == |t.fields| && forall i :: 0 <= i < |fs| ==> HasType(fs[i], t.fields[i])
  }

  /** Every `Int` and `UInt` in the value fits the platform word. */
  predicate FitsWord(v: Value, w: WordSize)
  {
    match v
    case ScalarValue(_) => true
    case VariantValue(p) => FitsWord(p, w)
    case IntValue(i) => IntFits(i, w)
    case Int8Value(_) => true
    case UIntValue(u) => UIntFits(u, w)
    case ArrayValue(_, es) => forall i :: 0 <= i < |es| ==> FitsWord(es[i], w)
    case DictionaryValue(_, _, entries) =>
      forall i :: 0 <= i < |entries| ==> FitsWord(entries[i].0, w) && FitsWord(entries[i].1, w)
    case StructValue(fs) => forall i :: 0 <= i < |fs| ==> FitsWord(fs[i], w)
  }

  /** `_swiftTypeToSystemdType(_: (some SystemdBusTypeRepresentable).Type)`: the registry. */
  function KindTag(k: Kind): (t: SystemdBusType)
    ensures IsBasic(t) || t == Variant
  {
    match k
    case UInt8Kind => Byte
    case BoolKind => Boolean
    case Int32Kind => Int32
    case UInt32Kind => UInt32
    case FileDescriptorKind => UnixFd
    case Int16Kind => Int16
    case UInt16Kind => UInt16
    case Int64Kind => Int64
    case UInt64Kind => UInt64
    case DoubleKind => Double
    case StringKind => String
    case ObjectPathKind => ObjectPath
    case SignatureKind => Signature
    case VariantKind => Variant
  }

  /** `_systemdTypeToSwiftType`: the representable type a tag is read as, if any. */
  function TagKind(t: SystemdBusType): (k: Option<Kind>)
    ensures k.Some? ==> KindTag(k.value) == t
  {
    match t
    case Byte => Some(UInt8Kind)
    case Boolean => Some(BoolKind)
    case Int32 => Some(Int32Kind)
    case UInt32 => Some(UInt32Kind)
    case UnixFd => Some(FileDescriptorKind)
    case Int16 => Some(Int16Kind)
    case UInt16 => Some(UInt16Kind)
    case Int64 => Some(Int64Kind)
    case UInt64 => Some(UInt64Kind)
    case Double => Some(DoubleKind)
    case String => Some(StringKind)
    case ObjectPath => Some(ObjectPathKind)
    case Signature => Some(SignatureKind)
    case Variant => Some(VariantKind)
    case _ => None
  }

  /** reverse(forward(k)) == k, so the registry gives each kind its own tag. */
  lemma KindTagRoundTrip(k: Kind)
    ensures TagKind(KindTag(k)) == Some(k)
  {
  }

  lemma KindTagInjective(a: Kind, b: Kind)
    requires KindTag(a) == KindTag(b)
    ensures a == b
  {
    KindTagRoundTrip(a);
    KindTagRoundTrip(b);
  }

  /** The reverse map knows exactly the basic tags and variant: no container, marker or `Invalid`. */
  lemma TagKindDomain(t: SystemdBusType)
    ensures TagKind(t).Some? <==> IsBasic(t) || t == Variant
  {
  }

  /** forward(reverse(t)) == t wherever the reverse map is defined. */
  lemma TagKindRoundTrip(t: SystemdBusType)
    requires TagKind(t).Some?
    ensures KindTag(TagKind(t).value) == t
  {
  }

  /**
   * `_swiftTypeToSystemdType<T: Codable>`: the registry tag for a
   * representable type, `.array` for an array, `.struct` for anything else
   * (dictionaries included).
   */
  function CodableTypeTag(t: CodableType): (tag: SystemdBusType)
    ensures t.Representable? ==> tag == KindTag(t.kind)
    ensures tag == Array <==> t.ArrayOf?
    ensures tag == Struct <==> !t.Representable? && !t.ArrayOf?
  {
    match t
    case Representable(k) => KindTag(k)
    case ArrayOf(_) => Array
    case _ => Struct
  }

  /** The kind of a value that is itself representable. */
  function KindOfValue(v: Value): (k: Option<Kind>)
    ensures k.Some? <==> v.ScalarValue? || v.VariantValue?
  {
    match v
    case ScalarValue(s) => Some(KindOf(s))
    case VariantValue(_) => Some(VariantKind)
    case _ => None
  }

  /**
   * `_typeOfAnyValue`: the registry tag when the thing is a representable
   * instance, `.struct` otherwise; a metatype is never an instance.
   */
  function TypeOfAnyValue(a: AnyThing): (tag: SystemdBusType)
    ensures a.Instance? && KindOfValue(a.v).Some? ==> tag == KindTag(KindOfValue(a.v).value)
    ensures !(a.Instance? && KindOfValue(a.v).Some?) ==> tag == Struct
  {
    match a
    case Instance(v) => if KindOfValue(v).Some? then KindTag(KindOfValue(v).value) else Struct
    case Metatype(_) => Struct
  }

  // ----- the basic element each scalar is written as -----

  /** The C type code passed to `sd_bus_message_append_basic`/`read_basic` for a kind. */
  function KindCode(k: Kind): (c: int)
    ensures c == RawValue(KindTag(k))
  {
    RawValue(KindTag(k))
  }

  /** What `append(context:)` hands to libsystemd; a Bool goes as the UInt32 1 or 0. */
  function ScalarWord(s: Scalar): Message.Word
  {
    match s
    case U8(v) => Message.Num(v)
    case Bool(b) => Message.Num(if b then 1 else 0)
    case I32(v) => Message.Num(v)
    case U32(v) => Message.Num(v)
    case Fd(v) => Message.Num(v)
    case I16(v) => Message.Num(v)
    case U16(v) => Message.Num(v)
    case I64(v) => Message.Num(v)
    case U64(v) => Message.Num(v)
    case F64(v) => Message.Num(v)
    case Str(t) => Message.Text(t)
    case Path(t) => Message.Text(t)
    case Sig(t) => Message.Text(t)
  }

  /** The element `append(context:)` adds. */
  function ScalarElem(s: Scalar): (e: Message.Elem)
    ensures e.Basic? && e.code == KindCode(KindOf(s))
    ensures Message.Conforms(e)
  {
    Message.Basic(KindCode(KindOf(s)), ScalarWord(s))
  }

  /** The number a C variable of the given modulus (2^bits) holds, read unsigned. */
  function Unsigned(n: int, modulus: nat): (r: int)
    requires modulus > 0
    ensures 0 <= r < modulus
  {
    n % modulus
  }

  /** The same, read signed (two's complement). */
  function Signed(n: int, modulus: nat): (r: int)
    requires modulus >= 2 && modulus % 2 == 0
    ensures -(modulus / 2) <= r < modulus / 2
  {
    var u := Unsigned(n, modulus);
    if u >= modulus / 2 then u - modulus else u
  }

  function WordNumber(w: Message.Word): int
  {
    if w.Num? then w.n else 0
  }

  function WordText(w: Message.Word): string
  {
    if w.Text? then w.s else ""
  }

  /**
   * What `init(context:)` builds from the value libsystemd stored in its
   * temporary: integers keep their width, a Bool is `tmp != 0`. Variant
   * has no basic reading.
   */
  function ScalarFromWord(k: Kind, w: Message.Word): (s: Option<Scalar>)
    ensures s.Some? <==> k != VariantKind
    ensures s.Some? ==> KindOf(s.value) == k
  {
    var n := WordNumber(w);
    match k
    case UInt8Kind => Some(U8(Unsigned(n, 0x100)))
    case BoolKind => Some(Bool(Unsigned(n, 0x1_0000_0000) != 0))
    case Int32Kind => Some(I32(Signed(n, 0x1_0000_0000)))
    case UInt32Kind => Some(U32(Unsigned(n, 0x1_0000_0000)))
    case FileDescriptorKind => Some(Fd(Signed(n, 0x1_0000_0000)))
    case Int16Kind => Some(I16(Signed(n, 0x1_0000)))
    case UInt16Kind => Some(U16(Unsigned(n, 0x1_0000)))
    case Int64Kind => Some(I64(Signed(n, 0x1_0000_0000_0000_0000)))
    case UInt64Kind => Some(U64(Unsigned(n, 0x1_0000_0000_0000_0000)))
    case DoubleKind => Some(F64(Unsigned(n, 0x1_0000_0000_0000_0000)))
    case StringKind => Some(Str(WordText(w)))
    case ObjectPathKind => Some(Path(WordText(w)))
    case SignatureKind => Some(Sig(WordText(w)))
    case VariantKind => None
  }

  /**
   * What `init(context:)` builds when `read_basic` returned 0 (end of an
   * array) and left the temporary at its initial value: zero for numbers
   * and false for Bool. The string kinds then dereference a nil pointer,
   * and Variant has no basic reading: None for those.
   */
  function ScalarDefault(k: Kind): (s: Option<Scalar>)
    ensures s.Some? <==> k !in {StringKind, ObjectPathKind, SignatureKind, VariantKind}
    ensures s.Some? ==> KindOf(s.value) == k && ScalarWord(s.value) == Message.Num(0)
  {
    match k
    case StringKind => None
    case ObjectPathKind => None
    case SignatureKind => None
    case VariantKind => None
    case _ => ScalarFromWord(k, Message.Num(0))
  }

  /** Reading back what `append(context:)` wrote gives the same value; for Bool, 1 != 0 and 0 == 0. */
  lemma ScalarRoundTrip(s: Scalar)
    ensures ScalarFromWord(KindOf(s), ScalarWord(s)) == Some(s)
  {
  }

  /** The Bool case on its own: written as the 32-bit 0 or 1 under the boolean code, read as value != 0. */
  lemma BoolRoundTrip(b: bool)
    ensures ScalarElem(Bool(b)) == Message.Basic(RawValue(Boolean), Message.Num(if b then 1 else 0))
    ensures ScalarFromWord(BoolKind, ScalarWord(Bool(b))) == Some(Bool(b))
  {
  }
}
