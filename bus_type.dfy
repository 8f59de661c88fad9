/**
 * The D-Bus signature characters the client knows about
 * (Bus/SystemdBusType.swift): each tag's raw value is the ASCII code of
 * its character in a D-Bus type signature.
 */
module BusType {
  import opened Wrappers

  datatype SystemdBusType =
    | Invalid
    | Byte | Boolean | Int16 | UInt16 | Int32 | UInt32 | Int64 | UInt64 | Double
    | UnixFd | String | ObjectPath | Signature
    | Array | Struct | StructBegin | StructEnd | Variant | DictEntry | DictEntryBegin | DictEntryEnd

  /** The `CChar` raw value of a tag. */
  function RawValue(t: SystemdBusType): (c: int)
    ensures 0 <= c < 128
    ensures c == 0 <==> t == Invalid
  {
    match t
    case Invalid => 0
    case Byte => 121
    case Boolean => 98
    case Int16 => 110
    case UInt16 => 113
    case Int32 => 105
    case UInt32 => 117
    case Int64 => 120
    case UInt64 => 116
    case Double => 100
    case UnixFd => 104
    case String => 115
    case ObjectPath => 111
    case Signature => 103
    case Array => 97
    case Struct => 114
    case StructBegin => 40
    case StructEnd => 41
    case Variant => 118
    case DictEntry => 101
    case DictEntryBegin => 123
    case DictEntryEnd => 125
  }

  /** `SystemdBusType(rawValue:)`: nil for a code that is no tag. */
  function FromRawValue(c: int): (r: Option<SystemdBusType>)
    ensures r.Some? ==> RawValue(r.value) == c
  {
    if c == 0 then Some(Invalid)
    else if c == 121 then Some(Byte)
    else if c == 98 then Some(Boolean)
    else if c == 110 then Some(Int16)
    else if c == 113 then Some(UInt16)
    else if c == 105 then Some(Int32)
    else if c == 117 then Some(UInt32)
    else if c == 120 then Some(Int64)
    else if c == 116 then Some(UInt64)
    else if c == 100 then Some(Double)
    else if c == 104 then Some(UnixFd)
    else if c == 115 then Some(String)
    else if c == 111 then Some(ObjectPath)
    else if c == 103 then Some(Signature)
    else if c == 97 then Some(Array)
    else if c == 114 then Some(Struct)
    else if c == 40 then Some(StructBegin)
    else if c == 41 then Some(StructEnd)
    else if c == 118 then Some(Variant)
    else if c == 101 then Some(DictEntry)
    else if c == 123 then Some(DictEntryBegin)
    else if c == 125 then Some(DictEntryEnd)
    else None
  }

  /** Every tag is found again from its raw value, so raw values are pairwise distinct. */
  lemma RawValueRoundTrip(t: SystemdBusType)
    ensures FromRawValue(RawValue(t)) == Some(t)
  {
  }

  lemma RawValueInjective(a: SystemdBusType, b: SystemdBusType)
    requires RawValue(a) == RawValue(b)
    ensures a == b
  {
    RawValueRoundTrip(a);
    RawValueRoundTrip(b);
  }

  /** A code is a known tag exactly when it is the raw value of one. */
  lemma FromRawValueComplete(c: int)
    ensures FromRawValue(c).Some? <==> exists t :: RawValue(t) == c
  {
    if exists t :: RawValue(t) == c {
      var t :| RawValue(t) == c;
      RawValueRoundTrip(t);
    }
  }

  /** The raw values are the signature characters of the D-Bus type system. */
  lemma RawValuesAreSignatureCharacters()
    ensures RawValue(Byte) == 'y' as int && RawValue(Boolean) == 'b' as int
    ensures RawValue(Int16) == 'n' as int && RawValue(UInt16) == 'q' as int
    ensures RawValue(Int32) == 'i' as int && RawValue(UInt32) == 'u' as int
    ensures RawValue(Int64) == 'x' as int && RawValue(UInt64) == 't' as int
    ensures RawValue(Double) == 'd' as int && RawValue(UnixFd) == 'h' as int
    ensures RawValue(String) == 's' as int && RawValue(ObjectPath) == 'o' as int
    ensures RawValue(Signature) == 'g' as int && RawValue(Array) == 'a' as int
    ensures RawValue(Struct) == 'r' as int && RawValue(Variant) == 'v' as int
    ensures RawValue(DictEntry) == 'e' as int
    ensures RawValue(StructBegin) == '(' as int && RawValue(StructEnd) == ')' as int
    ensures RawValue(DictEntryBegin) == '{' as int && RawValue(DictEntryEnd) == '}' as int
  {
  }

  predicate IsContainer(t: SystemdBusType)
  {
    match t
    case Array => true
    case Variant => true
    case Struct => true
    case DictEntry => true
    case _ => false
  }

  predicate IsTrivial(t: SystemdBusType)
  {
    match t
    case Byte => true
    case Boolean => true
    case Int16 => true
    case UInt16 => true
    case Int32 => true
    case UInt32 => true
    case Int64 => true
    case UInt64 => true
    case Double => true
    case _ => false
  }

  predicate IsBasic(t: SystemdBusType)
  {
    match t
    case String => true
    case ObjectPath => true
    case Signature => true
    case UnixFd => true
    case _ => IsTrivial(t)
  }

  lemma TrivialIsBasic(t: SystemdBusType)
    requires IsTrivial(t)
    ensures IsBasic(t)
  {
  }

  /** Basic tags are the trivial ones plus the three string kinds and unixFd. */
  lemma BasicCharacterisation(t: SystemdBusType)
    ensures IsBasic(t) <==> IsTrivial(t) || t in {String, ObjectPath, Signature, UnixFd}
  {
  }

  lemma ContainerCharacterisation(t: SystemdBusType)
    ensures IsContainer(t) <==> t in {Array, Variant, Struct, DictEntry}
  {
  }

  /** No tag is both basic and a container; `Invalid` and the four markers are neither. */
  lemma BasicAndContainerDisjoint(t: SystemdBusType)
    ensures !(IsBasic(t) && IsContainer(t))
    ensures t in {Invalid, StructBegin, StructEnd, DictEntryBegin, DictEntryEnd} ==>
              !IsBasic(t) && !IsContainer(t)
  {
  }
}
