/**
 * The legacy dynamic codec (Bus/SystemdTypes.swift; the older single-file
 * SystemdBus.swift holds the same code): `SystemdTypeContext` reads any
 * value out of a message with `next()`, and appends lists of untyped
 * fields, through its own maps between Swift types and type codes.
 *
 * `LState` is the context's state as a value. Each operation is a function
 * on it here; the methods of `LegacyContext.SystemdTypeContext` are proved
 * to follow them. Type codes are raw `CChar` values, as the legacy code
 * keeps them, so a received message may carry codes it has no type for.
 */
module LegacyTypes {
  import opened Wrappers
  import opened BusError
  import opened BusType
  import opened TypeRepresentable
  import opened Dictionaries
  import Message

  /**
   * A Swift `Any` as the legacy codec meets it: a scalar of one of its
   * representable types, an `AnyVariant` around another value, an array
   * `[Any]`, a dictionary `[AnyHashable: Any]` (its pairs in the order the
   * dictionary yields them), or any other value.
   */
  datatype AnyValue =
    | AScalar(scalar: Scalar)
    | AVariant(value: AnyValue)
    | AArray(elements: seq<AnyValue>)
    | ADict(entries: seq<(AnyValue, AnyValue)>)
    | AOther

  /** Conforms to the legacy `SystemdTypeRepresentable`: the scalars and `AnyVariant`. */
  predicate IsRepresentable(v: AnyValue)
  {
    v.AScalar? || v.AVariant?
  }

  /**
   * `as? any Hashable`: the scalars, except the legacy `ObjectPath` and
   * `Signature`, which do not conform to Hashable. Arrays of `Any`,
   * dictionaries and `AnyVariant` do not either.
   */
  predicate IsHashable(v: AnyValue)
  {
    v.AScalar? && !v.scalar.Path? && !v.scalar.Sig?
  }

  // ----- the legacy type maps -----

  /**
   * `_swiftTypeToSystemdType(_:)`: thirteen cases. `Bool` gets the INT32
   * code, and `Int32` has no case at all.
   */
  function LegacyTypeCode(v: AnyValue): (c: Option<int>)
    ensures c.Some? ==> IsRepresentable(v) && c.value != 0
  {
    match v
    case AScalar(s) =>
      (match s
       case U8(_) => Some(RawValue(Byte))
       case Bool(_) => Some(RawValue(Int32))
       case I32(_) => None
       case U32(_) => Some(RawValue(UInt32))
       case Fd(_) => Some(RawValue(UnixFd))
       case I16(_) => Some(RawValue(Int16))
       case U16(_) => Some(RawValue(UInt16))
       case I64(_) => Some(RawValue(Int64))
       case U64(_) => Some(RawValue(UInt64))
       case F64(_) => Some(RawValue(Double))
       case Str(_) => Some(RawValue(String))
       case Path(_) => Some(RawValue(ObjectPath))
       case Sig(_) => Some(RawValue(Signature)))
    case AVariant(_) => Some(RawValue(Variant))
    case _ => None
  }

  /** `_systemdTypeToSwiftType(_:)`: the type a code is read as; `AnyVariant` for the variant code. */
  function LegacyKind(code: int): Option<Kind>
  {
    if code == RawValue(Byte) then Some(UInt8Kind)
    else if code == RawValue(Boolean) then Some(BoolKind)
    else if code == RawValue(Int32) then Some(Int32Kind)
    else if code == RawValue(UInt32) then Some(UInt32Kind)
    else if code == RawValue(UnixFd) then Some(FileDescriptorKind)
    else if code == RawValue(Int16) then Some(Int16Kind)
    else if code == RawValue(UInt16) then Some(UInt16Kind)
    else if code == RawValue(Int64) then Some(Int64Kind)
    else if code == RawValue(UInt64) then Some(UInt64Kind)
    else if code == RawValue(Double) then Some(DoubleKind)
    else if code == RawValue(String) then Some(StringKind)
    else if code == RawValue(ObjectPath) then Some(ObjectPathKind)
    else if code == RawValue(Signature) then Some(SignatureKind)
    else if code == RawValue(Variant) then Some(VariantKind)
    else None
  }

  /**
   * The forward map is defined for every representable value but `Int32`;
   * it agrees with the registry of the Codable layer except for `Bool`,
   * which it tags as INT32 instead of BOOLEAN.
   */
  lemma LegacyTypeCodeAgainstRegistry(v: AnyValue)
    ensures LegacyTypeCode(v).Some? <==> v.AVariant? || (v.AScalar? && !v.scalar.I32?)
    ensures v.AScalar? && !v.scalar.I32? && !v.scalar.Bool? ==>
              LegacyTypeCode(v) == Some(KindCode(KindOf(v.scalar)))
    ensures v.AScalar? && v.scalar.Bool? ==>
              LegacyTypeCode(v) == Some(RawValue(Int32)) && RawValue(Int32) != KindCode(BoolKind)
    ensures v.AVariant? ==> LegacyTypeCode(v) == Some(KindCode(VariantKind))
  {
  }

  /** The reverse map is the registry's: defined for the basic codes and the variant code only. */
  lemma LegacyKindIsRegistry(code: int)
    ensures LegacyKind(code) == if FromRawValue(code).Some? then TagKind(FromRawValue(code).value) else None
  {
  }

  /**
   * Reading back the code of a value gives its own kind, except that a
   * Bool comes back as Int32.
   */
  lemma LegacyMapsRoundTrip(s: Scalar)
    requires !s.I32?
    ensures LegacyKind(LegacyTypeCode(AScalar(s)).value) == Some(if s.Bool? then Int32Kind else KindOf(s))
  {
  }

  // ----- the context's state -----

  /** `_message`, `_level`, `_currentType` and `_contents` (a NUL-terminated C string). */
  datatype LState = LState(msg: Message.MsgState, level: int, currentType: int, contents: Option<seq<int>>)

  predicate Valid(s: LState)
  {
    Message.Valid(s.msg)
  }

  /** `init(message:)`: level 1, type code 0, no contents. */
  function NewState(m: Message.MsgState): (s: LState)
    ensures s.msg == m && s.level == 1 && s.currentType == 0 && s.contents.None?
  {
    LState(m, 1, 0, None)
  }

  /** The level has moved exactly as far as the stack of entered containers. */
  predicate Balanced(a: LState, b: LState)
  {
    b.level - |b.msg.cursor| == a.level - |a.msg.cursor|
  }

  /** b reads the same container as a (same outer containers, same kind of innermost one), perhaps further on. */
  predicate SameContainer(a: Message.MsgState, b: Message.MsgState)
  {
    |a.cursor| == |b.cursor| >= 1
    && a.cursor[..|a.cursor| - 1] == b.cursor[..|b.cursor| - 1]
    && a.cursor[|a.cursor| - 1].code == b.cursor[|b.cursor| - 1].code
  }

  lemma AdvanceSameContainer(m: Message.MsgState)
    requires Message.Valid(m) && m.sealed && !Message.AtEndOfContainer(m)
    ensures SameContainer(m, Message.Advance(m))
  {
    var n := |m.cursor|;
    assert Message.Advance(m).cursor[..n - 1] == m.cursor[..n - 1];
  }

  /** An optional `[CChar]` handed to libsystemd as a C string: read up to its first NUL. */
  function CStringArg(c: Option<seq<int>>): (r: Option<seq<int>>)
    ensures r.Some? <==> c.Some?
  {
    if c.Some? then Some(Message.CString(c.value)) else None
  }

  // ----- the libsystemd calls of the context -----

  /**
   * `_peekType()`: libsystemd's return value, the type code, and for a
   * container its contents signature, copied with its terminating NUL.
   */
  function PeekSpec(m: Message.MsgState): (res: (int, int, Option<seq<int>>))
    requires Message.Valid(m)
    ensures Message.IsReturn(res.0)
    ensures res.0 < 0 <==> !m.sealed
    ensures res.0 == 0 <==> m.sealed && Message.AtEndOfContainer(m)
    ensures res.0 > 0 ==> res.1 == Message.Next(m).code
    ensures res.2.Some? <==> res.0 > 0 && Message.Next(m).Container?
    ensures res.2.Some? ==> res.2.value == Message.CString(Message.Next(m).sig) + [0]
  {
    var (r, code, sig) := Message.PeekType(m);
    (r, code, if r > 0 && sig.Some? then Some(Message.CString(sig.value) + [0]) else None)
  }

  /**
   * `enterContainer(type:contents:)`: the arguments, or else the type and
   * contents of the last peek; the level goes up only when libsystemd
   * entered a container (it returns 0 at the end of an array).
   */
  function EnterSpec(s: LState, t: Option<int>, c: Option<seq<int>>): (res: (LState, Result<int>))
    requires Valid(s)
    ensures Valid(res.0) && Balanced(s, res.0) && !res.1.Trap?
    ensures res.0.currentType == s.currentType && res.0.contents == s.contents
    ensures Message.Weight(res.0.msg) <= Message.Weight(s.msg)
    ensures !res.1.Ok? ==> res.0 == s
    ensures res.1.Ok? ==> s.msg.sealed && res.0.msg.sealed && res.1.value >= 0
    ensures res.1.Ok? ==> res.0.level == if res.1.value > 0 then s.level + 1 else s.level
    ensures res.1.Ok? && res.1.value == 0 ==>
              res.0 == s && Message.AtEndOfContainer(s.msg) && Message.Top(s.msg).code == Message.ARRAY_CODE
    ensures res.1.Ok? && res.1.value > 0 ==>
              Message.Weight(res.0.msg) < Message.Weight(s.msg)
              && |res.0.msg.cursor| == |s.msg.cursor| + 1 && !Message.AtEndOfContainer(s.msg)
              && res.0.msg.cursor[..|s.msg.cursor|] == Message.Advance(s.msg).cursor
              && Message.Top(res.0.msg).code == (if t.Some? then t.value else s.currentType)
  {
    var code := if t.Some? then t.value else s.currentType;
    var sig := CStringArg(if c.Some? then c else s.contents);
    var (r, m) := Message.EnterContainer(s.msg, code, sig);
    Message.EnterWeight(s.msg, code, sig);
    if r < 0 then (s, Fail(ErrorOf(r)))
    else (s.(msg := m, level := if r > 0 then s.level + 1 else s.level), Ok(r))
  }

  /** `exitContainer()`: the level goes down once libsystemd has left the container. */
  function ExitSpec(s: LState): (res: (LState, Result<()>))
    requires Valid(s)
    ensures Valid(res.0) && Balanced(s, res.0) && !res.1.Trap?
    ensures Message.Weight(res.0.msg) <= Message.Weight(s.msg)
    ensures !res.1.Ok? ==> res.0 == s
    ensures res.1.Ok? ==> |s.msg.cursor| > 1 && res.0.level == s.level - 1
                          && res.0 == s.(msg := s.msg.(cursor := s.msg.cursor[..|s.msg.cursor| - 1]), level := s.level - 1)
  {
    var (r, m) := Message.ExitContainer(s.msg);
    Message.ExitWeight(s.msg);
    if r < 0 then (s, Fail(ErrorOf(r))) else (s.(msg := m, level := s.level - 1), Ok(()))
  }

  /**
   * `openContainer(type:contents:)`. The contents array is handed over as
   * it is; the level goes up once libsystemd has opened the container.
   */
  function OpenSpec(s: LState, t: int, contents: seq<int>): (res: (LState, Result<()>))
    ensures !res.1.Trap?
    ensures res.1.Ok? <==> !s.msg.sealed && Message.ValidContents(t, contents)
    ensures !res.1.Ok? ==> res.0 == s && res.1 == Fail(ErrorOf(if s.msg.sealed then -EPERM else -EINVAL))
    ensures res.1.Ok? ==>
              res.0 == s.(msg := s.msg.(open := s.msg.open + [Message.Frame(t, contents, [])]), level := s.level + 1)
  {
    var (r, m) := Message.OpenContainer(s.msg, t, contents);
    if r < 0 then (s, Fail(ErrorOf(r))) else (s.(msg := m, level := s.level + 1), Ok(()))
  }

  /** `closeContainer()`: the level goes down once libsystemd has closed the container. */
  function CloseSpec(s: LState): (res: (LState, Result<()>))
    ensures !res.1.Trap?
    ensures res.1.Ok? <==> !s.msg.sealed && s.msg.open != []
    ensures !res.1.Ok? ==> res.0 == s
    ensures res.1.Ok? ==> res.0 == s.(msg := Message.CloseContainer(s.msg).1, level := s.level - 1)
  {
    var (r, m) := Message.CloseContainer(s.msg);
    if r < 0 then (s, Fail(ErrorOf(r))) else (s.(msg := m, level := s.level - 1), Ok(()))
  }

  /** `rewind()`: back to the start of the message body. */
  function RewindSpec(s: LState): (res: (LState, Result<()>))
    requires Valid(s)
    ensures Valid(res.0) && !res.1.Trap?
    ensures res.1.Ok? <==> s.msg.sealed
    ensures !res.1.Ok? ==> res.0 == s
    ensures res.1.Ok? ==> res.0 == s.(msg := Message.Received(s.msg.body))
  {
    var (r, m) := Message.Rewind(s.msg, true);
    if r < 0 then (s, Fail(ErrorOf(r))) else (s.(msg := m), Ok(()))
  }

  /**
   * `read(context:)` of a scalar type: `read_basic` into a zeroed
   * temporary. At the end of an array libsystemd returns 0 and leaves the
   * temporary as it was: zero, false, or a nil string pointer that is
   * then dereferenced.
   */
  function ReadScalarSpec(s: LState, k: Kind): (res: (LState, Result<Scalar>))
    requires Valid(s) && k != VariantKind
    ensures Valid(res.0) && Balanced(s, res.0)
    ensures res.0 == s.(msg := res.0.msg)
    ensures Message.Weight(res.0.msg) <= Message.Weight(s.msg)
    ensures res.1.Ok? ==> KindOf(res.1.value) == k && s.msg.sealed && SameContainer(s.msg, res.0.msg)
    ensures res.1.Ok? && !Message.AtEndOfContainer(s.msg) ==> Message.Weight(res.0.msg) < Message.Weight(s.msg)
  {
    var (r, w, m) := Message.ReadBasic(s.msg, KindCode(k));
    if r < 0 then (s, Fail(ErrorOf(r)))
    else if r == 0 then (s, if ScalarDefault(k).Some? then Ok(ScalarDefault(k).value) else Trap)
    else
      Message.AdvanceWeight(s.msg);
      AdvanceSameContainer(s.msg);
      (s.(msg := m), Ok(ScalarFromWord(k, w.value).value))
  }

  /** `read_basic` fails, returns 0 or advances; for a value `next()` has just peeked it advances. */
  lemma ReadScalarAdvances(s: LState, k: Kind)
    requires Valid(s) && k != VariantKind && s.msg.sealed && !Message.AtEndOfContainer(s.msg)
    requires Message.Next(s.msg).Basic? && Message.Next(s.msg).code == KindCode(k)
    ensures ReadScalarSpec(s, k) == (s.(msg := Message.Advance(s.msg)), Ok(ScalarFromWord(k, Message.Next(s.msg).word).value))
  {
  }

  // ----- reading: next() -----

  /** `if let _value = value as? AnyVariant { value = _value.value }`. */
  function Unwrap(v: AnyValue): (r: AnyValue)
    ensures v.AVariant? ==> r == v.value
    ensures !v.AVariant? ==> r == v
  {
    if v.AVariant? then v.value else v
  }

  /**
   * What `next()` can return: no `AnyVariant` at any depth (each is
   * unwrapped as it is read), and dictionaries whose keys are hashable and
   * distinct.
   */
  predicate Decoded(v: AnyValue)
  {
    match v
    case AScalar(_) => true
    case AArray(es) => forall i :: 0 <= i < |es| ==> Decoded(es[i])
    case ADict(entries) =>
      DistinctKeys(entries) && forall i :: 0 <= i < |entries| ==> IsHashable(entries[i].0) && Decoded(entries[i].1)
    case AVariant(_) => false
    case AOther => false
  }

  /** `_isDictionary`: the peeked contents start with `{`. */
  predicate IsDictionary(s: LState)
    requires s.contents.Some? ==> |s.contents.value| > 0
  {
    s.contents.Some? && s.contents.value[0] == RawValue(DictEntryBegin)
  }

  /**
   * `next()`: peek; nil at the end of the current container; an array or
   * dictionary read as a whole; otherwise the type the code maps to, or
   * EBADMSG when there is none. A variant comes back unwrapped.
   */
  function NextSpec(s: LState): (res: (LState, Result<Option<AnyValue>>))
    requires Valid(s)
    ensures Valid(res.0) && Balanced(s, res.0)
    ensures Message.Weight(res.0.msg) <= Message.Weight(s.msg)
    ensures res.1 == Ok(None) <==> s.msg.sealed && Message.AtEndOfContainer(s.msg)
    ensures res.1.Ok? ==> s.msg.sealed && SameContainer(s.msg, res.0.msg)
    ensures res.1.Ok? && res.1.value.Some? ==>
              Message.Weight(res.0.msg) < Message.Weight(s.msg) && Decoded(res.1.value.value)
    decreases Message.Weight(s.msg), 2
  {
    var (r, code, contents) := PeekSpec(s.msg);
    if r < 0 then (s, Fail(ErrorOf(r)))
    else
      var s1 := s.(currentType := code, contents := contents);
      if r == 0 then (s1, Ok(None))
      else
        var (s2, v) := ReadPeeked(s1);
        (s2, if v.Ok? then Ok(Some(Unwrap(v.value))) else Lift(v))
  }

  /** The body of `next()` once the peek found an element. */
  function ReadPeeked(s: LState): (res: (LState, Result<AnyValue>))
    requires Valid(s) && s.msg.sealed && !Message.AtEndOfContainer(s.msg)
    requires s.contents.Some? ==> |s.contents.value| > 0
    ensures Valid(res.0) && Balanced(s, res.0)
    ensures Message.Weight(res.0.msg) <= Message.Weight(s.msg)
    ensures res.1.Ok? ==> SameContainer(s.msg, res.0.msg)
    ensures res.1.Ok? ==> Message.Weight(res.0.msg) < Message.Weight(s.msg) && Decoded(Unwrap(res.1.value))
    decreases Message.Weight(s.msg), 1
  {
    if s.currentType == Message.ARRAY_CODE then
      if IsDictionary(s) then ReadDictionarySpec(s) else ReadArraySpec(s)
    else
      match LegacyKind(s.currentType)
      case None => (s, Fail(ErrorOf(EBADMSG)))
      case Some(k) =>
        if k == VariantKind then ReadVariantSpec(s)
        else
          var (s1, r) := ReadScalarSpec(s, k);
          (s1, if r.Ok? then Ok(AScalar(r.value)) else Lift(r))
  }

  /** `_readArray()`: enter, then `next()` until nil, then exit. */
  function ReadArraySpec(s: LState): (res: (LState, Result<AnyValue>))
    requires Valid(s) && s.msg.sealed && !Message.AtEndOfContainer(s.msg)
    ensures Valid(res.0) && Balanced(s, res.0)
    ensures Message.Weight(res.0.msg) <= Message.Weight(s.msg)
    ensures res.1.Ok? ==> SameContainer(s.msg, res.0.msg)
    ensures res.1.Ok? ==> Message.Weight(res.0.msg) < Message.Weight(s.msg)
    ensures res.1.Ok? ==> res.1.value.AArray? && Decoded(res.1.value)
    decreases Message.Weight(s.msg), 0
  {
    var (s1, r1) := EnterSpec(s, None, None);
    if !r1.Ok? then (s1, Lift(r1))
    else
      var (s2, r2) := ReadElements(s1, []);
      if !r2.Ok? then (s2, r2)
      else
        var (s3, r3) := ExitSpec(s2);
        if !r3.Ok? then (s3, Lift(r3)) else (s3, r2)
  }

  /** The `repeat` loop of `_readArray()`, with the elements read so far. */
  function ReadElements(s: LState, acc: seq<AnyValue>): (res: (LState, Result<AnyValue>))
    requires Valid(s) && forall i :: 0 <= i < |acc| ==> Decoded(acc[i])
    ensures Valid(res.0) && Balanced(s, res.0)
    ensures Message.Weight(res.0.msg) <= Message.Weight(s.msg)
    ensures res.1.Ok? ==> s.msg.sealed && SameContainer(s.msg, res.0.msg)
    ensures res.1.Ok? ==> res.1.value.AArray? && Decoded(res.1.value)
    ensures res.1.Ok? ==> |res.1.value.elements| >= |acc| && res.1.value.elements[..|acc|] == acc
    decreases Message.Weight(s.msg), 3
  {
    var (s1, r) := NextSpec(s);
    if !r.Ok? then (s1, Lift(r))
    else if r.value.None? then (s1, Ok(AArray(acc)))
    else
      var acc' := acc + [r.value.value];
      assert acc'[..|acc|] == acc;
      ReadElements(s1, acc')
  }

  /**
   * `_readDictionary()`: the entry signature is the peeked contents
   * without the leading `{` and the trailing `}` and NUL, terminated
   * again; contents too short for that range stop the program.
   */
  function ReadDictionarySpec(s: LState): (res: (LState, Result<AnyValue>))
    requires Valid(s) && s.msg.sealed && !Message.AtEndOfContainer(s.msg)
    requires s.contents.Some?
    ensures Valid(res.0) && Balanced(s, res.0)
    ensures Message.Weight(res.0.msg) <= Message.Weight(s.msg)
    ensures res.1.Ok? ==> SameContainer(s.msg, res.0.msg)
    ensures res.1.Ok? ==> Message.Weight(res.0.msg) < Message.Weight(s.msg)
    ensures res.1.Ok? ==> res.1.value.ADict? && Decoded(res.1.value)
    decreases Message.Weight(s.msg), 0
  {
    var c := s.contents.value;
    if |c| < 3 then (s, Trap)
    else
      var entrySig := c[1..|c| - 2] + [0];
      var (s1, r1) := EnterSpec(s, None, None);
      if !r1.Ok? then (s1, Lift(r1))
      else
        var (s2, r2) := ReadEntries(s1, entrySig, []);
        if !r2.Ok? then (s2, r2)
        else
          var (s3, r3) := ExitSpec(s2);
          if !r3.Ok? then (s3, Lift(r3)) else (s3, r2)
  }

  /** The keys and values a dictionary read so far may hold. */
  predicate EntriesDecoded(entries: seq<(AnyValue, AnyValue)>)
  {
    DistinctKeys(entries) && forall i :: 0 <= i < |entries| ==> IsHashable(entries[i].0) && Decoded(entries[i].1)
  }

  /**
   * The loop of `_readDictionary()`: enter the next dict entry (stop when
   * libsystemd returns 0), read a hashable key and a value, store them, and
   * leave the entry through the `defer`, whose error is discarded.
   */
  function ReadEntries(s: LState, entrySig: seq<int>, acc: seq<(AnyValue, AnyValue)>): (res: (LState, Result<AnyValue>))
    requires Valid(s) && EntriesDecoded(acc)
    ensures Valid(res.0) && Balanced(s, res.0)
    ensures Message.Weight(res.0.msg) <= Message.Weight(s.msg)
    ensures res.1.Ok? ==> s.msg.sealed && SameContainer(s.msg, res.0.msg)
                          && Message.Top(s.msg).code == Message.ARRAY_CODE
    ensures res.1.Ok? ==> res.1.value.ADict? && EntriesDecoded(res.1.value.entries)
    decreases Message.Weight(s.msg), 3
  {
    var (s1, r1) := EnterSpec(s, Some(Message.DICT_ENTRY_CODE), Some(entrySig));
    if !r1.Ok? then (s1, Lift(r1))
    else if r1.value == 0 then (s1, Ok(ADict(acc)))
    else
      var (s2, entry) := ReadEntry(s1);
      var s3 := ExitSpec(s2).0;
      if !entry.Ok? then (s3, Lift(entry))
      else
        var (k, v) := entry.value;
        AssignEntriesDecoded(acc, k, v);
        ReadEntries(s3, entrySig, Assign(acc, k, v))
  }

  /** The key and the value of one dict entry: a nil or unhashable key, or a nil value, is EBADMSG. */
  function ReadEntry(s: LState): (res: (LState, Result<(AnyValue, AnyValue)>))
    requires Valid(s)
    ensures Valid(res.0) && Balanced(s, res.0)
    ensures Message.Weight(res.0.msg) <= Message.Weight(s.msg)
    ensures res.1.Ok? ==> s.msg.sealed && SameContainer(s.msg, res.0.msg)
    ensures res.1.Ok? ==> IsHashable(res.1.value.0) && Decoded(res.1.value.1)
    decreases Message.Weight(s.msg), 3
  {
    var (s1, key) := NextSpec(s);
    if !key.Ok? then (s1, Lift(key))
    else if key.value.None? || !IsHashable(key.value.value) then (s1, Fail(ErrorOf(EBADMSG)))
    else
      var (s2, value) := NextSpec(s1);
      if !value.Ok? then (s2, Lift(value))
      else if value.value.None? then (s2, Fail(ErrorOf(EBADMSG)))
      else (s2, Ok((key.value.value, value.value.value)))
  }

  lemma AssignEntriesDecoded(acc: seq<(AnyValue, AnyValue)>, k: AnyValue, v: AnyValue)
    requires EntriesDecoded(acc) && IsHashable(k) && Decoded(v)
    ensures EntriesDecoded(Assign(acc, k, v))
  {
    AssignDistinct(acc, k, v);
    var r := Assign(acc, k, v);
    forall i | 0 <= i < |r|
      ensures IsHashable(r[i].0) && Decoded(r[i].1)
    {
      if r[i] != (k, v) {
        var j :| 0 <= j < |acc| && acc[j] == r[i];
      }
    }
  }

  /** `AnyVariant.read(context:)`: enter, `next()` (nil is EBADMSG), exit. */
  function ReadVariantSpec(s: LState): (res: (LState, Result<AnyValue>))
    requires Valid(s) && s.msg.sealed && !Message.AtEndOfContainer(s.msg)
    ensures Valid(res.0) && Balanced(s, res.0)
    ensures Message.Weight(res.0.msg) <= Message.Weight(s.msg)
    ensures res.1.Ok? ==> SameContainer(s.msg, res.0.msg)
    ensures res.1.Ok? ==> Message.Weight(res.0.msg) < Message.Weight(s.msg)
    ensures res.1.Ok? ==> res.1.value.AVariant? && Decoded(res.1.value.value)
    decreases Message.Weight(s.msg), 0
  {
    var (s1, r1) := EnterSpec(s, None, None);
    if !r1.Ok? then (s1, Lift(r1))
    else
      var (s2, r2) := NextSpec(s1);
      if !r2.Ok? then (s2, Lift(r2))
      else if r2.value.None? then (s2, Fail(ErrorOf(EBADMSG)))
      else
        var (s3, r3) := ExitSpec(s2);
        if !r3.Ok? then (s3, Lift(r3)) else (s3, Ok(AVariant(r2.value.value)))
  }

  // ----- writing -----

  /** `append(context:)` of a scalar: `append_basic` under its own code (BOOLEAN for a Bool). */
  function AppendScalarSpec(s: LState, sc: Scalar): (res: (LState, Result<()>))
    ensures !res.1.Trap?
    ensures res.1.Ok? <==> !s.msg.sealed
    ensures !res.1.Ok? ==> res.0 == s
    ensures res.1.Ok? ==> res.0 == s.(msg := Message.AddItem(s.msg, ScalarElem(sc)))
  {
    var e := ScalarElem(sc);
    var (r, m) := Message.AppendBasic(s.msg, e.code, e.word);
    if r < 0 then (s, Fail(ErrorOf(r))) else (s.(msg := m), Ok(()))
  }

  /** A value `append(context:)` writes into an open message: a variant's payload needs a legacy type code. */
  predicate Writable(v: AnyValue)
  {
    match v
    case AScalar(_) => true
    case AVariant(p) => LegacyTypeCode(p).Some? && Writable(p)
    case AArray(_) => false
    case ADict(_) => false
    case AOther => false
  }

  /** The element a writable value becomes. */
  function Wire(v: AnyValue): (e: Message.Elem)
    requires Writable(v)
  {
    match v
    case AScalar(sc) => ScalarElem(sc)
    case AVariant(p) => Message.Container(Message.VARIANT_CODE, [LegacyTypeCode(p).value], [Wire(p)])
  }

  /** Closing a container opened on m, after es were added to it, adds one container holding es to m. */
  lemma CloseAfterItems(m: Message.MsgState, f: Message.Frame, es: seq<Message.Elem>)
    requires !m.sealed && f.items == []
    ensures Message.CloseContainer(Message.AddItems(m.(open := m.open + [f]), es))
            == (0, Message.AddItem(m, Message.Container(f.code, f.sig, es)))
  {
    Message.AddItemsToOpenFrame(m, f, es);
    assert f.items + es == es;
    Message.CloseOpenFrame(m, f.(items := es));
  }

  /** `AnyVariant.append(context:)`: a payload without a legacy type code is EBADMSG. */
  function AppendValueSpec(s: LState, v: AnyValue): (res: (LState, Result<()>))
    requires IsRepresentable(v)
    ensures !res.1.Trap?
    ensures res.1.Ok? <==> !s.msg.sealed && Writable(v)
    ensures res.1.Ok? ==> res.0 == s.(msg := Message.AddItem(s.msg, Wire(v)))
    decreases v
  {
    match v
    case AScalar(sc) => AppendScalarSpec(s, sc)
    case AVariant(p) =>
      if LegacyTypeCode(p).None? then (s, Fail(ErrorOf(EBADMSG)))
      else
        var f := Message.Frame(RawValue(Variant), [LegacyTypeCode(p).value], []);
        OneCodeOpens(f.code, p);
        var (s1, r1) := OpenSpec(s, f.code, f.sig);
        if !r1.Ok? then (s1, r1)
        else
          var (s2, r2) := AppendValueSpec(s1, p);
          if !r2.Ok? then (s2, r2)
          else
            assert Message.AddItems(s1.msg, [Wire(p)]) == s2.msg by {
              assert [Wire(p)][1..] == [];
            }
            CloseAfterItems(s.msg, f, [Wire(p)]);
            CloseSpec(s2)
  }

  predicate WritableFrom(elems: seq<AnyValue>, i: nat)
  {
    forall j :: i <= j < |elems| ==> Writable(elems[j])
  }

  /** The elements written for elems[i..]. */
  function WiresFrom(elems: seq<AnyValue>, i: nat): (r: seq<Message.Elem>)
    requires i <= |elems| && WritableFrom(elems, i)
    ensures |r| == |elems| - i
  {
    seq(|elems| - i, k requires 0 <= k < |elems| - i => Wire(elems[i + k]))
  }

  /** Adding the wires of elems[i..] is adding the wire of elems[i], then the rest. */
  lemma AddWiresStep(m: Message.MsgState, elems: seq<AnyValue>, i: nat)
    requires !m.sealed && i < |elems| && WritableFrom(elems, i)
    ensures Message.AddItems(m, WiresFrom(elems, i)) == Message.AddItems(Message.AddItem(m, Wire(elems[i])), WiresFrom(elems, i + 1))
  {
    var w := WiresFrom(elems, i);
    assert w[0] == Wire(elems[i]) && w[1..] == WiresFrom(elems, i + 1);
  }

  /**
   * `_appendArray(_:)`: EINVAL for an empty array, before anything is
   * written; otherwise the array is opened with the legacy code of its
   * first element, and each element must be representable.
   */
  function AppendArraySpec(s: LState, elems: seq<AnyValue>): (res: (LState, Result<()>))
    ensures !res.1.Trap?
    ensures elems == [] ==> res == (s, Fail(ErrorOf(EINVAL)))
    ensures res.1.Ok? <==> !s.msg.sealed && elems != [] && LegacyTypeCode(elems[0]).Some? && WritableFrom(elems, 0)
    ensures res.1.Ok? ==>
              res.0 == s.(msg := Message.AddItem(s.msg, Message.Container(Message.ARRAY_CODE, [LegacyTypeCode(elems[0]).value], WiresFrom(elems, 0))))
  {
    if elems == [] then (s, Fail(ErrorOf(EINVAL)))
    else
      var (s1, r1) := AppendElements(s, elems, 0);
      if !r1.Ok? then (s1, r1)
      else
        CloseAfterItems(s.msg, Message.Frame(Message.ARRAY_CODE, [LegacyTypeCode(elems[0]).value], []), WiresFrom(elems, 0));
        CloseSpec(s1)
  }

  /** The `for` loop of `_appendArray(_:)` from element i on; the first element opens the array. */
  function AppendElements(s: LState, elems: seq<AnyValue>, i: nat): (res: (LState, Result<()>))
    requires i <= |elems|
    ensures !res.1.Trap?
    ensures 0 < i ==> (res.1.Ok? <==> (i == |elems| || !s.msg.sealed) && WritableFrom(elems, i))
    ensures 0 < i && res.1.Ok? && !s.msg.sealed ==> res.0 == s.(msg := Message.AddItems(s.msg, WiresFrom(elems, i)))
    ensures i == 0 < |elems| ==>
              (res.1.Ok? <==> !s.msg.sealed && LegacyTypeCode(elems[0]).Some? && WritableFrom(elems, 0))
    ensures i == 0 < |elems| && res.1.Ok? ==>
              res.0 == s.(msg := Message.AddItems(s.msg.(open := s.msg.open + [Message.Frame(Message.ARRAY_CODE, [LegacyTypeCode(elems[0]).value], [])]), WiresFrom(elems, 0)),
                          level := s.level + 1)
    decreases |elems| - i
  {
    if i == |elems| then (s, Ok(()))
    else
      var e := elems[i];
      if !IsRepresentable(e) then (s, Fail(ErrorOf(EINVAL)))
      else if i == 0 && LegacyTypeCode(e).None? then (s, Fail(ErrorOf(EINVAL)))
      else
        var (s1, r1) := if i == 0 then OneCodeOpens(Message.ARRAY_CODE, e); OpenSpec(s, Message.ARRAY_CODE, [LegacyTypeCode(e).value]) else (s, Ok(()));
        if !r1.Ok? then (s1, r1)
        else
          var (s2, r2) := AppendValueSpec(s1, e);
          if !r2.Ok? then (s2, r2)
          else
            if WritableFrom(elems, i) then
              AddWiresStep(s1.msg, elems, i);
              AppendElements(s2, elems, i + 1)
            else
              AppendElements(s2, elems, i + 1)
  }

  /**
   * A key-value pair `_appendDictionary(_:)` writes: both have a legacy
   * type code, the value can be appended, and the key is a scalar, since
   * libsystemd refuses a dict entry whose key code is not basic.
   */
  predicate EntryWritable(k: AnyValue, v: AnyValue)
  {
    k.AScalar? && LegacyTypeCode(k).Some? && LegacyTypeCode(v).Some? && Writable(v)
  }

  /** The legacy code of a scalar is basic, and that of a variant is `v`. */
  lemma LegacyCodeClass(v: AnyValue)
    requires LegacyTypeCode(v).Some?
    ensures Message.IsBasicCode(LegacyTypeCode(v).value) <==> v.AScalar?
    ensures LegacyTypeCode(v).value == Message.VARIANT_CODE <==> v.AVariant?
  {
  }

  /** An array or variant declared with one value's legacy code is always accepted. */
  lemma OneCodeOpens(c: int, v: AnyValue)
    requires c == Message.ARRAY_CODE || c == Message.VARIANT_CODE
    requires LegacyTypeCode(v).Some?
    ensures Message.ValidContents(c, [LegacyTypeCode(v).value])
  {
    LegacyCodeClass(v);
    Message.SingleCode(LegacyTypeCode(v).value, c == Message.ARRAY_CODE);
  }

  predicate EntriesWritableFrom(entries: seq<(AnyValue, AnyValue)>, i: nat)
  {
    forall j :: i <= j < |entries| ==> EntryWritable(entries[j].0, entries[j].1)
  }

  /** The array signature `{kv}` opened for the first pair. */
  function DictSig(k: AnyValue, v: AnyValue): seq<int>
    requires LegacyTypeCode(k).Some? && LegacyTypeCode(v).Some?
  {
    [RawValue(DictEntryBegin), LegacyTypeCode(k).value, LegacyTypeCode(v).value, RawValue(DictEntryEnd)]
  }

  /** The dict entry written for a pair. */
  function EntryWire(k: AnyValue, v: AnyValue): Message.Elem
    requires EntryWritable(k, v)
  {
    Message.Container(Message.DICT_ENTRY_CODE, [LegacyTypeCode(k).value, LegacyTypeCode(v).value], [Wire(k), Wire(v)])
  }

  function EntryWiresFrom(entries: seq<(AnyValue, AnyValue)>, i: nat): (r: seq<Message.Elem>)
    requires i <= |entries| && EntriesWritableFrom(entries, i)
    ensures |r| == |entries| - i
    decreases |entries| - i
  {
    if i == |entries| then [] else [EntryWire(entries[i].0, entries[i].1)] + EntryWiresFrom(entries, i + 1)
  }

  lemma AddEntryWiresStep(m: Message.MsgState, entries: seq<(AnyValue, AnyValue)>, i: nat)
    requires !m.sealed && i < |entries| && EntriesWritableFrom(entries, i)
    ensures Message.AddItems(m, EntryWiresFrom(entries, i))
            == Message.AddItems(Message.AddItem(m, EntryWire(entries[i].0, entries[i].1)), EntryWiresFrom(entries, i + 1))
  {
    var w := EntryWiresFrom(entries, i);
    assert w[0] == EntryWire(entries[i].0, entries[i].1) && w[1..] == EntryWiresFrom(entries, i + 1);
  }

  /** Two items added after an open: the container closes holding exactly those two. */
  lemma CloseAfterTwo(m: Message.MsgState, f: Message.Frame, a: Message.Elem, b: Message.Elem)
    requires !m.sealed && f.items == []
    ensures Message.CloseContainer(Message.AddItem(Message.AddItem(m.(open := m.open + [f]), a), b))
            == (0, Message.AddItem(m, Message.Container(f.code, f.sig, [a, b])))
  {
    var m0 := m.(open := m.open + [f]);
    var m1 := Message.AddItem(m0, a);
    assert [a, b][0] == a && [a, b][1..] == [b] && [b][1..] == [];
    assert Message.AddItems(m0, [a, b]) == Message.AddItems(m1, [b]);
    assert Message.AddItems(m1, [b]) == Message.AddItems(Message.AddItem(m1, b), []);
    CloseAfterItems(m, f, [a, b]);
  }

  /**
   * One pass of the loop of `_appendDictionary(_:)`: EINVAL unless key and
   * value have legacy type codes; the first pair opens the array; then a
   * dict entry holding the key and the value.
   */
  function AppendEntry(s: LState, k: AnyValue, v: AnyValue, first: bool): (res: (LState, Result<()>))
    ensures !res.1.Trap?
    ensures res.1.Ok? <==> !s.msg.sealed && EntryWritable(k, v)
    ensures res.1.Ok? && first ==>
              res.0 == s.(msg := Message.AddItem(s.msg.(open := s.msg.open + [Message.Frame(Message.ARRAY_CODE, DictSig(k, v), [])]), EntryWire(k, v)),
                          level := s.level + 1)
    ensures res.1.Ok? && !first ==> res.0 == s.(msg := Message.AddItem(s.msg, EntryWire(k, v)))
  {
    if LegacyTypeCode(k).None? || LegacyTypeCode(v).None? then (s, Fail(ErrorOf(EINVAL)))
    else if !first then AppendEntryItems(s, k, v)
    else
      LegacyCodeClass(k);
      LegacyCodeClass(v);
      Message.DictArrayContents(LegacyTypeCode(k).value, LegacyTypeCode(v).value);
      var (s1, r1) := OpenSpec(s, Message.ARRAY_CODE, DictSig(k, v));
      if !r1.Ok? then (s1, r1) else AppendEntryItems(s1, k, v)
  }

  /** The dict entry of one pass: open it, append the key and the value, close it. */
  function AppendEntryItems(s: LState, k: AnyValue, v: AnyValue): (res: (LState, Result<()>))
    requires LegacyTypeCode(k).Some? && LegacyTypeCode(v).Some?
    ensures !res.1.Trap?
    ensures res.1.Ok? <==> !s.msg.sealed && EntryWritable(k, v)
    ensures res.1.Ok? ==> res.0 == s.(msg := Message.AddItem(s.msg, EntryWire(k, v)))
  {
    var f := Message.Frame(Message.DICT_ENTRY_CODE, [LegacyTypeCode(k).value, LegacyTypeCode(v).value], []);
    LegacyCodeClass(k);
    LegacyCodeClass(v);
    Message.DictEntryContents(f.sig[0], f.sig[1]);
    var (s1, r1) := OpenSpec(s, f.code, f.sig);
    if !r1.Ok? then (s1, r1)
    else
      var (s2, r2) := AppendValueSpec(s1, k);
      if !r2.Ok? then (s2, r2)
      else
        var (s3, r3) := AppendValueSpec(s2, v);
        if !r3.Ok? then (s3, r3)
        else
          CloseAfterTwo(s.msg, f, Wire(k), Wire(v));
          CloseSpec(s3)
  }

  /** The `for` loop of `_appendDictionary(_:)` from pair i on. */
  function AppendEntries(s: LState, entries: seq<(AnyValue, AnyValue)>, i: nat): (res: (LState, Result<()>))
    requires i <= |entries|
    ensures !res.1.Trap?
    ensures 0 < i ==> (res.1.Ok? <==> (i == |entries| || !s.msg.sealed) && EntriesWritableFrom(entries, i))
    ensures 0 < i && res.1.Ok? && !s.msg.sealed ==> res.0 == s.(msg := Message.AddItems(s.msg, EntryWiresFrom(entries, i)))
    ensures i == 0 < |entries| ==> (res.1.Ok? <==> !s.msg.sealed && EntriesWritableFrom(entries, 0))
    ensures i == 0 < |entries| && res.1.Ok? ==>
              res.0 == s.(msg := Message.AddItems(s.msg.(open := s.msg.open + [Message.Frame(Message.ARRAY_CODE, DictSig(entries[0].0, entries[0].1), [])]),
                                                  EntryWiresFrom(entries, 0)),
                          level := s.level + 1)
    decreases |entries| - i
  {
    if i == |entries| then (s, Ok(()))
    else
      var (s1, r1) := AppendEntry(s, entries[i].0, entries[i].1, i == 0);
      if !r1.Ok? then (s1, r1)
      else
        if EntriesWritableFrom(entries, i) then
          var m0 := if i == 0 then s.msg.(open := s.msg.open + [Message.Frame(Message.ARRAY_CODE, DictSig(entries[0].0, entries[0].1), [])])
                    else s.msg;
          AddEntryWiresStep(m0, entries, i);
          AppendEntries(s1, entries, i + 1)
        else
          AppendEntries(s1, entries, i + 1)
  }

  /**
   * `_appendDictionary(_:)`: EINVAL for an empty dictionary, before
   * anything is written; otherwise an array of dict entries whose
   * signature comes from the first pair.
   */
  function AppendDictionarySpec(s: LState, entries: seq<(AnyValue, AnyValue)>): (res: (LState, Result<()>))
    ensures !res.1.Trap?
    ensures entries == [] ==> res == (s, Fail(ErrorOf(EINVAL)))
    ensures res.1.Ok? <==> !s.msg.sealed && entries != [] && EntriesWritableFrom(entries, 0)
    ensures res.1.Ok? ==>
              res.0 == s.(msg := Message.AddItem(s.msg, Message.Container(Message.ARRAY_CODE, DictSig(entries[0].0, entries[0].1), EntryWiresFrom(entries, 0))))
  {
    if entries == [] then (s, Fail(ErrorOf(EINVAL)))
    else
      var (s1, r1) := AppendEntries(s, entries, 0);
      if !r1.Ok? then (s1, r1)
      else
        CloseAfterItems(s.msg, Message.Frame(Message.ARRAY_CODE, DictSig(entries[0].0, entries[0].1), []), EntryWiresFrom(entries, 0));
        CloseSpec(s1)
  }

  /** A field `append(_:)` accepts: a non-empty writable dictionary or array, a writable value, or anything else (skipped). */
  predicate FieldWritable(f: AnyValue)
  {
    match f
    case ADict(entries) => entries != [] && EntriesWritableFrom(entries, 0)
    case AArray(elems) => elems != [] && LegacyTypeCode(elems[0]).Some? && WritableFrom(elems, 0)
    case AOther => true
    case _ => Writable(f)
  }

  /** The elements a field becomes: none for a field of no representable type. */
  function FieldWire(f: AnyValue): (r: seq<Message.Elem>)
    requires FieldWritable(f)
    ensures |r| <= 1 && (r == [] <==> f.AOther?)
  {
    match f
    case ADict(entries) => [Message.Container(Message.ARRAY_CODE, DictSig(entries[0].0, entries[0].1), EntryWiresFrom(entries, 0))]
    case AArray(elems) => [Message.Container(Message.ARRAY_CODE, [LegacyTypeCode(elems[0]).value], WiresFrom(elems, 0))]
    case AOther => []
    case _ => [Wire(f)]
  }

  predicate FieldsWritable(fields: seq<AnyValue>)
  {
    forall i :: 0 <= i < |fields| ==> FieldWritable(fields[i])
  }

  lemma FieldsWritableStep(fields: seq<AnyValue>)
    requires fields != []
    ensures FieldsWritable(fields) <==> FieldWritable(fields[0]) && FieldsWritable(fields[1..])
  {
    assert forall i :: 1 <= i < |fields| ==> fields[i] == fields[1..][i - 1];
  }

  function FieldWires(fields: seq<AnyValue>): (r: seq<Message.Elem>)
    requires FieldsWritable(fields)
    ensures |r| <= |fields|
  {
    if fields == [] then [] else FieldWire(fields[0]) + FieldWires(fields[1..])
  }

  /** One field of `append(_:)`. */
  function AppendField(s: LState, f: AnyValue): (res: (LState, Result<()>))
    ensures !res.1.Trap?
    ensures !s.msg.sealed ==> (res.1.Ok? <==> FieldWritable(f))
    ensures !s.msg.sealed && res.1.Ok? ==> res.0 == s.(msg := Message.AddItems(s.msg, FieldWire(f)))
  {
    var (s1, r) :=
      if f.ADict? then AppendDictionarySpec(s, f.entries)
      else if f.AArray? then AppendArraySpec(s, f.elements)
      else if IsRepresentable(f) then AppendValueSpec(s, f)
      else (s, Ok(()));
    if !s.msg.sealed && r.Ok? then
      assert FieldWritable(f);
      var w := FieldWire(f);
      assert w != [] ==> w[1..] == [];
      (s1, r)
    else (s1, r)
  }

  /**
   * `append(_:)`: each field in turn, as a dictionary, else as an array,
   * else as a representable value; any other field is skipped.
   */
  function AppendSpec(s: LState, fields: seq<AnyValue>): (res: (LState, Result<()>))
    ensures !res.1.Trap?
    ensures !s.msg.sealed ==> (res.1.Ok? <==> FieldsWritable(fields))
    ensures !s.msg.sealed && res.1.Ok? ==> res.0 == s.(msg := Message.AddItems(s.msg, FieldWires(fields)))
    decreases |fields|
  {
    if fields == [] then (s, Ok(()))
    else
      var (s1, r) := AppendField(s, fields[0]);
      FieldsWritableStep(fields);
      if !r.Ok? then (s1, r)
      else
        var res := AppendSpec(s1, fields[1..]);
        if !s.msg.sealed && res.1.Ok? then
          Message.AddItemsConcat(s.msg, FieldWire(fields[0]), FieldWires(fields[1..]));
          res
        else res
  }

  // ----- properties of the legacy codec -----

  /** The value `next()` gives back for a written value: every variant layer removed. */
  function Flatten(v: AnyValue): (r: AnyValue)
    requires Writable(v)
    ensures r.AScalar?
  {
    if v.AVariant? then Flatten(v.value) else v
  }

  lemma LegacyKindOfKindCode(k: Kind)
    ensures LegacyKind(KindCode(k)) == Some(k)
  {
  }

  /**
   * Reading back the element a writable value became: `next()` gives the
   * scalar inside, however many variants were wrapped around it, and moves
   * past the element with the level where it was.
   */
  lemma {:induction false} NextReadsWire(s: LState, v: AnyValue)
    requires Valid(s) && s.msg.sealed && !Message.AtEndOfContainer(s.msg)
    requires Writable(v) && Message.Next(s.msg) == Wire(v)
    ensures NextSpec(s).1 == Ok(Some(Flatten(v)))
    ensures NextSpec(s).0.msg == Message.Advance(s.msg) && NextSpec(s).0.level == s.level
    decreases v, 1
  {
    var s1 := NextUnfold(s);
    if v.AScalar? {
      ScalarPeekedReads(s1, v.scalar);
      assert ReadPeeked(s1).1 == Ok(Flatten(v));
    } else {
      var p := v.value;
      VariantPeekedReads(s1);
      VariantReadsWire(s1, p);
      assert ReadPeeked(s1).1 == Ok(AVariant(Flatten(p)));
    }
  }

  /** A peeked variant is read by `AnyVariant.read(context:)`. */
  lemma VariantPeekedReads(s: LState)
    requires Valid(s) && s.msg.sealed && !Message.AtEndOfContainer(s.msg)
    requires s.contents.Some? ==> |s.contents.value| > 0
    requires s.currentType == Message.VARIANT_CODE
    ensures ReadPeeked(s) == ReadVariantSpec(s)
  {
    assert s.currentType != Message.ARRAY_CODE;
    assert LegacyKind(s.currentType) == Some(VariantKind);
  }

  /** `next()` once the peek found an element: the peek's code and contents are recorded, then the element is read. */
  lemma NextUnfold(s: LState) returns (s1: LState)
    requires Valid(s) && s.msg.sealed && !Message.AtEndOfContainer(s.msg)
    ensures s1 == s.(currentType := Message.Next(s.msg).code, contents := PeekSpec(s.msg).2)
    ensures Valid(s1) && s1.msg.sealed && !Message.AtEndOfContainer(s1.msg)
    ensures s1.contents.Some? ==> |s1.contents.value| > 0
    ensures NextSpec(s).0 == ReadPeeked(s1).0
    ensures ReadPeeked(s1).1.Ok? ==> NextSpec(s).1 == Ok(Some(Unwrap(ReadPeeked(s1).1.value)))
  {
    s1 := s.(currentType := Message.Next(s.msg).code, contents := PeekSpec(s.msg).2);
  }

  /** A written scalar, once peeked, is read as itself. */
  lemma ScalarPeekedReads(s: LState, sc: Scalar)
    requires Valid(s) && s.msg.sealed && !Message.AtEndOfContainer(s.msg)
    requires s.contents.Some? ==> |s.contents.value| > 0
    requires Message.Next(s.msg) == ScalarElem(sc) && s.currentType == KindCode(KindOf(sc))
    ensures ReadPeeked(s) == (s.(msg := Message.Advance(s.msg)), Ok(AScalar(sc)))
  {
    LegacyKindOfKindCode(KindOf(sc));
    ScalarRoundTrip(sc);
    ReadScalarAdvances(s, KindOf(sc));
  }

  /** `AnyVariant.read(context:)` of a written variant: enter, the payload's `next()`, exit. */
  lemma {:induction false} VariantReadsWire(s: LState, p: AnyValue)
    requires Valid(s) && s.msg.sealed && !Message.AtEndOfContainer(s.msg)
    requires Writable(AVariant(p)) && Message.Next(s.msg) == Wire(AVariant(p))
    requires s.currentType == Message.VARIANT_CODE && s.contents == Some(Message.CString([LegacyTypeCode(p).value]) + [0])
    ensures ReadVariantSpec(s).1 == Ok(AVariant(Flatten(p)))
    ensures ReadVariantSpec(s).0.msg == Message.Advance(s.msg) && ReadVariantSpec(s).0.level == s.level
    decreases AVariant(p), 0
  {
    var s1 := EnterWrittenVariant(s, p);
    NextReadsWire(s1, p);
    var s2 := NextSpec(s1).0;
    assert s2.msg.cursor == Message.Advance(s.msg).cursor + [Message.ReadFrame(Message.VARIANT_CODE, [Wire(p)], 1)];
    ReadVariantSteps(s);
  }

  /** The three steps of `AnyVariant.read(context:)` when each succeeds. */
  lemma ReadVariantSteps(s: LState)
    requires Valid(s) && s.msg.sealed && !Message.AtEndOfContainer(s.msg)
    ensures var (s1, r1) := EnterSpec(s, None, None);
            var (s2, r2) := if r1.Ok? then NextSpec(s1) else (s1, Ok(None));
            r1.Ok? && r2.Ok? && r2.value.Some? && ExitSpec(s2).1.Ok? ==>
              ReadVariantSpec(s) == (ExitSpec(s2).0, Ok(AVariant(r2.value.value)))
  {
  }

  /** Entering a written variant, as peeked: the one payload element is next. */
  lemma EnterWrittenVariant(s: LState, p: AnyValue) returns (s1: LState)
    requires Valid(s) && s.msg.sealed && !Message.AtEndOfContainer(s.msg)
    requires Writable(AVariant(p)) && Message.Next(s.msg) == Wire(AVariant(p))
    requires s.currentType == Message.VARIANT_CODE && s.contents == Some(Message.CString([LegacyTypeCode(p).value]) + [0])
    ensures EnterSpec(s, None, None) == (s1, Ok(1))
    ensures s1 == s.(msg := s1.msg, level := s.level + 1)
    ensures s1.msg == s.msg.(cursor := Message.Advance(s.msg).cursor + [Message.ReadFrame(Message.VARIANT_CODE, [Wire(p)], 0)])
    ensures Valid(s1) && s1.msg.sealed && !Message.AtEndOfContainer(s1.msg) && Message.Next(s1.msg) == Wire(p)
  {
    VariantContentsArg(s.contents, LegacyTypeCode(p).value);
    var (r, m) := Message.EnterContainer(s.msg, Message.VARIANT_CODE, Some([LegacyTypeCode(p).value]));
    assert r == 1;
    Message.EnteredNext(Message.Advance(s.msg), Message.ReadFrame(Message.VARIANT_CODE, [Wire(p)], 0));
    s1 := s.(msg := m, level := s.level + 1);
  }

  /** The contents peeked for a variant of one code c are handed back to libsystemd as exactly [c]. */
  lemma VariantContentsArg(contents: Option<seq<int>>, c: int)
    requires c != 0 && contents == Some(Message.CString([c]) + [0])
    ensures CStringArg(contents) == Some([c])
  {
    assert Message.CString([c]) == [c];
    Message.CStringOfTerminated([c]);
  }

  /**
   * For a dictionary whose contents signature is `{`kv`}`, the entry
   * signature `_readDictionary()` derives from the peeked contents reads,
   * as a C string, exactly kv.
   */
  lemma DictEntrySignature(sig: seq<int>)
    requires |sig| >= 2 && sig[0] == RawValue(DictEntryBegin) && sig[|sig| - 1] == RawValue(DictEntryEnd) && 0 !in sig
    ensures var c := Message.CString(sig) + [0];
            |c| >= 3 && Message.CString(c[1..|c| - 2] + [0]) == sig[1..|sig| - 1]
  {
    assert Message.CString(sig) == sig;
    var c := sig + [0];
    assert c[1..|c| - 2] == sig[1..|sig| - 1];
    Message.CStringOfTerminated(sig[1..|sig| - 1]);
  }

  /** A peeked basic code with no reverse mapping: `next()` throws EBADMSG and reads nothing. */
  lemma NextUnmappedCode(s: LState)
    requires Valid(s) && s.msg.sealed && !Message.AtEndOfContainer(s.msg)
    requires Message.Next(s.msg).code != Message.ARRAY_CODE && LegacyKind(Message.Next(s.msg).code).None?
    ensures NextSpec(s).1 == Fail(ErrorOf(EBADMSG)) && NextSpec(s).0.msg == s.msg && NextSpec(s).0.level == s.level
  {
  }

  /**
   * An array of scalars of one kind other than Bool and Int32 is appended
   * and agrees with the signature it is opened with.
   */
  lemma ScalarArrayConforms(s: LState, elems: seq<AnyValue>, k: Kind)
    requires !s.msg.sealed && elems != [] && k != BoolKind && k != Int32Kind
    requires forall i :: 0 <= i < |elems| ==> elems[i].AScalar? && KindOf(elems[i].scalar) == k
    ensures AppendArraySpec(s, elems).1.Ok?
    ensures Message.Conforms(Message.Container(Message.ARRAY_CODE, [LegacyTypeCode(elems[0]).value], WiresFrom(elems, 0)))
  {
    WritableScalars(elems);
    LegacyTypeCodeAgainstRegistry(elems[0]);
    assert !elems[0].scalar.I32?;
    ScalarArrayConformsAt(elems, k);
  }

  lemma ScalarArrayConformsAt(elems: seq<AnyValue>, k: Kind)
    requires elems != [] && k != BoolKind && k != Int32Kind && WritableFrom(elems, 0) && LegacyTypeCode(elems[0]).Some?
    requires forall i :: 0 <= i < |elems| ==> elems[i].AScalar? && KindOf(elems[i].scalar) == k
    ensures Message.Conforms(Message.Container(Message.ARRAY_CODE, [LegacyTypeCode(elems[0]).value], WiresFrom(elems, 0)))
  {
    LegacyTypeCodeAgainstRegistry(elems[0]);
    var c := LegacyTypeCode(elems[0]).value;
    assert c == KindCode(k);
    var items := WiresFrom(elems, 0);
    forall j | 0 <= j < |items|
      ensures Message.Conforms(items[j]) && Message.ElemSig(items[j]) == [c]
    {
    }
    Message.ArrayConformance([c], items);
  }

  /** Scalars can always be appended. */
  lemma WritableScalars(elems: seq<AnyValue>)
    requires forall i :: 0 <= i < |elems| ==> elems[i].AScalar?
    ensures WritableFrom(elems, 0)
  {
  }

  /**
   * Bool is tagged INT32 but written as BOOLEAN: an array of Bools is
   * appended without error, yet its elements disagree with its signature.
   */
  lemma BoolArrayMistyped(s: LState, elems: seq<AnyValue>)
    requires !s.msg.sealed && elems != []
    requires forall i :: 0 <= i < |elems| ==> elems[i].AScalar? && elems[i].scalar.Bool?
    ensures AppendArraySpec(s, elems).1.Ok?
    ensures !Message.Conforms(Message.Container(Message.ARRAY_CODE, [LegacyTypeCode(elems[0]).value], WiresFrom(elems, 0)))
  {
    WritableScalars(elems);
    assert LegacyTypeCode(elems[0]) == Some(RawValue(Int32));
    var items := WiresFrom(elems, 0);
    assert Message.ElemSig(items[0]) == [RawValue(Boolean)] != [RawValue(Int32)];
    Message.ArrayConformance([RawValue(Int32)], items);
  }
}
