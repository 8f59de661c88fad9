/**
 * The legacy `SystemdTypeContext` (Bus/SystemdTypes.swift; the same class
 * in the older SystemdBus.swift) as a class with the fields of the Swift
 * class. Each method is proved to follow the function of `LegacyTypes`
 * that describes the same operation; the `read(context:)` and
 * `append(context:)` members of the representable types, `AnyVariant`
 * included, are methods of the class here.
 */
module LegacyContext {
  import opened Wrappers
  import opened BusError
  import opened BusType
  import opened TypeRepresentable
  import opened Dictionaries
  import opened LegacyTypes
  import Message

  class SystemdTypeContext {
    var message: Message.MsgState
    var level: int
    var currentType: int
    var contents: Option<seq<int>>

    function State(): LState
      reads this
    {
      LState(message, level, currentType, contents)
    }

    predicate Valid()
      reads this
    {
      Message.Valid(message)
    }

    /** `init(message:)`. */
    constructor (m: Message.MsgState)
      requires Message.Valid(m)
      ensures Valid() && State() == NewState(m)
    {
      message := m;
      level := 1;
      currentType := 0;
      contents := None;
    }

    /** `rewind()`. */
    method Rewind() returns (res: Result<()>)
      requires Valid()
      modifies this
      ensures Valid() && (State(), res) == RewindSpec(old(State()))
    {
      var (r, m) := Message.Rewind(message, true);
      if r < 0 {
        return Fail(ErrorOf(r));
      }
      message := m;
      return Ok(());
    }

    /** `_peekType()`. */
    method PeekType() returns (r: int, code: int, peeked: Option<seq<int>>)
      requires Valid()
      ensures (r, code, peeked) == PeekSpec(message)
    {
      var (r0, code0, sig) := Message.PeekType(message);
      r, code, peeked := r0, code0, None;
      if r > 0 && sig.Some? {
        peeked := Some(Message.CString(sig.value) + [0]);
      }
    }

    /** `enterContainer(type:contents:)`. */
    method EnterContainer(t: Option<int>, c: Option<seq<int>>) returns (res: Result<int>)
      requires Valid()
      modifies this
      ensures Valid() && (State(), res) == EnterSpec(old(State()), t, c)
    {
      var code := if t.Some? then t.value else currentType;
      var sig := CStringArg(if c.Some? then c else contents);
      var (r, m) := Message.EnterContainer(message, code, sig);
      if r < 0 {
        return Fail(ErrorOf(r));
      }
      message := m;
      if r > 0 {
        level := level + 1;
      }
      return Ok(r);
    }

    /** `exitContainer()`. */
    method ExitContainer() returns (res: Result<()>)
      requires Valid()
      modifies this
      ensures Valid() && (State(), res) == ExitSpec(old(State()))
    {
      var (r, m) := Message.ExitContainer(message);
      if r < 0 {
        return Fail(ErrorOf(r));
      }
      message := m;
      level := level - 1;
      return Ok(());
    }

    /** `openContainer(type:contents:)`. */
    method OpenContainer(t: int, c: seq<int>) returns (res: Result<()>)
      modifies this
      ensures (State(), res) == OpenSpec(old(State()), t, c)
    {
      var (r, m) := Message.OpenContainer(message, t, c);
      if r < 0 {
        return Fail(ErrorOf(r));
      }
      message := m;
      level := level + 1;
      return Ok(());
    }

    /** `closeContainer()`. */
    method CloseContainer() returns (res: Result<()>)
      modifies this
      ensures (State(), res) == CloseSpec(old(State()))
    {
      var (r, m) := Message.CloseContainer(message);
      if r < 0 {
        return Fail(ErrorOf(r));
      }
      message := m;
      level := level - 1;
      return Ok(());
    }

    // ----- reading -----

    /** `next()`. */
    method Next() returns (res: Result<Option<AnyValue>>)
      requires Valid()
      modifies this
      ensures Valid() && (State(), res) == NextSpec(old(State()))
      decreases Message.Weight(message), 2
    {
      var r, code, peeked := PeekType();
      if r < 0 {
        return Fail(ErrorOf(r));
      }
      currentType, contents := code, peeked;
      if r == 0 {
        return Ok(None);
      }
      var value: Result<AnyValue>;
      if currentType == Message.ARRAY_CODE {
        if IsDictionary(State()) {
          value := ReadDictionary();
        } else {
          value := ReadArray();
        }
      } else {
        var kind := LegacyKind(currentType);
        if kind.None? {
          return Fail(ErrorOf(EBADMSG));
        }
        if kind.value == VariantKind {
          value := ReadAnyVariant();
        } else {
          var scalar := ReadScalar(kind.value);
          value := if scalar.Ok? then Ok(AScalar(scalar.value)) else Lift(scalar);
        }
      }
      res := if value.Ok? then Ok(Some(Unwrap(value.value))) else Lift(value);
    }

    /** `read(context:)` of the scalar types: `read_basic` into a zeroed temporary. */
    method ReadScalar(k: Kind) returns (res: Result<Scalar>)
      requires Valid() && k != VariantKind
      modifies this
      ensures Valid() && (State(), res) == ReadScalarSpec(old(State()), k)
    {
      var (r, w, m) := Message.ReadBasic(message, KindCode(k));
      if r < 0 {
        return Fail(ErrorOf(r));
      }
      if r == 0 {
        var zero := ScalarDefault(k);
        return if zero.Some? then Ok(zero.value) else Trap;
      }
      message := m;
      return Ok(ScalarFromWord(k, w.value).value);
    }

    /** `_readArray()`. */
    method ReadArray() returns (res: Result<AnyValue>)
      requires Valid() && message.sealed && !Message.AtEndOfContainer(message)
      modifies this
      ensures Valid() && (State(), res) == ReadArraySpec(old(State()))
      decreases Message.Weight(message), 0
    {
      var items: seq<AnyValue> := [];
      var entered := EnterContainer(None, None);
      if !entered.Ok? {
        return Lift(entered);
      }
      ghost var start := State();
      while true
        invariant Valid() && forall i :: 0 <= i < |items| ==> Decoded(items[i])
        invariant Message.Weight(message) < Message.Weight(old(message))
        invariant ReadElements(State(), items) == ReadElements(start, [])
        decreases Message.Weight(message)
      {
        ghost var before := State();
        var element := Next();
        if !element.Ok? {
          return Lift(element);
        }
        if element.value.None? {
          assert ReadElements(before, items) == (State(), Ok(AArray(items)));
          break;
        }
        items := items + [element.value.value];
      }
      var exited := ExitContainer();
      if !exited.Ok? {
        return Lift(exited);
      }
      return Ok(AArray(items));
    }

    /** `_readDictionary()`, its `defer` written out on every path that leaves an entered dict entry. */
    method ReadDictionary() returns (res: Result<AnyValue>)
      requires Valid() && message.sealed && !Message.AtEndOfContainer(message) && contents.Some?
      modifies this
      ensures Valid() && (State(), res) == ReadDictionarySpec(old(State()))
      decreases Message.Weight(message), 0
    {
      var c := contents.value;
      if |c| < 3 {
        return Trap;
      }
      var entrySignature := c[1..|c| - 2] + [0];
      var dict: seq<(AnyValue, AnyValue)> := [];
      var entered := EnterContainer(None, None);
      if !entered.Ok? {
        return Lift(entered);
      }
      ghost var start := State();
      while true
        invariant Valid() && EntriesDecoded(dict)
        invariant Message.Weight(message) < Message.Weight(old(message))
        invariant ReadEntries(State(), entrySignature, dict) == ReadEntries(start, entrySignature, [])
        decreases Message.Weight(message)
      {
        ghost var before := State();
        var inEntry := EnterContainer(Some(Message.DICT_ENTRY_CODE), Some(entrySignature));
        if !inEntry.Ok? {
          return Lift(inEntry);
        }
        if inEntry.value == 0 {
          assert ReadEntries(before, entrySignature, dict) == (State(), Ok(ADict(dict)));
          break;
        }
        var entry := ReadEntryItems();
        var ignored := ExitContainer();
        if !entry.Ok? {
          return Lift(entry);
        }
        AssignEntriesDecoded(dict, entry.value.0, entry.value.1);
        ghost var prior := dict;
        dict := Assign(dict, entry.value.0, entry.value.1);
        assert ReadEntries(before, entrySignature, prior) == ReadEntries(State(), entrySignature, dict);
      }
      // The loop ends at the end of the array it entered, which libsystemd always leaves.
      var exited := ExitContainer();
      match exited
      case Ok(_) => return Ok(ADict(dict));
    }

    /** The `guard` of the dictionary loop: a hashable key, then a value. */
    method ReadEntryItems() returns (entry: Result<(AnyValue, AnyValue)>)
      requires Valid()
      modifies this
      ensures Valid() && (State(), entry) == ReadEntry(old(State()))
      decreases Message.Weight(message), 3
    {
      var key := Next();
      if !key.Ok? {
        return Lift(key);
      }
      if key.value.None? || !IsHashable(key.value.value) {
        return Fail(ErrorOf(EBADMSG));
      }
      var value := Next();
      if !value.Ok? {
        return Lift(value);
      }
      if value.value.None? {
        return Fail(ErrorOf(EBADMSG));
      }
      return Ok((key.value.value, value.value.value));
    }

    /** `AnyVariant.read(context:)`. */
    method ReadAnyVariant() returns (res: Result<AnyValue>)
      requires Valid() && message.sealed && !Message.AtEndOfContainer(message)
      modifies this
      ensures Valid() && (State(), res) == ReadVariantSpec(old(State()))
      decreases Message.Weight(message), 0
    {
      var entered := EnterContainer(None, None);
      if !entered.Ok? {
        return Lift(entered);
      }
      var value := Next();
      if !value.Ok? {
        return Lift(value);
      }
      if value.value.None? {
        return Fail(ErrorOf(EBADMSG));
      }
      var exited := ExitContainer();
      if !exited.Ok? {
        return Lift(exited);
      }
      return Ok(AVariant(value.value.value));
    }

    // ----- writing -----

    /** `append(context:)` of the scalar types. */
    method AppendScalar(sc: Scalar) returns (res: Result<()>)
      modifies this
      ensures (State(), res) == AppendScalarSpec(old(State()), sc)
    {
      var e := ScalarElem(sc);
      var (r, m) := Message.AppendBasic(message, e.code, e.word);
      if r < 0 {
        return Fail(ErrorOf(r));
      }
      message := m;
      return Ok(());
    }

    /** `append(context:)` of a representable value. */
    method AppendValue(v: AnyValue) returns (res: Result<()>)
      requires IsRepresentable(v)
      modifies this
      ensures (State(), res) == AppendValueSpec(old(State()), v)
      decreases v, 1
    {
      match v
      case AScalar(sc) =>
        res := AppendScalar(sc);
      case AVariant(p) =>
        res := AppendAnyVariant(p);
    }

    /** `AnyVariant.append(context:)`. */
    method AppendAnyVariant(p: AnyValue) returns (res: Result<()>)
      modifies this
      ensures (State(), res) == AppendValueSpec(old(State()), AVariant(p))
      decreases AVariant(p), 0
    {
      var typeOfElement := LegacyTypeCode(p);
      if typeOfElement.None? {
        return Fail(ErrorOf(EBADMSG));
      }
      var open := OpenContainer(RawValue(Variant), [typeOfElement.value]);
      if !open.Ok? {
        return open;
      }
      var appended := AppendValue(p);
      if !appended.Ok? {
        return appended;
      }
      res := CloseContainer();
    }

    /** `_appendArray(_:)`. */
    method AppendArray(elements: seq<AnyValue>) returns (res: Result<()>)
      modifies this
      ensures (State(), res) == AppendArraySpec(old(State()), elements)
    {
      var firstElement := true;
      if elements == [] {
        return Fail(ErrorOf(EINVAL));
      }
      for i := 0 to |elements|
        invariant firstElement <==> i == 0
        invariant AppendElements(State(), elements, i) == AppendElements(old(State()), elements, 0)
      {
        var element := elements[i];
        if !IsRepresentable(element) {
          return Fail(ErrorOf(EINVAL));
        }
        if firstElement {
          var elementType := LegacyTypeCode(element);
          if elementType.None? {
            return Fail(ErrorOf(EINVAL));
          }
          var open := OpenContainer(Message.ARRAY_CODE, [elementType.value]);
          if !open.Ok? {
            return open;
          }
          firstElement := false;
        }
        var appended := AppendValue(element);
        if !appended.Ok? {
          return appended;
        }
      }
      res := CloseContainer();
    }

    /** `_appendDictionary(_:)`, over the pairs in the dictionary's order. */
    method AppendDictionary(dict: seq<(AnyValue, AnyValue)>) returns (res: Result<()>)
      modifies this
      ensures (State(), res) == AppendDictionarySpec(old(State()), dict)
    {
      var firstElement := true;
      if dict == [] {
        return Fail(ErrorOf(EINVAL));
      }
      for i := 0 to |dict|
        invariant firstElement <==> i == 0
        invariant AppendEntries(State(), dict, i) == AppendEntries(old(State()), dict, 0)
      {
        var (key, value) := dict[i];
        var keyType, valueType := LegacyTypeCode(key), LegacyTypeCode(value);
        if keyType.None? || valueType.None? {
          return Fail(ErrorOf(EINVAL));
        }
        if firstElement {
          var open := OpenContainer(Message.ARRAY_CODE, DictSig(key, value));
          if !open.Ok? {
            return open;
          }
          firstElement := false;
        }
        res := AppendDictEntry(key, value);
        if !res.Ok? {
          return res;
        }
      }
      res := CloseContainer();
    }

    /** The dict entry of one pass of `_appendDictionary(_:)`. */
    method AppendDictEntry(key: AnyValue, value: AnyValue) returns (res: Result<()>)
      requires LegacyTypeCode(key).Some? && LegacyTypeCode(value).Some?
      modifies this
      ensures (State(), res) == AppendEntryItems(old(State()), key, value)
    {
      res := OpenContainer(Message.DICT_ENTRY_CODE, [LegacyTypeCode(key).value, LegacyTypeCode(value).value]);
      if !res.Ok? {
        return;
      }
      res := AppendValue(key);
      if !res.Ok? {
        return;
      }
      res := AppendValue(value);
      if !res.Ok? {
        return;
      }
      res := CloseContainer();
    }

    /** `append(_:)`. */
    method Append(fields: seq<AnyValue>) returns (res: Result<()>)
      modifies this
      ensures (State(), res) == AppendSpec(old(State()), fields)
    {
      for i := 0 to |fields|
        invariant AppendSpec(State(), fields[i..]) == AppendSpec(old(State()), fields)
      {
        var field := fields[i];
        assert fields[i..][1..] == fields[i + 1..];
        var r: Result<()>;
        if field.ADict? {
          r := AppendDictionary(field.entries);
        } else if field.AArray? {
          r := AppendArray(field.elements);
        } else if IsRepresentable(field) {
          r := AppendValue(field);
        } else {
          r := Ok(());
        }
        if !r.Ok? {
          return r;
        }
      }
      return Ok(());
    }
  }
}
