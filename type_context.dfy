/**
 * SystemdBusTypeContext (Bus/SystemdBusTypeContext.swift): a message plus
 * the container nesting level and the type and contents seen by the last
 * peek. `CtxState` is the context's state as a value; each operation has a
 * function on it that specifies the method of the same name.
 */
module TypeContext {
  import opened Wrappers
  import opened BusError
  import opened BusType
  import opened TypeRepresentable
  import Message

  datatype CtxState = CtxState(
    msg: Message.MsgState,
    level: int,
    current: SystemdBusType,
    contents: Option<seq<SystemdBusType>>)

  predicate Valid(s: CtxState) { Message.Valid(s.msg) }

  /** A fresh context: level 1, nothing peeked yet. */
  function NewContext(m: Message.MsgState): (s: CtxState)
    ensures s.msg == m && s.level == 1 && CurrentType(s).None? && s.contents.None?
  {
    CtxState(m, 1, Invalid, None)
  }

  /** The `currentType` property: `Invalid` is reported as nil. */
  function CurrentType(s: CtxState): (t: Option<SystemdBusType>)
    ensures t.None? <==> s.current == Invalid
    ensures t.Some? ==> t.value == s.current
  {
    if s.current == Invalid then None else Some(s.current)
  }

  /**
   * `_mapSystemdBusTypesToString`: nil stays nil; otherwise the tags'
   * characters followed by one NUL.
   */
  function MapTypesToString(types: Option<seq<SystemdBusType>>): (r: Option<seq<int>>)
    ensures r.None? <==> types.None?
    ensures r.Some? ==> |r.value| == |types.value| + 1 && r.value[|types.value|] == 0
    ensures r.Some? ==> forall i :: 0 <= i < |types.value| ==> r.value[i] == RawValue(types.value[i])
  {
    match types
    case None => None
    case Some(ts) => Some(RawValues(ts) + [0])
  }

  function RawValues(ts: seq<SystemdBusType>): (r: seq<int>)
    ensures |r| == |ts| && forall i :: 0 <= i < |ts| ==> r[i] == RawValue(ts[i])
  {
    if ts == [] then [] else [RawValue(ts[0])] + RawValues(ts[1..])
  }

  /** The C string libsystemd receives for a mapped signature. */
  function SignatureArg(types: Option<seq<SystemdBusType>>): Option<seq<int>>
  {
    match MapTypesToString(types)
    case None => None
    case Some(str) => Some(Message.CString(str))
  }

  /** A tag list without `Invalid` reaches libsystemd as exactly its characters. */
  lemma SignatureArgOfTags(ts: seq<SystemdBusType>)
    requires Invalid !in ts
    ensures SignatureArg(Some(ts)) == Some(RawValues(ts))
  {
    forall i | 0 <= i < |ts| ensures RawValues(ts)[i] != 0 {
      assert ts[i] in ts;
    }
    Message.CStringOfTerminated(RawValues(ts));
  }

  /** A tag's raw value is a basic code exactly when the tag is basic, and the variant code only for `Variant`. */
  lemma BasicCodeOfTag(t: SystemdBusType)
    ensures Message.IsBasicCode(RawValue(t)) <==> IsBasic(t)
    ensures RawValue(t) == Message.VARIANT_CODE <==> t == Variant
  {
  }

  /**
   * The one-tag contents of an array or a variant are accepted exactly
   * when the tag is basic or `v`; a lone `a`, `r`, `e`, a marker or
   * `Invalid` is refused.
   */
  lemma OneTagContents(c: SystemdBusType, t: SystemdBusType)
    requires c == Array || c == Variant
    ensures Message.ValidContents(RawValue(c), SignatureArg(Some([t])).value) <==> IsBasic(t) || t == Variant
  {
    BasicCodeOfTag(t);
    if t == Invalid {
      assert SignatureArg(Some([t])).value == [];
    } else {
      SignatureArgOfTags([t]);
      assert RawValues([t]) == [RawValue(t)];
      Message.SingleCode(RawValue(t), c == Array);
    }
  }

  /** `SystemdBusType(rawValue:)!` over a code list: None when some code is no tag (the unwrap traps). */
  function TagsOf(codes: seq<int>): (r: Option<seq<SystemdBusType>>)
    ensures r.Some? <==> forall i :: 0 <= i < |codes| ==> FromRawValue(codes[i]).Some?
    ensures r.Some? ==> |r.value| == |codes| && forall i :: 0 <= i < |codes| ==> RawValue(r.value[i]) == codes[i]
  {
    if codes == [] then Some([])
    else match (FromRawValue(codes[0]), TagsOf(codes[1..]))
      case (Some(t), Some(rest)) => Some([t] + rest)
      case _ => None
  }

  datatype Peeked = Peeked(r: int, t: SystemdBusType, contents: Option<seq<SystemdBusType>>)

  /**
   * `_peekType`: the next element's tag and, for a container, its contents
   * with the NUL terminator removed. A code that is no tag traps.
   */
  function PeekTypeSpec(s: CtxState): (res: Result<Peeked>)
    requires Valid(s)
    ensures res.Fail? <==> !s.msg.sealed
    ensures res.Ok? ==> res.value.r >= 0
    ensures res.Ok? && res.value.r == 0 ==> res.value.t == Invalid && res.value.contents.None?
    ensures res.Ok? && res.value.r > 0 ==>
              s.msg.sealed && !Message.AtEndOfContainer(s.msg)
              && RawValue(res.value.t) == Message.Next(s.msg).code
              && (res.value.contents.Some? <==> Message.Next(s.msg).Container?)
    ensures res.Trap? ==> s.msg.sealed && !Message.AtEndOfContainer(s.msg)
  {
    var (r, code, sig) := Message.PeekType(s.msg);
    if r < 0 then Fail(ErrorOf(r))
    else
      var mapped := if r > 0 && sig.Some? then Some(TagsOf(sig.value + [0])) else None;
      if mapped.Some? && mapped.value.None? then Trap
      else if FromRawValue(code).None? then Trap
      else
        var contents := if mapped.Some? then Some(DropLast(mapped.value.value)) else None;
        Ok(Peeked(r, FromRawValue(code).value, contents))
  }

  function DropLast<T>(s: seq<T>): seq<T>
  {
    if s == [] then [] else s[..|s| - 1]
  }

  /**
   * The NUL is stripped: mapping peeked contents back through
   * `_mapSystemdBusTypesToString` gives the signature libsystemd reported,
   * terminated.
   */
  lemma PeekedContentsRoundTrip(s: CtxState)
    requires Valid(s) && PeekTypeSpec(s).Ok? && PeekTypeSpec(s).value.contents.Some?
    ensures MapTypesToString(PeekTypeSpec(s).value.contents) == Some(Message.Next(s.msg).sig + [0])
  {
    var sig := Message.Next(s.msg).sig;
    assert Message.PeekType(s.msg).2 == Some(sig);
    var tags := TagsOf(sig + [0]).value;
    var d := DropLast(tags);
    assert PeekTypeSpec(s).value.contents == Some(d);
    assert |d| == |sig|;
    var back := MapTypesToString(Some(d)).value;
    assert |back| == |sig + [0]|;
    forall i | 0 <= i < |back| ensures back[i] == (sig + [0])[i] {
      if i < |sig| {
        assert d[i] == tags[i];
      }
    }
    assert back == sig + [0];
  }

  /** A code with no tag makes `_peekType` trap instead of throwing. */
  lemma PeekTrapsOnUnknownCode(s: CtxState)
    requires Valid(s) && s.msg.sealed && !Message.AtEndOfContainer(s.msg)
    requires FromRawValue(Message.Next(s.msg).code).None?
    ensures PeekTypeSpec(s).Trap?
  {
  }

  /** `enterContainer(type:contents:)`. */
  function EnterSpec(s: CtxState, t: Option<SystemdBusType>, c: Option<seq<SystemdBusType>>): (res: (CtxState, Result<int>))
    requires Valid(s)
    ensures Valid(res.0) && res.0.msg.sealed == s.msg.sealed
    ensures Message.Weight(res.0.msg) <= Message.Weight(s.msg)
    ensures res.1.Ok? ==> res.1.value >= 0
    ensures res.1.Ok? && res.1.value > 0 ==> Message.Weight(res.0.msg) < Message.Weight(s.msg)
    ensures res.1.Ok? ==> res.0.level == if res.1.value > 0 then s.level + 1 else s.level
    ensures res.1.Ok? && res.1.value == 0 ==> res.0.msg == s.msg && s.msg.sealed && Message.AtEndOfContainer(s.msg)
    ensures !res.1.Ok? ==> res.0.level == s.level && res.0.msg == s.msg
  {
    match PeekTypeSpec(s)
    case Trap => (s, Trap)
    case Fail(e) => (s, Fail(e))
    case Ok(p) => EnterPeeked(s.(current := p.t, contents := p.contents), t, c)
  }

  /** The part of `enterContainer` after the peek has recorded type and contents. */
  function EnterPeeked(s: CtxState, t: Option<SystemdBusType>, c: Option<seq<SystemdBusType>>): (res: (CtxState, Result<int>))
    requires Valid(s)
    ensures Valid(res.0) && res.0.msg.sealed == s.msg.sealed
    ensures res.0.current == s.current && res.0.contents == s.contents
    ensures Message.Weight(res.0.msg) <= Message.Weight(s.msg)
    ensures res.1.Ok? ==> res.1.value >= 0
    ensures res.1.Ok? && res.1.value > 0 ==> Message.Weight(res.0.msg) < Message.Weight(s.msg)
    ensures res.1.Ok? ==> res.0.level == if res.1.value > 0 then s.level + 1 else s.level
    ensures res.1.Ok? && res.1.value == 0 ==> res.0.msg == s.msg && s.msg.sealed && Message.AtEndOfContainer(s.msg)
    ensures !res.1.Ok? ==> res.0 == s
  {
    var code := RawValue(if t.Some? then t.value else s.current);
    var sigArg := SignatureArg(if c.Some? then c else s.contents);
    var (r, m) := Message.EnterContainer(s.msg, code, sigArg);
    Message.EnterWeight(s.msg, code, sigArg);
    if r < 0 then (s, Fail(ErrorOf(r)))
    else (s.(msg := m, level := if r > 0 then s.level + 1 else s.level), Ok(r))
  }

  /** `exitContainer`: the level goes down only when libsystemd succeeded. */
  function ExitSpec(s: CtxState): (res: (CtxState, Result<()>))
    requires Valid(s)
    ensures Valid(res.0) && res.0.msg.sealed == s.msg.sealed
    ensures Message.Weight(res.0.msg) <= Message.Weight(s.msg)
    ensures res.1.Ok? ==> res.0.level == s.level - 1 && res.0.msg == Message.ExitContainer(s.msg).1
    ensures !res.1.Ok? ==> res.0 == s
    ensures !res.1.Trap?
  {
    var (r, m) := Message.ExitContainer(s.msg);
    Message.ExitWeight(s.msg);
    if r < 0 then (s, Fail(ErrorOf(r))) else (s.(msg := m, level := s.level - 1), Ok(()))
  }

  /** `openContainer(type:contents:)`: the level goes up and the contents are recorded. */
  function OpenSpec(s: CtxState, t: SystemdBusType, contents: seq<SystemdBusType>): (res: (CtxState, Result<()>))
    ensures Valid(s) ==> Valid(res.0)
    ensures res.1.Ok? <==> !s.msg.sealed && Message.ValidContents(RawValue(t), SignatureArg(Some(contents)).value)
    ensures !res.1.Ok? ==> res.1 == Fail(ErrorOf(if s.msg.sealed then -EPERM else -EINVAL))
    ensures res.1.Ok? ==> res.0.level == s.level + 1 && res.0.contents == Some(contents)
                          && res.0.current == s.current
    ensures res.1.Ok? ==> res.0.msg == Message.OpenContainer(s.msg, RawValue(t), SignatureArg(Some(contents)).value).1
    ensures !res.1.Ok? ==> res.0 == s
  {
    var (r, m) := Message.OpenContainer(s.msg, RawValue(t), SignatureArg(Some(contents)).value);
    if r < 0 then (s, Fail(ErrorOf(r))) else (s.(msg := m, level := s.level + 1, contents := Some(contents)), Ok(()))
  }

  /** Opening an array or variant on one basic or variant tag succeeds on an unsealed message and pushes an empty frame. */
  lemma OpenOneTag(s: CtxState, c: SystemdBusType, t: SystemdBusType)
    requires c == Array || c == Variant
    requires !s.msg.sealed && (IsBasic(t) || t == Variant)
    ensures OpenSpec(s, c, [t]).1.Ok?
    ensures OpenSpec(s, c, [t]).0
            == s.(msg := s.msg.(open := s.msg.open + [Message.Frame(RawValue(c), [RawValue(t)], [])]),
                  level := s.level + 1, contents := Some([t]))
  {
    OneTagContents(c, t);
    BasicCodeOfTag(t);
    SignatureArgOfTags([t]);
    assert RawValues([t]) == [RawValue(t)];
  }

  /** Opening an array or variant on one tag that is neither basic nor a variant is refused with EINVAL. */
  lemma OneTagRefused(s: CtxState, c: SystemdBusType, t: SystemdBusType)
    requires c == Array || c == Variant
    requires !s.msg.sealed && !IsBasic(t) && t != Variant
    ensures OpenSpec(s, c, [t]) == (s, Fail(ErrorOf(-EINVAL)))
  {
    OneTagContents(c, t);
  }

  /** `closeContainer`: the level goes down and the contents are cleared. */
  function CloseSpec(s: CtxState): (res: (CtxState, Result<()>))
    ensures Valid(s) ==> Valid(res.0)
    ensures res.1.Ok? <==> !s.msg.sealed && s.msg.open != []
    ensures !res.1.Trap?
    ensures res.1.Ok? ==> res.0.level == s.level - 1 && res.0.contents.None? && res.0.current == s.current
                          && res.0.msg == Message.CloseContainer(s.msg).1
    ensures !res.1.Ok? ==> res.0 == s
  {
    var (r, m) := Message.CloseContainer(s.msg);
    if r < 0 then (s, Fail(ErrorOf(r))) else (s.(msg := m, level := s.level - 1, contents := None), Ok(()))
  }

  /** A matched open and close leave the level where it was. */
  lemma OpenCloseBalanced(s: CtxState, t: SystemdBusType, contents: seq<SystemdBusType>)
    requires OpenSpec(s, t, contents).1.Ok?
    ensures var s1 := OpenSpec(s, t, contents).0;
            CloseSpec(s1).1.Ok? && CloseSpec(s1).0.level == s.level
  {
  }

  /** `isAtEnd`: true at the end of the current container, and also when libsystemd fails. */
  function IsAtEndSpec(s: CtxState): (b: bool)
    requires Valid(s)
    ensures b <==> !s.msg.sealed || Message.AtEndOfContainer(s.msg)
  {
    var r := Message.AtEnd(s.msg);
    if r < 0 then true else r > 0
  }

  /** `_skip(types:)`. */
  function SkipSpec(s: CtxState, types: seq<SystemdBusType>): (res: (CtxState, Result<()>))
    requires Valid(s)
    ensures Valid(res.0) && res.0.msg.sealed == s.msg.sealed
    ensures res.0.level == s.level && res.0.current == s.current && res.0.contents == s.contents
    ensures Message.Weight(res.0.msg) <= Message.Weight(s.msg)
    ensures res.1.Ok? && s.msg.sealed && !Message.AtEndOfContainer(s.msg) ==>
              Message.Weight(res.0.msg) < Message.Weight(s.msg)
    ensures !res.1.Trap?
  {
    var (r, m) := Message.Skip(s.msg, SignatureArg(Some(types)).value);
    Message.SkipWeight(s.msg, SignatureArg(Some(types)).value);
    if r < 0 then (s, Fail(ErrorOf(r))) else (s.(msg := m), Ok(()))
  }

  /** `rewind()` (complete) and `rewindContainer()`. */
  function RewindSpec(s: CtxState, complete: bool): (res: (CtxState, Result<()>))
    requires Valid(s)
    ensures Valid(res.0) && res.0.level == s.level
    ensures res.1.Ok? <==> s.msg.sealed
    ensures res.1.Ok? && complete ==> res.0.msg == Message.Received(s.msg.body)
  {
    var (r, m) := Message.Rewind(s.msg, complete);
    if r < 0 then (s, Fail(ErrorOf(r))) else (s.(msg := m), Ok(()))
  }

  /** `_copy(from:all:)`: copies the unread part of the source's current container into this message. */
  function CopySpec(s: CtxState, src: CtxState, all: bool): (res: (CtxState, CtxState, Result<()>))
    requires Valid(src)
    ensures Valid(res.1)
    ensures res.2.Ok? <==> !s.msg.sealed && src.msg.sealed
    ensures !res.2.Ok? ==> res.0 == s && res.1 == src
  {
    var (r, m, srcMsg) := Message.Copy(s.msg, src.msg, all);
    if r < 0 then (s, src, Fail(ErrorOf(r))) else (s.(msg := m), src.(msg := srcMsg), Ok(()))
  }

  /**
   * The first pass of `merge`: peek and skip on this context, collecting
   * the tags, until peek reports the end.
   */
  function MergeCollect(s: CtxState, types: seq<SystemdBusType>): (res: (CtxState, Result<seq<SystemdBusType>>))
    requires Valid(s)
    ensures Valid(res.0) && res.0.msg.sealed == s.msg.sealed && res.0.level == s.level
    ensures res.1.Ok? ==> |res.1.value| >= |types| && res.1.value[..|types|] == types
    decreases Message.Weight(s.msg)
  {
    match PeekTypeSpec(s)
    case Trap => (s, Trap)
    case Fail(e) => (s, Fail(e))
    case Ok(p) =>
      if p.r == 0 then (s, Ok(types))
      else
        var (s1, sk) := SkipSpec(s, [p.t]);
        if !sk.Ok? then (s1, Fail(sk.error))
        else
          var rec := MergeCollect(s1, types + [p.t]);
          PrefixOfExtension(if rec.1.Ok? then rec.1.value else types + [p.t], types, p.t);
          rec
  }

  /** A sequence that starts with `prefix + [x]` starts with `prefix`. */
  lemma PrefixOfExtension<T>(a: seq<T>, prefix: seq<T>, x: T)
    requires |a| >= |prefix| + 1 && a[..|prefix| + 1] == prefix + [x]
    ensures a[..|prefix|] == prefix
  {
    assert a[..|prefix|] == a[..|prefix| + 1][..|prefix|];
  }

  /**
   * `merge(structContext:)`: collect the tags of what this context's
   * message still has to read, open a struct with them, copy the struct
   * context's message into it, close.
   */
  function MergeSpec(s: CtxState, structCtx: CtxState): (res: (CtxState, CtxState, Result<()>))
    requires Valid(s) && Valid(structCtx)
  {
    var (s1, collected) := MergeCollect(s, []);
    if !collected.Ok? then (s1, structCtx, if collected.Trap? then Trap else Fail(collected.error))
    else
      var (s2, didOpen) := OpenSpec(s1, Struct, collected.value);
      if !didOpen.Ok? then (s2, structCtx, didOpen)
      else
        var (s3, src, copied) := CopySpec(s2, structCtx, true);
        if !copied.Ok? then (s3, src, copied)
        else
          var (s4, closed) := CloseSpec(s3);
          (s4, src, closed)
  }

  /**
   * The collecting pass reads the message it is merging into: that message
   * is being written, so libsystemd refuses the peek; and if it were
   * sealed, the struct could not be opened in it. Either way `merge`
   * never succeeds.
   */
  lemma MergeNeverSucceeds(s: CtxState, structCtx: CtxState)
    requires Valid(s) && Valid(structCtx)
    ensures !MergeSpec(s, structCtx).2.Ok?
    ensures !s.msg.sealed ==> MergeSpec(s, structCtx).2 == Fail(ErrorOf(-EPERM))
  {
    var (s1, collected) := MergeCollect(s, []);
    if collected.Ok? {
      assert s1.msg.sealed == s.msg.sealed;
    }
  }

  /** A context's `append(context:)` for a representable scalar: one basic element. */
  function AppendScalarSpec(s: CtxState, sc: Scalar): (res: (CtxState, Result<()>))
    ensures Valid(s) ==> Valid(res.0)
    ensures res.1.Ok? <==> !s.msg.sealed
    ensures !res.1.Trap?
    ensures res.1.Ok? ==> res.0 == s.(msg := Message.AddItem(s.msg, ScalarElem(sc)))
    ensures !res.1.Ok? ==> res.0 == s
  {
    var (r, m) := Message.AppendBasic(s.msg, KindCode(KindOf(sc)), ScalarWord(sc));
    if r < 0 then (s, Fail(ErrorOf(r))) else (s.(msg := m), Ok(()))
  }

  /**
   * `init(context:)` of a representable scalar kind: one basic read. At the
   * end of an array the temporary keeps its initial value (the string
   * kinds then trap on a nil pointer).
   */
  function ReadScalarSpec(s: CtxState, k: Kind): (res: (CtxState, Result<Scalar>))
    requires Valid(s)
    ensures Valid(res.0) && res.0.level == s.level && res.0.msg.sealed == s.msg.sealed
    ensures res.0.current == s.current && res.0.contents == s.contents
    ensures Message.Weight(res.0.msg) <= Message.Weight(s.msg)
    ensures res.1.Ok? && s.msg.sealed && !Message.AtEndOfContainer(s.msg) ==>
              Message.Weight(res.0.msg) < Message.Weight(s.msg)
    ensures res.1.Ok? ==> KindOf(res.1.value) == k
  {
    var (r, w, m) := Message.ReadBasic(s.msg, KindCode(k));
    Message.ReadBasicWeight(s.msg, KindCode(k));
    if r < 0 then (s, Fail(ErrorOf(r)))
    else if r == 0 then
      (s, match ScalarDefault(k) case Some(d) => Ok(d) case None => Trap)
    else
      (s.(msg := m), match ScalarFromWord(k, w.value) case Some(v) => Ok(v) case None => Trap)
  }

  /** Appending a scalar to a fresh message, sealing it and reading it back gives the scalar. */
  lemma ScalarAppendReadRoundTrip(sc: Scalar)
    ensures var appended := AppendScalarSpec(NewContext(Message.New()), sc).0;
            var sealed := NewContext(Message.Seal(appended.msg).1);
            ReadScalarSpec(sealed, KindOf(sc)).1 == Ok(sc)
  {
    ScalarRoundTrip(sc);
  }

  class SystemdBusTypeContext {
    var message: Message.MsgState
    var level: int
    var current: SystemdBusType
    var contents: Option<seq<SystemdBusType>>

    function State(): CtxState
      reads this
    {
      CtxState(message, level, current, contents)
    }

    predicate Valid()
      reads this
    {
      Message.Valid(message)
    }

    /** `init(message:)`. */
    constructor (m: Message.MsgState)
      requires Message.Valid(m)
      ensures Valid() && State() == NewContext(m)
    {
      message := m;
      level := 1;
      current := Invalid;
      contents := None;
    }

    /** The `currentType` property. */
    function CurrentType(): (t: Option<SystemdBusType>)
      reads this
      ensures t.None? <==> current == Invalid
    {
      if current == Invalid then None else Some(current)
    }

    method PeekType() returns (res: Result<Peeked>)
      requires Valid()
      ensures res == PeekTypeSpec(State())
    {
      var (r, code, sig) := Message.PeekType(message);
      if r < 0 {
        return Fail(ErrorOf(r));
      }
      var mapped: Option<Option<seq<SystemdBusType>>> := None;
      if r > 0 && sig.Some? {
        mapped := Some(TagsOf(sig.value + [0]));
      }
      if mapped.Some? && mapped.value.None? {
        return Trap;
      }
      var peekedContents: Option<seq<SystemdBusType>> := None;
      if mapped.Some? {
        peekedContents := Some(DropLast(mapped.value.value));
      }
      var t := FromRawValue(code);
      if t.None? {
        return Trap;
      }
      return Ok(Peeked(r, t.value, peekedContents));
    }

    method Skip(types: seq<SystemdBusType>) returns (res: Result<()>)
      requires Valid()
      modifies this
      ensures Valid() && (State(), res) == SkipSpec(old(State()), types)
    {
      var (r, m) := Message.Skip(message, SignatureArg(Some(types)).value);
      if r < 0 {
        return Fail(ErrorOf(r));
      }
      message := m;
      return Ok(());
    }

    method EnterContainer(t: Option<SystemdBusType>, c: Option<seq<SystemdBusType>>) returns (res: Result<int>)
      requires Valid()
      modifies this
      ensures Valid() && (State(), res) == EnterSpec(old(State()), t, c)
    {
      var peeked := PeekType();
      if !peeked.Ok? {
        return if peeked.Trap? then Trap else Fail(peeked.error);
      }
      current, contents := peeked.value.t, peeked.value.contents;
      res := EnterPeekedContainer(t, c);
    }

    /** The libsystemd call of `enterContainer`, once the peek has been recorded. */
    method EnterPeekedContainer(t: Option<SystemdBusType>, c: Option<seq<SystemdBusType>>) returns (res: Result<int>)
      requires Valid()
      modifies this
      ensures Valid() && (State(), res) == EnterPeeked(old(State()), t, c)
    {
      var code := RawValue(if t.Some? then t.value else current);
      var contentsStr := SignatureArg(if c.Some? then c else contents);
      var (r, m) := Message.EnterContainer(message, code, contentsStr);
      if r < 0 {
        return Fail(ErrorOf(r));
      }
      message := m;
      if r > 0 {
        level := level + 1;
      }
      return Ok(r);
    }

    method ExitContainer() returns (res: Result<()>)
      requires Valid()
      modifies this
      ensures Valid() && (State(), res) == ExitSpec(old(State()))
    {
      var (r, m) := Message.ExitContainer(message);
      if r < 0 {
        return Fail(ErrorOf(r));
      }
      message := m;
      level := level - 1;
      return Ok(());
    }

    method OpenContainer(t: SystemdBusType, types: seq<SystemdBusType>) returns (res: Result<()>)
      requires Valid()
      modifies this
      ensures Valid() && (State(), res) == OpenSpec(old(State()), t, types)
    {
      ghost var spec := OpenSpec(State(), t, types);
      var (r, m) := Message.OpenContainer(message, RawValue(t), SignatureArg(Some(types)).value);
      assert spec.1.Ok? <==> r >= 0;
      if r < 0 {
        return Fail(ErrorOf(r));
      }
      message := m;
      level := level + 1;
      contents := Some(types);
      return Ok(());
    }

    method CloseContainer() returns (res: Result<()>)
      requires Valid()
      modifies this
      ensures Valid() && (State(), res) == CloseSpec(old(State()))
    {
      var (r, m) := Message.CloseContainer(message);
      if r < 0 {
        return Fail(ErrorOf(r));
      }
      message := m;
      contents := None;
      level := level - 1;
      return Ok(());
    }

    method IsAtEnd() returns (b: bool)
      requires Valid()
      ensures b == IsAtEndSpec(State())
      ensures b <==> !message.sealed || Message.AtEndOfContainer(message)
    {
      var r := Message.AtEnd(message);
      if r < 0 {
        return true;
      }
      return r > 0;
    }

    method Rewind(complete: bool) returns (res: Result<()>)
      requires Valid()
      modifies this
      ensures Valid() && (State(), res) == RewindSpec(old(State()), complete)
    {
      var (r, m) := Message.Rewind(message, complete);
      if r < 0 {
        return Fail(ErrorOf(r));
      }
      message := m;
      return Ok(());
    }

    method Copy(source: SystemdBusTypeContext, all: bool) returns (res: Result<()>)
      requires Valid() && source.Valid() && source != this
      modifies this, source
      ensures Valid() && source.Valid()
      ensures (State(), source.State(), res) == CopySpec(old(State()), old(source.State()), all)
    {
      var (r, m, srcMsg) := Message.Copy(message, source.message, all);
      if r < 0 {
        return Fail(ErrorOf(r));
      }
      message := m;
      source.message := srcMsg;
      return Ok(());
    }

    method Merge(structContext: SystemdBusTypeContext) returns (res: Result<()>)
      requires Valid() && structContext.Valid() && structContext != this
      modifies this, structContext
      ensures (State(), structContext.State(), res) == MergeSpec(old(State()), old(structContext.State()))
    {
      var types: seq<SystemdBusType> := [];
      while true
        invariant Valid() && structContext.State() == old(structContext.State())
        invariant MergeCollect(State(), types) == MergeCollect(old(State()), [])
        decreases Message.Weight(message)
      {
        var peeked := PeekType();
        if !peeked.Ok? {
          return if peeked.Trap? then Trap else Fail(peeked.error);
        }
        if peeked.value.r == 0 {
          break;
        }
        var t := peeked.value.t;
        types := types + [t];
        var skipped := Skip([t]);
        if !skipped.Ok? {
          return Fail(skipped.error);
        }
      }
      var didOpen := OpenContainer(Struct, types);
      if !didOpen.Ok? {
        return didOpen;
      }
      // Collecting succeeded only on a sealed message, where the open has
      // just failed: the copy and close that follow in `merge` are never
      // reached (see MergeNeverSucceeds).
      assert false;
    }

    method AppendScalar(sc: Scalar) returns (res: Result<()>)
      requires Valid()
      modifies this
      ensures Valid() && (State(), res) == AppendScalarSpec(old(State()), sc)
    {
      var (r, m) := Message.AppendBasic(message, KindCode(KindOf(sc)), ScalarWord(sc));
      if r < 0 {
        return Fail(ErrorOf(r));
      }
      message := m;
      return Ok(());
    }

    method ReadScalar(k: Kind) returns (res: Result<Scalar>)
      requires Valid()
      modifies this
      ensures Valid() && (State(), res) == ReadScalarSpec(old(State()), k)
    {
      var (r, w, m) := Message.ReadBasic(message, KindCode(k));
      if r < 0 {
        return Fail(ErrorOf(r));
      }
      if r == 0 {
        var d := ScalarDefault(k);
        return if d.Some? then Ok(d.value) else Trap;
      }
      message := m;
      var v := ScalarFromWord(k, w.value);
      return if v.Some? then Ok(v.value) else Trap;
    }
  }
}
