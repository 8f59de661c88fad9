/**
 * An abstract libsystemd message, as the client sees it through the
 * `sd_bus_message_*` calls: a tree of typed elements rather than bytes.
 *
 * A message is built while unsealed: elements go to the innermost open
 * container, or to the body when none is open. Once sealed (sent, or
 * received) it is read through a stack of cursors, one per entered
 * container. Every call returns libsystemd's `int`: a negative errno on
 * failure, and then the message is unchanged.
 *
 * Type codes are raw `char` values, so a received message may carry codes
 * the client has no tag for. Opening a container checks that its contents
 * signature is well formed, as libsystemd does; the model does not check
 * that an element agrees with the signature of the container it is written
 * into, which is the separate predicate `Conforms`.
 */
module Message {
  import opened Wrappers
  import opened BusError

  /** The payload of a basic element: a number (bool, integers, fd, double bits) or a C string. */
  datatype Word = Num(n: int) | Text(s: string)

  datatype Elem =
    | Basic(code: int, word: Word)
    | Container(code: int, sig: seq<int>, items: seq<Elem>)

  /** A container being written: its type code, its contents signature, what it holds so far. */
  datatype Frame = Frame(code: int, sig: seq<int>, items: seq<Elem>)

  /** A container being read: its type code, its elements, the index of the next one. */
  datatype ReadFrame = ReadFrame(code: int, items: seq<Elem>, pos: nat)

  datatype MsgState = MsgState(sealed: bool, body: seq<Elem>, open: seq<Frame>, cursor: seq<ReadFrame>)

  const ARRAY_CODE: int := 97
  const VARIANT_CODE: int := 118
  const STRUCT_CODE: int := 114
  const DICT_ENTRY_CODE: int := 101

  /** A return value of a libsystemd call: 0 or 1, or a negative errno. */
  predicate IsReturn(r: int) { -1000 < r <= 1 }

  /** Unsealed messages have no cursor; sealed ones have no open container and a cursor inside the body. */
  predicate Valid(m: MsgState)
  {
    if m.sealed then
      m.open == [] && |m.cursor| >= 1 && m.cursor[0].code == 0
      && forall i :: 0 <= i < |m.cursor| ==> m.cursor[i].pos <= |m.cursor[i].items|
    else
      m.cursor == []
  }

  /** `sd_bus_message_new`: an empty message being built. */
  function New(): (m: MsgState)
    ensures Valid(m) && !m.sealed && m.body == [] && m.open == []
  {
    MsgState(false, [], [], [])
  }

  /** A message received from the bus: sealed, its cursor at the start of the body. */
  function Received(body: seq<Elem>): (m: MsgState)
    ensures Valid(m) && m.sealed && m.body == body && AtStart(m)
  {
    MsgState(true, body, [], [ReadFrame(0, body, 0)])
  }

  predicate AtStart(m: MsgState)
  {
    m.cursor == [ReadFrame(0, m.body, 0)]
  }

  /** A C string handed to libsystemd: the characters before the first NUL. */
  function CString(s: seq<int>): (r: seq<int>)
    ensures |r| <= |s| && r == s[..|r|]
    ensures 0 !in r
    ensures |r| < |s| ==> s[|r|] == 0
  {
    if s == [] || s[0] == 0 then [] else [s[0]] + CString(s[1..])
  }

  lemma {:induction false} CStringOfTerminated(s: seq<int>)
    requires 0 !in s
    ensures CString(s + [0]) == s
  {
    if s != [] {
      assert (s + [0])[1..] == s[1..] + [0];
      CStringOfTerminated(s[1..]);
    }
  }

  // ----- writing -----

  /** Adds a finished element to the innermost open container, or to the body. */
  function AddItem(m: MsgState, e: Elem): (m': MsgState)
    requires !m.sealed
    ensures !m'.sealed && m'.cursor == m.cursor && |m'.open| == |m.open|
  {
    m.(body := if m.open == [] then m.body + [e] else m.body,
       open := if m.open == [] then m.open
               else m.open[|m.open| - 1 := m.open[|m.open| - 1].(items := m.open[|m.open| - 1].items + [e])])
  }

  /** `sd_bus_message_append_basic`. */
  function AppendBasic(m: MsgState, code: int, w: Word): (res: (int, MsgState))
    ensures IsReturn(res.0)
    ensures res.0 >= 0 <==> !m.sealed
    ensures res.0 < 0 ==> res.1 == m && res.0 == -EPERM
    ensures res.0 >= 0 ==> res.1 == AddItem(m, Basic(code, w))
  {
    if m.sealed then (-EPERM, m) else (0, AddItem(m, Basic(code, w)))
  }

  // ----- the contents signatures libsystemd accepts -----

  const STRUCT_BEGIN: int := 40
  const STRUCT_END: int := 41
  const DICT_ENTRY_BEGIN: int := 123
  const DICT_ENTRY_END: int := 125

  /**
   * `signature_element_length_internal`: the length of the one complete
   * type s starts with, or None when it starts with none. Arrays nest at
   * most 32 deep and structs and dict entries 32 deep; a struct has at
   * least one member; a dict entry may appear only as an array's element
   * and holds a basic key and one value.
   */
  function ElementLength(s: seq<int>, allowDictEntry: bool, arrays: nat, structs: nat): (l: Option<nat>)
    ensures l.Some? ==> 0 < l.value <= |s|
    decreases |s|, 0
  {
    if s == [] then None
    else if IsBasicCode(s[0]) || s[0] == VARIANT_CODE then Some(1)
    else if s[0] == ARRAY_CODE then
      if arrays >= 32 then None
      else
        match ElementLength(s[1..], true, arrays + 1, structs)
        case None => None
        case Some(t) => Some(t + 1)
    else if s[0] == STRUCT_BEGIN || (s[0] == DICT_ENTRY_BEGIN && allowDictEntry) then
      if structs >= 32 then None
      else
        var close := if s[0] == STRUCT_BEGIN then STRUCT_END else DICT_ENTRY_END;
        match MembersLength(s[1..], close, arrays, structs + 1)
        case None => None
        case Some(r) =>
          if s[0] == STRUCT_BEGIN && r.1 == 0 then None
          else if s[0] == DICT_ENTRY_BEGIN && (r.1 != 2 || !IsBasicCode(s[1])) then None
          else Some(r.0 + 2)
    else None
  }

  /**
   * The members of a struct or dict entry, up to its closing code: their
   * total length and their number, or None when one is not a complete type
   * or the closing code is missing.
   */
  function MembersLength(s: seq<int>, close: int, arrays: nat, structs: nat): (r: Option<(nat, nat)>)
    ensures r.Some? ==> r.value.0 < |s| && s[r.value.0] == close
    decreases |s|, 1
  {
    if s == [] then None
    else if s[0] == close then Some((0, 0))
    else
      match ElementLength(s, false, arrays, structs)
      case None => None
      case Some(t) =>
        match MembersLength(s[t..], close, arrays, structs)
        case None => None
        case Some(r) => Some((t + r.0, r.1 + 1))
  }

  /** `signature_is_single`: s is exactly one complete type. */
  predicate IsSingle(s: seq<int>, allowDictEntry: bool)
  {
    ElementLength(s, allowDictEntry, 0, 0) == Some(|s|)
  }

  /** `signature_is_valid` without dict entries: complete types one after another, at most 255 codes. */
  predicate IsValidSignature(s: seq<int>)
  {
    |s| <= 255 && CompleteTypes(s)
  }

  predicate CompleteTypes(s: seq<int>)
    decreases |s|
  {
    if s == [] then true
    else
      match ElementLength(s, false, 0, 0)
      case None => false
      case Some(t) => CompleteTypes(s[t..])
  }

  /**
   * The contents `sd_bus_message_open_container` accepts for a container
   * type: one complete type for an array (a dict entry allowed) or a
   * variant, a valid signature for a struct, a basic key code and one
   * complete type for a dict entry. Any other type code is refused.
   */
  predicate ValidContents(code: int, sig: seq<int>)
  {
    if code == ARRAY_CODE then IsSingle(sig, true)
    else if code == VARIANT_CODE then IsSingle(sig, false)
    else if code == STRUCT_CODE then IsValidSignature(sig)
    else if code == DICT_ENTRY_CODE then sig != [] && IsBasicCode(sig[0]) && IsSingle(sig[1..], false)
    else false
  }

  /** A one-code signature is a complete type exactly when the code is basic or a variant. */
  lemma SingleCode(c: int, allowDictEntry: bool)
    ensures IsSingle([c], allowDictEntry) <==> IsBasicCode(c) || c == VARIANT_CODE
  {
    var s := [c];
    assert s[1..] == [];
    if c == STRUCT_BEGIN || c == DICT_ENTRY_BEGIN {
      assert MembersLength(s[1..], STRUCT_END, 0, 1).None?;
      assert MembersLength(s[1..], DICT_ENTRY_END, 0, 1).None?;
    }
  }

  /** A closing code on its own starts no complete type. */
  lemma ClosingStartsNothing(allowDictEntry: bool, arrays: nat, structs: nat)
    ensures ElementLength([DICT_ENTRY_END], allowDictEntry, arrays, structs).None?
  {
  }

  /** Inside a dict entry, a code other than a basic one or `v`, followed by the closing code, is no complete type. */
  lemma NoMemberBeforeClosing(v: int, structs: nat)
    requires !IsBasicCode(v) && v != VARIANT_CODE
    ensures ElementLength([v, DICT_ENTRY_END], false, 0, structs).None?
  {
    var s := [v, DICT_ENTRY_END];
    assert s[1..] == [DICT_ENTRY_END];
    ClosingStartsNothing(true, 1, structs);
    ClosingStartsNothing(false, 0, structs + 1);
    assert MembersLength(s[1..], STRUCT_END, 0, structs + 1).None?;
  }

  /** The members of `kv}` after a basic key: two of them exactly when v is basic or `v`. */
  lemma EntryMembers(k: int, v: int)
    requires IsBasicCode(k)
    ensures MembersLength([k, v, DICT_ENTRY_END], DICT_ENTRY_END, 0, 1) == Some((2, 2))
            <==> IsBasicCode(v) || v == VARIANT_CODE
  {
    var s := [k, v, DICT_ENTRY_END];
    var rest := [v, DICT_ENTRY_END];
    assert s[1..] == rest && rest[1..] == [DICT_ENTRY_END];
    assert ElementLength(s, false, 0, 1) == Some(1);
    assert MembersLength([DICT_ENTRY_END], DICT_ENTRY_END, 0, 1) == Some((0, 0));
    if IsBasicCode(v) || v == VARIANT_CODE {
      assert ElementLength(rest, false, 0, 1) == Some(1);
      assert MembersLength(rest, DICT_ENTRY_END, 0, 1) == Some((1, 1));
    } else if v == DICT_ENTRY_END {
      assert MembersLength(rest, DICT_ENTRY_END, 0, 1) == Some((0, 0));
    } else {
      NoMemberBeforeClosing(v, 1);
      assert MembersLength(rest, DICT_ENTRY_END, 0, 1).None?;
    }
  }

  /**
   * The signature of an array of dict entries, `{kv}` with one code each,
   * is accepted exactly when k is basic and v is basic or a variant.
   */
  lemma DictArrayContents(k: int, v: int)
    ensures ValidContents(ARRAY_CODE, [DICT_ENTRY_BEGIN, k, v, DICT_ENTRY_END])
            <==> IsBasicCode(k) && (IsBasicCode(v) || v == VARIANT_CODE)
  {
    var s := [DICT_ENTRY_BEGIN, k, v, DICT_ENTRY_END];
    assert s[1..] == [k, v, DICT_ENTRY_END];
    if IsBasicCode(k) {
      EntryMembers(k, v);
    }
  }

  /** The contents of a dict entry with one code each are accepted exactly when the key is basic. */
  lemma DictEntryContents(k: int, v: int)
    ensures ValidContents(DICT_ENTRY_CODE, [k, v]) <==> IsBasicCode(k) && (IsBasicCode(v) || v == VARIANT_CODE)
  {
    assert [k, v][1..] == [v];
    SingleCode(v, false);
  }

  /** `sd_bus_message_open_container`: EINVAL for contents the container type does not accept. */
  function OpenContainer(m: MsgState, code: int, sig: seq<int>): (res: (int, MsgState))
    ensures IsReturn(res.0)
    ensures res.0 >= 0 <==> !m.sealed && ValidContents(code, sig)
    ensures res.0 < 0 ==> res.1 == m && res.0 == (if m.sealed then -EPERM else -EINVAL)
    ensures res.0 >= 0 ==> res.1 == m.(open := m.open + [Frame(code, sig, [])])
  {
    if m.sealed then (-EPERM, m)
    else if !ValidContents(code, sig) then (-EINVAL, m)
    else (0, m.(open := m.open + [Frame(code, sig, [])]))
  }

  /** `sd_bus_message_close_container`: the innermost frame becomes one element of its parent. */
  function CloseContainer(m: MsgState): (res: (int, MsgState))
    ensures IsReturn(res.0)
    ensures res.0 >= 0 <==> !m.sealed && m.open != []
    ensures res.0 < 0 ==> res.1 == m
  {
    if m.sealed then (-EPERM, m)
    else if m.open == [] then (-EINVAL, m)
    else
      var f := m.open[|m.open| - 1];
      (0, AddItem(m.(open := m.open[..|m.open| - 1]), Container(f.code, f.sig, f.items)))
  }

  /** Elements added while a container is open go into that container, in order. */
  lemma {:induction false} AddItemsToOpenFrame(m: MsgState, f: Frame, es: seq<Elem>)
    requires !m.sealed
    ensures AddItems(m.(open := m.open + [f]), es) == m.(open := m.open + [f.(items := f.items + es)])
    decreases |es|
  {
    var m0 := m.(open := m.open + [f]);
    if es == [] {
      assert f.items + es == f.items;
    } else {
      var f1 := f.(items := f.items + [es[0]]);
      assert m0.open[..|m0.open| - 1] == m.open;
      assert AddItem(m0, es[0]) == m.(open := m.open + [f1]);
      AddItemsToOpenFrame(m, f1, es[1..]);
      assert f1.items + es[1..] == f.items + es;
      assert AddItems(m0, es) == AddItems(AddItem(m0, es[0]), es[1..]);
    }
  }

  /** Adding a run of one element is adding that element. */
  lemma AddSingleItem(m: MsgState, e: Elem)
    requires !m.sealed
    ensures AddItems(m, [e]) == AddItem(m, e)
  {
    assert [e][1..] == [];
  }

  /** Adding two runs of elements is adding their concatenation. */
  lemma {:induction false} AddItemsConcat(m: MsgState, a: seq<Elem>, b: seq<Elem>)
    requires !m.sealed
    ensures AddItems(m, a + b) == AddItems(AddItems(m, a), b)
    decreases |a|
  {
    if a == [] {
      assert a + b == b;
    } else {
      assert (a + b)[0] == a[0] && (a + b)[1..] == a[1..] + b;
      AddItemsConcat(AddItem(m, a[0]), a[1..], b);
    }
  }

  lemma CloseOpenFrame(m: MsgState, f: Frame)
    requires !m.sealed
    ensures CloseContainer(m.(open := m.open + [f])) == (0, AddItem(m, Container(f.code, f.sig, f.items)))
  {
    var m1 := m.(open := m.open + [f]);
    assert m1.open[..|m1.open| - 1] == m.open;
  }

  /** Opening an empty frame, adding a run of elements and closing it adds one container holding that run. */
  lemma FillAndClose(m: MsgState, code: int, sig: seq<int>, es: seq<Elem>)
    requires !m.sealed
    ensures CloseContainer(AddItems(m.(open := m.open + [Frame(code, sig, [])]), es))
            == (0, AddItem(m, Container(code, sig, es)))
  {
    var f := Frame(code, sig, []);
    AddItemsToOpenFrame(m, f, es);
    assert f.items + es == es;
    CloseOpenFrame(m, f.(items := es));
  }

  /** `sd_bus_message_seal`, done by libsystemd when a message is sent. */
  function Seal(m: MsgState): (res: (int, MsgState))
    requires Valid(m)
    ensures IsReturn(res.0) && Valid(res.1)
    ensures res.0 >= 0 <==> !m.sealed && m.open == []
    ensures res.0 < 0 ==> res.1 == m
    ensures res.0 >= 0 ==> res.1 == Received(m.body)
  {
    if m.sealed then (-EPERM, m)
    else if m.open != [] then (-EBUSY, m)
    else (0, Received(m.body))
  }

  // ----- reading -----

  function Top(m: MsgState): ReadFrame
    requires Valid(m) && m.sealed
  {
    m.cursor[|m.cursor| - 1]
  }

  predicate AtEndOfContainer(m: MsgState)
    requires Valid(m) && m.sealed
  {
    Top(m).pos == |Top(m).items|
  }

  function Next(m: MsgState): Elem
    requires Valid(m) && m.sealed && !AtEndOfContainer(m)
  {
    Top(m).items[Top(m).pos]
  }

  /** Once a cursor at the start of a non-empty container is pushed, its first element is next. */
  lemma EnteredNext(m: MsgState, f: ReadFrame)
    requires Valid(m) && m.sealed && f.pos == 0 && f.items != []
    ensures var m' := m.(cursor := m.cursor + [f]);
            Valid(m') && Top(m') == f && !AtEndOfContainer(m') && Next(m') == f.items[0]
  {
  }

  /** Moves the innermost cursor past the next element. */
  function Advance(m: MsgState): (m': MsgState)
    requires Valid(m) && m.sealed && !AtEndOfContainer(m)
    ensures Valid(m') && m'.sealed && m'.body == m.body && |m'.cursor| == |m.cursor|
  {
    var t := Top(m);
    m.(cursor := m.cursor[|m.cursor| - 1 := t.(pos := t.pos + 1)])
  }

  /**
   * `sd_bus_message_peek_type`: the type code of the next element and, for
   * a container, its contents signature; 0 at the end of the container.
   */
  function PeekType(m: MsgState): (res: (int, int, Option<seq<int>>))
    requires Valid(m)
    ensures IsReturn(res.0)
    ensures res.0 < 0 <==> !m.sealed
    ensures res.0 == 0 <==> m.sealed && AtEndOfContainer(m)
    ensures res.0 <= 0 ==> res.1 == 0 && res.2 == None
    ensures res.0 > 0 ==> res.1 == Next(m).code && (res.2.Some? <==> Next(m).Container?)
    ensures res.0 > 0 && Next(m).Container? ==> res.2 == Some(Next(m).sig)
  {
    if !m.sealed then (-EPERM, 0, None)
    else if AtEndOfContainer(m) then (0, 0, None)
    else match Next(m)
      case Basic(c, _) => (1, c, None)
      case Container(c, sig, _) => (1, c, Some(sig))
  }

  /**
   * `sd_bus_message_read_basic`. At the end of an array it returns 0 and
   * leaves the caller's variable untouched; anywhere else a missing or
   * different element is ENXIO.
   */
  function ReadBasic(m: MsgState, code: int): (res: (int, Option<Word>, MsgState))
    requires Valid(m)
    ensures IsReturn(res.0) && Valid(res.2)
    ensures res.0 <= 0 ==> res.1 == None && res.2 == m
    ensures res.0 > 0 <==> m.sealed && !AtEndOfContainer(m) && Next(m).Basic? && Next(m).code == code
    ensures res.0 > 0 ==> res.1 == Some(Next(m).word) && res.2 == Advance(m)
    ensures res.0 == 0 <==> m.sealed && AtEndOfContainer(m) && Top(m).code == ARRAY_CODE
  {
    if !m.sealed then (-EPERM, None, m)
    else if AtEndOfContainer(m) then
      if Top(m).code == ARRAY_CODE then (0, None, m) else (-ENXIO, None, m)
    else match Next(m)
      case Basic(c, w) => if c == code then (1, Some(w), Advance(m)) else (-ENXIO, None, m)
      case Container(_, _, _) => (-ENXIO, None, m)
  }

  /**
   * `sd_bus_message_enter_container`. A missing contents signature means
   * "whatever the element has"; a given one must match it.
   */
  function EnterContainer(m: MsgState, code: int, sig: Option<seq<int>>): (res: (int, MsgState))
    requires Valid(m)
    ensures IsReturn(res.0) && Valid(res.1)
    ensures res.0 <= 0 ==> res.1 == m
    ensures res.0 > 0 <==> m.sealed && !AtEndOfContainer(m) && Next(m).Container? && Next(m).code == code
                           && (sig.None? || sig.value == Next(m).sig)
    ensures res.0 > 0 ==> res.1.sealed && res.1.body == m.body
                          && res.1.cursor == Advance(m).cursor + [ReadFrame(code, Next(m).items, 0)]
    ensures res.0 == 0 <==> m.sealed && AtEndOfContainer(m) && Top(m).code == ARRAY_CODE
  {
    if !m.sealed then (-EPERM, m)
    else if AtEndOfContainer(m) then
      if Top(m).code == ARRAY_CODE then (0, m) else (-ENXIO, m)
    else match Next(m)
      case Basic(_, _) => (-ENXIO, m)
      case Container(c, s, items) =>
        if c == code && (sig.None? || sig.value == s) then
          var m1 := Advance(m);
          (1, m1.(cursor := m1.cursor + [ReadFrame(code, items, 0)]))
        else (-ENXIO, m)
  }

  /**
   * `sd_bus_message_exit_container`. An array may be left early, its rest
   * skipped; any other container only once all of it has been read.
   */
  function ExitContainer(m: MsgState): (res: (int, MsgState))
    requires Valid(m)
    ensures IsReturn(res.0) && Valid(res.1)
    ensures res.0 <= 0 ==> res.1 == m
    ensures res.0 > 0 <==> m.sealed && |m.cursor| > 1 && (Top(m).code == ARRAY_CODE || AtEndOfContainer(m))
    ensures res.0 > 0 ==> res.1 == m.(cursor := m.cursor[..|m.cursor| - 1])
  {
    if !m.sealed then (-EPERM, m)
    else if |m.cursor| <= 1 then (-ENXIO, m)
    else if Top(m).code != ARRAY_CODE && !AtEndOfContainer(m) then (-EBUSY, m)
    else (1, m.(cursor := m.cursor[..|m.cursor| - 1]))
  }

  /** `sd_bus_message_at_end(m, 0)`: 1 at the end of the current container. */
  function AtEnd(m: MsgState): (r: int)
    requires Valid(m)
    ensures IsReturn(r)
    ensures r < 0 <==> !m.sealed
    ensures r > 0 <==> m.sealed && AtEndOfContainer(m)
  {
    if !m.sealed then -EPERM else if AtEndOfContainer(m) then 1 else 0
  }

  /**
   * `sd_bus_message_skip` with a one-code type string: passes over the next
   * element when it has that code; 0 at the end of the container.
   */
  function Skip(m: MsgState, types: seq<int>): (res: (int, MsgState))
    requires Valid(m)
    ensures IsReturn(res.0) && Valid(res.1)
    ensures res.0 <= 0 ==> res.1 == m
    ensures res.0 > 0 ==> m.sealed && !AtEndOfContainer(m) && res.1 == Advance(m)
    ensures res.0 == 0 <==> m.sealed && AtEndOfContainer(m)
  {
    if !m.sealed then (-EPERM, m)
    else if AtEndOfContainer(m) then (0, m)
    else if |types| == 1 && Next(m).code == types[0] then (1, Advance(m))
    else (-ENXIO, m)
  }

  /** `sd_bus_message_rewind`: to the start of the body (complete) or of the current container. */
  function Rewind(m: MsgState, complete: bool): (res: (int, MsgState))
    requires Valid(m)
    ensures IsReturn(res.0) && Valid(res.1)
    ensures res.0 >= 0 <==> m.sealed
    ensures res.0 < 0 ==> res.1 == m
    ensures res.0 >= 0 && complete ==> res.1 == Received(m.body)
  {
    if !m.sealed then (-EPERM, m)
    else if complete then (1, Received(m.body))
    else
      var t := Top(m);
      (1, m.(cursor := m.cursor[|m.cursor| - 1 := t.(pos := 0)]))
  }

  /**
   * `sd_bus_message_copy(dst, src, all)`: copies the unread elements of
   * src's current container (all of them, or only the next one) into dst,
   * and moves src's cursor past them.
   */
  function Copy(dst: MsgState, src: MsgState, all: bool): (res: (int, MsgState, MsgState))
    requires Valid(src)
    ensures IsReturn(res.0) && Valid(res.2)
    ensures res.0 >= 0 <==> !dst.sealed && src.sealed
    ensures res.0 < 0 ==> res.1 == dst && res.2 == src
  {
    if dst.sealed || !src.sealed then (-EPERM, dst, src)
    else
      var t := Top(src);
      var n := if all || t.pos == |t.items| then |t.items| - t.pos else 1;
      var moved := t.items[t.pos .. t.pos + n];
      var src' := src.(cursor := src.cursor[|src.cursor| - 1 := t.(pos := t.pos + n)]);
      (1, AddItems(dst, moved), src')
  }

  function AddItems(m: MsgState, es: seq<Elem>): (m': MsgState)
    requires !m.sealed
    ensures !m'.sealed && m'.cursor == m.cursor && |m'.open| == |m.open|
    decreases |es|
  {
    if es == [] then m else AddItems(AddItem(m, es[0]), es[1..])
  }

  // ----- the amount left to read, which every read operation decreases -----

  function Size(e: Elem): nat
    decreases e
  {
    match e
    case Basic(_, _) => 1
    case Container(_, _, items) => 1 + SizeFrom(items, 0)
  }

  /** The size of the elements from index pos on. */
  function SizeFrom(items: seq<Elem>, pos: nat): nat
    decreases items, |items| - pos
  {
    if pos >= |items| then 0 else Size(items[pos]) + SizeFrom(items, pos + 1)
  }

  /** The unread part of the first n entered containers. */
  function WeightUpTo(cs: seq<ReadFrame>, n: nat): nat
    requires n <= |cs|
  {
    if n == 0 then 0 else WeightUpTo(cs, n - 1) + SizeFrom(cs[n - 1].items, cs[n - 1].pos)
  }

  /** What is left to read in a message: the unread elements of every entered container. */
  function Weight(m: MsgState): nat
  {
    WeightUpTo(m.cursor, |m.cursor|)
  }

  /** The weight of the outer containers depends only on them. */
  lemma {:induction false} WeightUpToPrefix(a: seq<ReadFrame>, b: seq<ReadFrame>, n: nat)
    requires n <= |a| && n <= |b| && a[..n] == b[..n]
    ensures WeightUpTo(a, n) == WeightUpTo(b, n)
  {
    if n > 0 {
      assert a[n - 1] == a[..n][n - 1] == b[..n][n - 1] == b[n - 1];
      assert a[..n - 1] == a[..n][..n - 1] && b[..n - 1] == b[..n][..n - 1];
      WeightUpToPrefix(a, b, n - 1);
    }
  }

  lemma AdvanceWeight(m: MsgState)
    requires Valid(m) && m.sealed && !AtEndOfContainer(m)
    ensures Weight(Advance(m)) + Size(Next(m)) == Weight(m)
  {
    var n := |m.cursor|;
    var m' := Advance(m);
    assert m'.cursor[..n - 1] == m.cursor[..n - 1];
    WeightUpToPrefix(m'.cursor, m.cursor, n - 1);
  }

  lemma EnterWeight(m: MsgState, code: int, sig: Option<seq<int>>)
    requires Valid(m)
    ensures Weight(EnterContainer(m, code, sig).1) <= Weight(m)
    ensures EnterContainer(m, code, sig).0 > 0 ==> Weight(EnterContainer(m, code, sig).1) < Weight(m)
  {
    var (r, m') := EnterContainer(m, code, sig);
    if r > 0 {
      AdvanceWeight(m);
      var m1 := Advance(m);
      var n := |m1.cursor|;
      assert m'.cursor[..n] == m1.cursor[..n];
      WeightUpToPrefix(m'.cursor, m1.cursor, n);
    }
  }

  lemma ExitWeight(m: MsgState)
    requires Valid(m)
    ensures Weight(ExitContainer(m).1) <= Weight(m)
  {
    var (r, m') := ExitContainer(m);
    if r > 0 {
      var n := |m'.cursor|;
      assert m'.cursor[..n] == m.cursor[..n];
      WeightUpToPrefix(m'.cursor, m.cursor, n);
    }
  }

  lemma ReadBasicWeight(m: MsgState, code: int)
    requires Valid(m)
    ensures Weight(ReadBasic(m, code).2) <= Weight(m)
    ensures ReadBasic(m, code).0 > 0 ==> Weight(ReadBasic(m, code).2) < Weight(m)
  {
    if ReadBasic(m, code).0 > 0 { AdvanceWeight(m); }
  }

  lemma SkipWeight(m: MsgState, types: seq<int>)
    requires Valid(m)
    ensures Weight(Skip(m, types).1) <= Weight(m)
    ensures Skip(m, types).0 > 0 ==> Weight(Skip(m, types).1) < Weight(m)
  {
    if Skip(m, types).0 > 0 { AdvanceWeight(m); }
  }

  // ----- agreement of elements with their declared signatures (D-Bus type system) -----

  predicate IsBasicCode(c: int)
  {
    c in [121, 98, 110, 113, 105, 117, 120, 116, 100, 104, 115, 111, 103]
  }

  /** The signature of the single complete type an element has. */
  function ElemSig(e: Elem): seq<int>
  {
    match e
    case Basic(c, _) => [c]
    case Container(c, sig, _) =>
      if c == ARRAY_CODE then [c] + sig
      else if c == STRUCT_CODE then ['(' as int] + sig + [')' as int]
      else if c == DICT_ENTRY_CODE then ['{' as int] + sig + ['}' as int]
      else [c]
  }

  function SigOfAll(items: seq<Elem>): seq<int>
  {
    if items == [] then [] else ElemSig(items[0]) + SigOfAll(items[1..])
  }

  /**
   * An element agrees with the signature it declares: an array's items all
   * have its element type, a variant holds one value of its declared type,
   * a struct or dict entry holds items whose signatures spell its own.
   */
  predicate Conforms(e: Elem)
  {
    match e
    case Basic(c, _) => IsBasicCode(c)
    case Container(c, sig, items) =>
      (forall i :: 0 <= i < |items| ==> Conforms(items[i]))
      && if c == ARRAY_CODE then forall i :: 0 <= i < |items| ==> ElemSig(items[i]) == sig
         else if c == VARIANT_CODE then |items| == 1 && ElemSig(items[0]) == sig
         else if c == STRUCT_CODE then items != [] && SigOfAll(items) == sig
         else if c == DICT_ENTRY_CODE then |items| == 2 && SigOfAll(items) == sig
         else false
  }

  /** An array conforms exactly when each item conforms and has the element signature. */
  lemma ArrayConformance(sig: seq<int>, items: seq<Elem>)
    ensures Conforms(Container(ARRAY_CODE, sig, items)) <==> forall i :: 0 <= i < |items| ==> Conforms(items[i]) && ElemSig(items[i]) == sig
  {
  }

  /** A variant conforms exactly when its one item conforms and has the declared signature. */
  lemma VariantConformance(sig: seq<int>, e: Elem)
    ensures Conforms(Container(VARIANT_CODE, sig, [e])) <==> Conforms(e) && ElemSig(e) == sig
  {
    var items := [e];
    assert forall i :: 0 <= i < |items| ==> items[i] == e;
  }
}
