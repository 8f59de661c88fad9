/**
 * `SystemdBus` (Bus/SystemdBus.swift; the same class in the older
 * SystemdBus.swift): the table of pending calls keyed by cookie, the
 * requests `callMethod`, `getProperty` and `getProperties` build, the
 * value they read from a reply, and the loop that drains the transport.
 *
 * A continuation is a `WaiterId`; resuming it appends a `Resolution` to
 * the log `resumed`, so "resolved once" and "resolved with what" are
 * statements about that log. The transport (sd_bus_is_open,
 * sd_bus_call_async, sd_bus_process) is represented by the values it
 * returns, passed in as parameters.
 */
module Bus {
  import opened Wrappers
  import opened BusError
  import opened TypeRepresentable
  import opened LegacyTypes
  import Message

  /** A 64-bit message serial; only compared here. */
  type Cookie = nat

  /** The identity of one suspended caller (a checked continuation). */
  type WaiterId = nat

  /**
   * What the client reads from a message through libsystemd: its cookie
   * and reply cookie (None where the getter fails), whether it is an error
   * reply, the errno and `sd_bus_error` of an error reply, and its contents.
   */
  datatype BusMessage = BusMessage(
    cookie: Option<Cookie>,
    replyCookie: Option<Cookie>,
    isMethodError: bool,
    errno: nat,
    error: Option<BusErrorStruct>,
    content: Message.MsgState)

  /** How a continuation is resumed: returning the reply, or throwing. */
  datatype Resumed = Returned(reply: BusMessage) | Threw(error: Error)

  /** The continuation of `waiter`, registered under `cookie`, was resumed with `outcome`. */
  datatype Resolution = Resolution(cookie: Cookie, waiter: WaiterId, outcome: Resumed)

  /** `_continuations` and the resumptions so far. */
  datatype Table = Table(pending: map<Cookie, WaiterId>, resumed: seq<Resolution>)

  /**
   * What a waiter gets for a reply: an error reply becomes a
   * `SystemdBusError` built from the reply's errno and error; any other
   * reply is returned as it is.
   */
  function ReplyOutcome(m: BusMessage): (r: Resumed)
    requires m.errno <= CINT_MAX
    ensures r.Threw? <==> m.isMethodError
    ensures r.Returned? ==> r.reply == m
    ensures r.Threw? ==>
              r.error.BusFailure? && r.error.failure.code == m.errno
              && (r.error.failure.name.Some? ==> m.error.Some? && r.error.failure.name == m.error.value.name)
              && (r.error.failure.message.Some? ==> m.error.Some? && r.error.failure.message == m.error.value.message)
  {
    if m.isMethodError then Threw(BusFailure(FromErrorStruct(m.errno, m.error))) else Returned(m)
  }

  /**
   * `_resume(with:)`: false, and nothing changed, when the reply cookie
   * cannot be read; otherwise the waiter registered under it, if any, is
   * removed and resumed, and the answer is true.
   */
  function ResumeSpec(t: Table, m: BusMessage): (res: (Table, bool))
    requires m.errno <= CINT_MAX
    ensures res.1 <==> m.replyCookie.Some?
    ensures !res.1 || m.replyCookie.value !in t.pending ==> res.0 == t
    ensures res.1 ==> res.0.pending == t.pending - {m.replyCookie.value}
    ensures res.1 && m.replyCookie.value in t.pending ==>
              var c := m.replyCookie.value;
              res.0.resumed == t.resumed + [Resolution(c, t.pending[c], ReplyOutcome(m))]
  {
    match m.replyCookie
    case None => (t, false)
    case Some(c) =>
      if c in t.pending then
        (Table(t.pending - {c}, t.resumed + [Resolution(c, t.pending[c], ReplyOutcome(m))]), true)
      else (t, true)
  }

  /**
   * The synchronous part of `call(_:timeout:)`, up to the suspension: a
   * closed bus throws ENOTCONN, a failed dispatch throws its error, and
   * otherwise the waiter is registered under the request's cookie (whose
   * read is forced, so a missing cookie stops the program).
   */
  function CallSpec(t: Table, isOpen: bool, dispatched: int, m: BusMessage, w: WaiterId): (res: (Table, Result<()>))
    requires IsCInt(dispatched) && dispatched != CINT_MIN
    ensures !res.1.Ok? ==> res.0 == t
    ensures !isOpen ==> res.1 == Fail(ErrorOf(-ENOTCONN))
    ensures isOpen && dispatched < 0 ==> res.1 == Fail(ErrorOf(dispatched))
    ensures res.1.Trap? <==> isOpen && dispatched >= 0 && m.cookie.None?
    ensures res.1.Ok? <==> isOpen && dispatched >= 0 && m.cookie.Some?
    ensures res.1.Ok? ==> res.0 == t.(pending := t.pending[m.cookie.value := w])
  {
    if !isOpen then (t, Fail(ErrorOf(-ENOTCONN)))
    else
      var r := Throwing(dispatched);
      if !r.Ok? then (t, Lift(r))
      else if m.cookie.None? then (t, Trap)
      else (t.(pending := t.pending[m.cookie.value := w]), Ok(()))
  }

  /**
   * `_cancelAll()` took `before` to `after`: every pending waiter was
   * resumed once with a CancellationError, nothing else was resumed, and
   * the table is empty.
   */
  predicate CancelledAll(before: Table, after: Table)
  {
    var n := |before.resumed|;
    after.pending == map[]
    && n <= |after.resumed| && after.resumed[..n] == before.resumed
    && |after.resumed| == n + |before.pending|
    && (forall i :: n <= i < |after.resumed| ==>
          after.resumed[i].cookie in before.pending
          && after.resumed[i] == Resolution(after.resumed[i].cookie, before.pending[after.resumed[i].cookie], Threw(Cancellation)))
    && (forall i, j :: n <= i < j < |after.resumed| ==> after.resumed[i].cookie != after.resumed[j].cookie)
    && (forall c :: c in before.pending ==> exists i :: n <= i < |after.resumed| && after.resumed[i].cookie == c)
  }

  /**
   * No cookie is resumed twice, and no resumed cookie is still pending:
   * each waiter is resolved at most once.
   */
  predicate ResolvedOnce(t: Table)
  {
    (forall i, j :: 0 <= i < j < |t.resumed| ==> t.resumed[i].cookie != t.resumed[j].cookie)
    && (forall i :: 0 <= i < |t.resumed| ==> t.resumed[i].cookie !in t.pending)
  }

  /** A cookie the table has never seen. */
  predicate Fresh(t: Table, c: Cookie)
  {
    c !in t.pending && forall i :: 0 <= i < |t.resumed| ==> t.resumed[i].cookie != c
  }

  /** A reply resolves at most one waiter, and resumptions keep every cookie resolved at most once. */
  lemma ResumeKeepsResolvedOnce(t: Table, m: BusMessage)
    requires m.errno <= CINT_MAX && ResolvedOnce(t)
    ensures ResolvedOnce(ResumeSpec(t, m).0)
    ensures |ResumeSpec(t, m).0.resumed| <= |t.resumed| + 1
  {
    var t' := ResumeSpec(t, m).0;
    if m.replyCookie.Some? && m.replyCookie.value in t.pending {
      var c := m.replyCookie.value;
      assert t'.resumed[|t.resumed|].cookie == c;
      forall i | 0 <= i < |t.resumed|
        ensures t'.resumed[i].cookie != c
      {
        assert t'.resumed[i] == t.resumed[i];
      }
    }
  }

  /** Registering a waiter under a fresh cookie keeps every cookie resolved at most once. */
  lemma CallKeepsResolvedOnce(t: Table, isOpen: bool, dispatched: int, m: BusMessage, w: WaiterId)
    requires IsCInt(dispatched) && dispatched != CINT_MIN && ResolvedOnce(t)
    requires m.cookie.Some? ==> Fresh(t, m.cookie.value)
    ensures ResolvedOnce(CallSpec(t, isOpen, dispatched, m, w).0)
  {
  }

  /** Cancelling all waiters keeps every cookie resolved at most once. */
  lemma {:induction false} CancelKeepsResolvedOnce(before: Table, after: Table)
    requires ResolvedOnce(before) && CancelledAll(before, after)
    ensures ResolvedOnce(after)
  {
    var n := |before.resumed|;
    forall i, j | 0 <= i < j < |after.resumed|
      ensures after.resumed[i].cookie != after.resumed[j].cookie
    {
      if j < n {
        assert after.resumed[i] == before.resumed[i] && after.resumed[j] == before.resumed[j];
      } else if i < n {
        assert after.resumed[i] == before.resumed[i];
        assert after.resumed[j].cookie in before.pending;
      }
    }
  }

  /** A second delivery of the same reply resolves nothing: a waiter is removed exactly once. */
  lemma {:induction false} ResumeTwice(t: Table, m: BusMessage)
    requires m.errno <= CINT_MAX
    ensures var t1 := ResumeSpec(t, m).0; ResumeSpec(t1, m) == (t1, m.replyCookie.Some?)
  {
    var t1 := ResumeSpec(t, m).0;
    if m.replyCookie.Some? {
      assert m.replyCookie.value !in t1.pending;
    }
  }

  /**
   * Replies are matched by cookie, not by order: after two calls, the reply
   * to the second resolves its own waiter and leaves the first pending,
   * and the reply to the first then resolves the first waiter.
   */
  lemma {:induction false} RepliesCorrelateByCookie(t: Table, a: Cookie, wa: WaiterId, b: Cookie, wb: WaiterId, ra: BusMessage, rb: BusMessage)
    requires a != b && ra.errno <= CINT_MAX && rb.errno <= CINT_MAX
    requires ra.replyCookie == Some(a) && rb.replyCookie == Some(b)
    ensures var t0 := t.(pending := t.pending[a := wa][b := wb]);
            var t1 := ResumeSpec(t0, rb).0;
            var t2 := ResumeSpec(t1, ra).0;
            t1.resumed == t.resumed + [Resolution(b, wb, ReplyOutcome(rb))]
            && t1.pending == t.pending[a := wa] - {b}
            && t2.resumed == t1.resumed + [Resolution(a, wa, ReplyOutcome(ra))]
            && t2.pending == t.pending - {a, b}
  {
    var t0 := t.(pending := t.pending[a := wa][b := wb]);
    assert b in t0.pending && t0.pending[b] == wb;
    var t1 := ResumeSpec(t0, rb).0;
    assert t1.pending == t.pending[a := wa] - {b};
    assert a in t1.pending && t1.pending[a] == wa;
  }

  /**
   * A call followed by the reply that answers it: the reply resumes
   * exactly the caller's waiter, with the reply or with the error it
   * carries, and removes it.
   */
  lemma {:induction false} CallThenReply(t: Table, dispatched: int, request: BusMessage, w: WaiterId, reply: BusMessage)
    requires IsCInt(dispatched) && 0 <= dispatched && reply.errno <= CINT_MAX
    requires request.cookie.Some? && reply.replyCookie == request.cookie
    ensures var (t1, r1) := CallSpec(t, true, dispatched, request, w);
            var (t2, handled) := ResumeSpec(t1, reply);
            r1.Ok? && handled
            && t2.resumed == t.resumed + [Resolution(request.cookie.value, w, ReplyOutcome(reply))]
            && t2.pending == t.pending - {request.cookie.value}
  {
    var c := request.cookie.value;
    var t1 := CallSpec(t, true, dispatched, request, w).0;
    assert c in t1.pending && t1.pending[c] == w;
    assert t1.pending - {c} == t.pending - {c};
  }

  /** After `_cancelAll()` no reply resolves anything. */
  lemma {:induction false} NothingAfterCancel(before: Table, after: Table, m: BusMessage)
    requires CancelledAll(before, after) && m.errno <= CINT_MAX
    ensures ResumeSpec(after, m) == (after, m.replyCookie.Some?)
  {
    assert after.pending == map[];
  }

  /** `SystemdBus`, reduced to its table of pending calls. */
  class SystemdBus {
    var continuations: map<Cookie, WaiterId>
    var resumed: seq<Resolution>

    function State(): Table
      reads this
    {
      Table(continuations, resumed)
    }

    /** `init(bus:)`: no call is pending yet. */
    constructor ()
      ensures State() == Table(map[], [])
    {
      continuations := map[];
      resumed := [];
    }

    /** `_resume(with:)`, the reply handler. */
    method Resume(m: BusMessage) returns (handled: bool)
      requires m.errno <= CINT_MAX
      modifies this
      ensures (State(), handled) == ResumeSpec(old(State()), m)
    {
      if m.replyCookie.None? {
        return false;
      }
      var cookie := m.replyCookie.value;
      var continuation: Option<WaiterId> := None;
      if cookie in continuations {
        continuation := Some(continuations[cookie]);
      }
      continuations := continuations - {cookie};
      if continuation.Some? {
        var outcome := if m.isMethodError then Threw(BusFailure(FromErrorStruct(m.errno, m.error))) else Returned(m);
        resumed := resumed + [Resolution(cookie, continuation.value, outcome)];
      }
      return true;
    }

    /** `_cancelAll()`, run by `deinit`: every pending waiter throws CancellationError, then the table is emptied. */
    method CancelAll()
      modifies this
      ensures CancelledAll(old(State()), State())
    {
      var remaining := continuations.Keys;
      while remaining != {}
        invariant continuations == old(continuations) && remaining <= continuations.Keys
        invariant |old(resumed)| <= |resumed| && resumed[..|old(resumed)|] == old(resumed)
        invariant |resumed| - |old(resumed)| + |remaining| == |continuations.Keys|
        invariant forall i :: |old(resumed)| <= i < |resumed| ==>
                    resumed[i].cookie in continuations && resumed[i].cookie !in remaining
                    && resumed[i] == Resolution(resumed[i].cookie, continuations[resumed[i].cookie], Threw(Cancellation))
        invariant forall i, j :: |old(resumed)| <= i < j < |resumed| ==> resumed[i].cookie != resumed[j].cookie
        invariant forall c :: c in continuations && c !in remaining ==>
                    exists i :: |old(resumed)| <= i < |resumed| && resumed[i].cookie == c
        decreases remaining
      {
        var c :| c in remaining;
        ghost var prior := resumed;
        resumed := resumed + [Resolution(c, continuations[c], Threw(Cancellation))];
        remaining := remaining - {c};
        forall d | d in continuations && d !in remaining
          ensures exists i :: |old(resumed)| <= i < |resumed| && resumed[i].cookie == d
        {
          if d == c {
            assert resumed[|prior|].cookie == d;
          } else {
            var i :| |old(resumed)| <= i < |prior| && prior[i].cookie == d;
            assert resumed[i] == prior[i];
          }
        }
      }
      continuations := map[];
    }

    /**
     * `call(_:timeout:)` up to its suspension, given what sd_bus_is_open
     * and sd_bus_call_async returned; the caller then waits for its
     * waiter's resolution.
     */
    method Call(isOpen: bool, dispatched: int, m: BusMessage, waiter: WaiterId) returns (res: Result<()>)
      requires IsCInt(dispatched) && dispatched != CINT_MIN
      modifies this
      ensures (State(), res) == CallSpec(old(State()), isOpen, dispatched, m, waiter)
    {
      if !isOpen {
        return Fail(ErrorOf(-ENOTCONN));
      }
      if dispatched < 0 {
        return Fail(ErrorOf(dispatched));
      }
      match m.cookie
      case None =>
        return Trap;
      case Some(cookie) =>
        continuations := continuations[cookie := waiter];
        return Ok(());
    }
  }

  /**
   * The event handler of the read and write sources: it calls
   * `_process()` until that reports no further message or throws.
   * `results` are the successive returns of sd_bus_process; the answer is
   * how many messages were processed.
   */
  method Drain(results: seq<int>) returns (processed: nat)
    requires exists i :: 0 <= i < |results| && results[i] <= 0
    ensures processed < |results| && results[processed] <= 0
    ensures forall i :: 0 <= i < processed ==> results[i] > 0
  {
    processed := 0;
    while results[processed] > 0
      invariant processed < |results|
      invariant forall i :: 0 <= i < processed ==> results[i] > 0
      invariant exists i :: processed <= i < |results| && results[i] <= 0
      decreases |results| - processed
    {
      processed := processed + 1;
    }
  }

  // ----- the method calls -----

  const PROPERTIES_INTERFACE: string := "org.freedesktop.DBus.Properties"

  /** A method call: its header fields and the message body. */
  datatype MethodCall = MethodCall(destination: string, path: string, interface: string, member: string, body: Message.MsgState)

  /**
   * The request `callMethod` sends: sd_bus_message_new_method_call
   * returned `created`; the fields are then appended by the legacy context.
   */
  function MethodCallRequest(created: int, destination: string, path: string, interface: string, member: string,
                             fields: seq<AnyValue>): (res: Result<MethodCall>)
    requires IsCInt(created) && created != CINT_MIN
    ensures !res.Trap?
    ensures created < 0 ==> res == Fail(ErrorOf(created))
    ensures created >= 0 ==> (res.Ok? <==> FieldsWritable(fields))
    ensures res.Ok? ==>
              res.value == MethodCall(destination, path, interface, member, Message.AddItems(Message.New(), FieldWires(fields)))
  {
    var r := Throwing(created);
    if !r.Ok? then Lift(r)
    else
      var (s, appended) := AppendSpec(NewState(Message.New()), fields);
      if !appended.Ok? then Lift(appended) else Ok(MethodCall(destination, path, interface, member, s.msg))
  }

  /** What `callMethod` returns for a reply: the reply rewound and its first value read. */
  function ReplyValue(reply: Message.MsgState): (res: Result<Option<AnyValue>>)
    requires Message.Valid(reply)
    ensures res.Ok? ==> reply.sealed
    ensures !reply.sealed ==> res == Fail(ErrorOf(-EPERM))
  {
    var (s, rewound) := RewindSpec(NewState(reply));
    if !rewound.Ok? then Lift(rewound) else NextSpec(s).1
  }

  /** A reply whose body starts with a written value gives that value back with every variant layer removed (`Flatten`). */
  lemma ReplyValueReadsFirst(v: AnyValue, rest: seq<Message.Elem>)
    requires Writable(v)
    ensures ReplyValue(Message.Received([Wire(v)] + rest)) == Ok(Some(Flatten(v)))
  {
    var m := Message.Received([Wire(v)] + rest);
    NextReadsWire(NewState(m), v);
  }

  /** An empty reply gives nil. */
  lemma ReplyValueEmpty()
    ensures ReplyValue(Message.Received([])) == Ok(None)
  {
    var s := NewState(Message.Received([]));
    assert Message.AtEndOfContainer(s.msg);
  }

  /** `getProperty`: Properties.Get with the interface and the member name, the empty string when there is none. */
  function GetPropertyRequest(created: int, destination: string, path: string, interface: string, member: Option<string>)
    : (res: Result<MethodCall>)
    requires IsCInt(created) && created != CINT_MIN
    ensures created < 0 ==> res == Fail(ErrorOf(created))
    ensures created >= 0 ==>
              res == Ok(MethodCall(destination, path, PROPERTIES_INTERFACE, "Get",
                                   Message.AddItems(Message.New(), [ScalarElem(Str(interface)), ScalarElem(Str(member.GetOr("")))])))
  {
    var fields := [AScalar(Str(interface)), AScalar(Str(member.GetOr("")))];
    assert FieldsWritable(fields) by {
      FieldsWritableStep(fields);
      FieldsWritableStep(fields[1..]);
    }
    assert FieldWires(fields) == [ScalarElem(Str(interface)), ScalarElem(Str(member.GetOr("")))] by {
      assert fields[1..][1..] == [];
    }
    MethodCallRequest(created, destination, path, PROPERTIES_INTERFACE, "Get", fields)
  }

  /** `getProperties`: Properties.GetAll with the interface. */
  function GetPropertiesRequest(created: int, destination: string, path: string, interface: string): (res: Result<MethodCall>)
    requires IsCInt(created) && created != CINT_MIN
    ensures created < 0 ==> res == Fail(ErrorOf(created))
    ensures created >= 0 ==>
              res == Ok(MethodCall(destination, path, PROPERTIES_INTERFACE, "GetAll",
                                   Message.AddItems(Message.New(), [ScalarElem(Str(interface))])))
  {
    var fields := [AScalar(Str(interface))];
    assert FieldsWritable(fields) by {
      FieldsWritableStep(fields);
    }
    assert FieldWires(fields) == [ScalarElem(Str(interface))] by {
      assert fields[1..] == [];
    }
    MethodCallRequest(created, destination, path, PROPERTIES_INTERFACE, "GetAll", fields)
  }
}
