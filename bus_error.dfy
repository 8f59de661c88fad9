/**
 * SystemdBusError and the helpers that turn a negative libsystemd return
 * value into a thrown error (Bus/SystemdBusError.swift, and the same code in
 * the older single-file SystemdBus.swift).
 */
module BusError {
  import opened Wrappers

  // Linux errno values the client produces or receives.
  const EPERM: int := 1
  const ENXIO: int := 6
  const EBUSY: int := 16
  const EINVAL: int := 22
  const ENOSYS: int := 38
  const EBADMSG: int := 74
  const ENOTCONN: int := 107

  const CINT_MIN: int := -0x8000_0000
  const CINT_MAX: int := 0x7FFF_FFFF

  predicate IsCInt(x: int) { CINT_MIN <= x <= CINT_MAX }

  /** An `sd_bus_error` reached through a pointer; each of its C strings may be NULL. */
  datatype BusErrorStruct = BusErrorStruct(name: Option<string>, message: Option<string>)

  /** `code` is an `Errno`, that is a non-negative errno number. */
  datatype SystemdBusError = SystemdBusError(code: nat, name: Option<string>, message: Option<string>)

  /**
   * Everything the client throws: a SystemdBusError, Swift's
   * CancellationError, or the standard library's DecodingError.dataCorrupted.
   */
  datatype Error = BusFailure(failure: SystemdBusError) | Cancellation | DataCorrupted

  type Result<T> = Outcome<T, Error>

  /** An error outcome re-typed for the caller's result. */
  function Lift<T, U>(r: Result<T>): (r': Result<U>)
    requires !r.Ok?
    ensures r'.Trap? <==> r.Trap?
    ensures r'.Fail? ==> r'.error == r.error
  {
    if r.Trap? then Trap else Fail(r.error)
  }

  /**
   * init(code:name:message:): the errno is the magnitude of the code. The
   * magnitude of Int32.min does not fit a CInt, and the conversion traps.
   */
  function MakeError(code: int, name: Option<string>, message: Option<string>): (e: SystemdBusError)
    requires IsCInt(code) && code != CINT_MIN
    ensures e.code == code || e.code == -code
    ensures e.code <= CINT_MAX
    ensures e.name == name && e.message == message
  {
    SystemdBusError(if code < 0 then -code else code, name, message)
  }

  /** init(code:) with no name and no message: what `throw SystemdBusError(code: ...)` builds. */
  function ErrorOf(code: int): (e: Error)
    requires IsCInt(code) && code != CINT_MIN
    ensures e.BusFailure? && e.failure.name.None? && e.failure.message.None?
    ensures e.failure.code == code || e.failure.code == -code
  {
    BusFailure(MakeError(code, None, None))
  }

  /** A code and its negation give the same stored errno. */
  lemma MagnitudeIgnoresSign(code: int)
    requires IsCInt(code) && code != CINT_MIN
    ensures MakeError(code, None, None).code == MakeError(-code, None, None).code
    ensures MakeError(code, None, None).code >= 0
  {
  }

  /**
   * init(code:error:): name and message are copied only when the error pointer is
   * present and the field in it is not NULL.
   */
  function FromErrorStruct(code: int, e: Option<BusErrorStruct>): (r: SystemdBusError)
    requires IsCInt(code) && code != CINT_MIN
    ensures r.code == MakeError(code, None, None).code
    ensures r.name.Some? <==> e.Some? && e.value.name.Some?
    ensures r.message.Some? <==> e.Some? && e.value.message.Some?
    ensures r.name.Some? ==> r.name == e.value.name
    ensures r.message.Some? ==> r.message == e.value.message
  {
    match e
    case None => MakeError(code, None, None)
    case Some(s) => MakeError(code, s.name, s.message)
  }

  /**
   * throwingSystemdBusError(_:) where the body returned `r`: negative
   * values are thrown as errors, anything else is passed back unchanged.
   */
  function Throwing(r: int): (res: Result<int>)
    requires IsCInt(r) && r != CINT_MIN
    ensures res.Ok? <==> r >= 0
    ensures res.Ok? ==> res.value == r
    ensures res.Fail? ==> res.error == ErrorOf(r) && res.error.failure.code == -r
    ensures !res.Trap?
  {
    if r < 0 then Fail(ErrorOf(r)) else Ok(r)
  }

  /**
   * The error-pointer variant: the body returned `r` and filled in the
   * caller's `sd_bus_error` `e`; a negative `r` throws, carrying e's name
   * and message.
   */
  function ThrowingWithError(r: int, e: BusErrorStruct): (res: Result<()>)
    requires IsCInt(r) && r != CINT_MIN
    ensures res.Fail? <==> r < 0
    ensures !res.Trap?
    ensures res.Fail? ==>
              res.error.BusFailure? && res.error.failure.code == -r
              && res.error.failure.name == e.name && res.error.failure.message == e.message
  {
    if r < 0 then Fail(BusFailure(FromErrorStruct(r, Some(e)))) else Ok(())
  }
}
