/** The HIP runtime shim: a single-slot last-error record that the checked
    wrappers around the backend fill in and that `qudaGetLastError` /
    `qudaGetLastErrorString` read and clear. The backend itself is an oracle:
    each wrapper takes the `hipError_t` the backend call returned as a
    parameter, and the state counts the backend calls and the tuner launches
    made so far. `errorQuda` ends the process; the model records it in the
    sticky `aborted` flag and makes no further backend call in that
    operation. */
module RuntimeApi {
  import opened QudaTypes

  /** The `hipError_t` a backend call returns: success, the not-ready status
      of an event query, or some other failure code. */
  datatype HipError = HipSuccess | HipErrorNotReady | HipFailure(code: nat)

  /** The text kept in `last_error_str`: a fixed literal, or the backend's
      description (`hipGetErrorString`) or name (`hipGetErrorName`) of an
      error code. The backend's text is not modelled, only which one it is. */
  datatype Message = Literal(text: string) | ErrorString(error: HipError) | ErrorName(error: HipError)

  /** The process-wide state the shim keeps or causes. */
  datatype ApiState = ApiState(lastErr: QudaStatus, lastStr: Message, aborted: bool,
                               backendCalls: nat, tuneLaunches: nat)

  /** The state at start-up: no error, and the string `"HIP_SUCCESS"`. */
  function Initial(): (st: ApiState)
    ensures st.lastErr == QudaSuccess && !st.aborted
    ensures st.lastStr == Literal("HIP_SUCCESS")
    ensures st.backendCalls == 0 && st.tuneLaunches == 0
  {
    ApiState(QudaSuccess, Literal("HIP_SUCCESS"), false, 0, 0)
  }

  /** A read that also changes the state. */
  datatype Returned<T> = Returned(state: ApiState, value: T)

  // ---------------------------------------------------------------------
  // The last-error record
  // ---------------------------------------------------------------------

  /** `qudaGetLastError`: returns the recorded status and clears it. */
  function GetLastError(st: ApiState): (r: Returned<QudaStatus>)
    ensures r.value == st.lastErr
    ensures r.state.lastErr == QudaSuccess
    ensures r.state == st.(lastErr := r.state.lastErr)
  {
    Returned(st.(lastErr := QudaSuccess), st.lastErr)
  }

  /** `qudaGetLastErrorString`: returns the recorded string and resets it to
      `"QUDA_SUCCESS"`. */
  function GetLastErrorString(st: ApiState): (r: Returned<Message>)
    ensures r.value == st.lastStr
    ensures r.state.lastStr == Literal("QUDA_SUCCESS")
    ensures r.state == st.(lastStr := r.state.lastStr)
  {
    Returned(st.(lastStr := Literal("QUDA_SUCCESS")), st.lastStr)
  }

  /** Reading the status clears it: a second read straight after reports
      success, whatever the first one returned. */
  lemma GetLastErrorClears(st: ApiState)
    ensures GetLastError(GetLastError(st).state).value == QudaSuccess
    ensures GetLastError(GetLastError(st).state).state == GetLastError(st).state
    ensures GetLastErrorString(GetLastErrorString(st).state).value == Literal("QUDA_SUCCESS")
  {
  }

  /** `errorQuda`: the process ends. */
  function Abort(st: ApiState): (r: ApiState)
    ensures r.aborted
    ensures r.(aborted := st.aborted) == st
  {
    st.(aborted := true)
  }

  /** One call into the backend. */
  function BackendCall(st: ApiState): (r: ApiState)
    ensures r.backendCalls == st.backendCalls + 1
    ensures r.(backendCalls := st.backendCalls) == st
  {
    st.(backendCalls := st.backendCalls + 1)
  }

  /** `set_runtime_error`: a success code changes nothing; a failure records
      `QUDA_ERROR` with the backend's description of the code, and ends the
      process unless the caller allows the error. */
  function SetRuntimeError(st: ApiState, error: HipError, allowError: bool): (r: ApiState)
    ensures error == HipSuccess ==> r == st
    ensures error != HipSuccess ==> r.lastErr == QudaError && r.lastStr == ErrorString(error)
    ensures r.aborted <==> st.aborted || (error != HipSuccess && !allowError)
    ensures r.backendCalls == st.backendCalls && r.tuneLaunches == st.tuneLaunches
  {
    if error == HipSuccess then st
    else
      var recorded := st.(lastErr := QudaError, lastStr := ErrorString(error));
      if allowError then recorded else Abort(recorded)
  }

  /** `set_driver_error`: as `set_runtime_error`, but the string recorded is
      the backend's name of the code. */
  function SetDriverError(st: ApiState, error: HipError, allowError: bool): (r: ApiState)
    ensures error == HipSuccess ==> r == st
    ensures error != HipSuccess ==> r.lastErr == QudaError && r.lastStr == ErrorName(error)
    ensures r.aborted <==> st.aborted || (error != HipSuccess && !allowError)
    ensures r.backendCalls == st.backendCalls && r.tuneLaunches == st.tuneLaunches
  {
    if error == HipSuccess then st
    else
      var recorded := st.(lastErr := QudaError, lastStr := ErrorName(error));
      if allowError then recorded else Abort(recorded)
  }

  /** A failure that was allowed to pass is still reported by the next reads
      of the last error, together with the backend's text. */
  lemma FailureIsReported(st: ApiState, error: HipError, allowError: bool)
    requires error != HipSuccess
    ensures GetLastError(SetRuntimeError(st, error, allowError)).value == QudaError
    ensures GetLastErrorString(SetRuntimeError(st, error, allowError)).value == ErrorString(error)
    ensures GetLastError(SetDriverError(st, error, allowError)).value == QudaError
    ensures GetLastErrorString(SetDriverError(st, error, allowError)).value == ErrorName(error)
  {
  }

  /** What one backend call whose status goes through `set_runtime_error`
      does, after `tunes` tuner launches: it is counted; a success leaves the
      record and the process as they were; a failure records `QUDA_ERROR`
      with the backend's description and ends the process unless allowed. */
  predicate CheckedEffect(st: ApiState, r: ApiState, error: HipError, allowError: bool, tunes: nat)
  {
    && r.backendCalls == st.backendCalls + 1
    && r.tuneLaunches == st.tuneLaunches + tunes
    && (error == HipSuccess ==> r.lastErr == st.lastErr && r.lastStr == st.lastStr && r.aborted == st.aborted)
    && (error != HipSuccess ==> && r.lastErr == QudaError && r.lastStr == ErrorString(error)
                                && (r.aborted <==> st.aborted || !allowError))
  }

  // ---------------------------------------------------------------------
  // Copy kinds
  // ---------------------------------------------------------------------

  /** `qudaMemcpyKind`; `OtherKind` stands for any value outside the five
      enumerators. */
  datatype QudaMemcpyKind =
    | QudaHostToHost | QudaHostToDevice | QudaDeviceToHost | QudaDeviceToDevice | QudaDefault
    | OtherKind(value: int)

  /** `hipMemcpyKind`. */
  datatype HipMemcpyKind = HipHostToHost | HipHostToDevice | HipDeviceToHost | HipDeviceToDevice | HipDefault

  /** The backend kind a QUDA kind stands for, when it stands for one. */
  function KindOf(k: QudaMemcpyKind): Option<HipMemcpyKind>
  {
    match k
    case QudaHostToHost => Some(HipHostToHost)
    case QudaHostToDevice => Some(HipHostToDevice)
    case QudaDeviceToHost => Some(HipDeviceToHost)
    case QudaDeviceToDevice => Some(HipDeviceToDevice)
    case QudaDefault => Some(HipDefault)
    case OtherKind(_) => None
  }

  /** The QUDA kind of a backend kind. */
  function QudaKindOf(k: HipMemcpyKind): QudaMemcpyKind
  {
    match k
    case HipHostToHost => QudaHostToHost
    case HipHostToDevice => QudaHostToDevice
    case HipDeviceToHost => QudaDeviceToHost
    case HipDeviceToDevice => QudaDeviceToDevice
    case HipDefault => QudaDefault
  }

  /** `qudaMemcpyKindToAPI`: each of the five kinds maps to its backend kind
      and leaves the state alone; any other value is fatal (the function then
      answers `hipMemcpyDefault`). */
  function MemcpyKindToApi(st: ApiState, k: QudaMemcpyKind): (r: Returned<HipMemcpyKind>)
    ensures !k.OtherKind? ==> r.state == st && QudaKindOf(r.value) == k
    ensures k.OtherKind? ==> r.state == Abort(st) && r.value == HipDefault
  {
    match k
    case QudaHostToHost => Returned(st, HipHostToHost)
    case QudaHostToDevice => Returned(st, HipHostToDevice)
    case QudaDeviceToHost => Returned(st, HipDeviceToHost)
    case QudaDeviceToDevice => Returned(st, HipDeviceToDevice)
    case QudaDefault => Returned(st, HipDefault)
    case OtherKind(_) => Returned(Abort(st), HipDefault)
  }

  /** The mapping is one-to-one on the five kinds, onto the backend kinds,
      and agrees with `KindOf`. */
  lemma MemcpyKindRoundTrip(st: ApiState, k: QudaMemcpyKind, h: HipMemcpyKind)
    ensures MemcpyKindToApi(st, QudaKindOf(h)).value == h
    ensures KindOf(k).Some? <==> !k.OtherKind?
    ensures KindOf(k).Some? ==> MemcpyKindToApi(st, k).value == KindOf(k).value
  {
  }

  // ---------------------------------------------------------------------
  // Kernel launch
  // ---------------------------------------------------------------------

  /** `qudaLaunchKernel`: one backend launch whose status is recorded, and
      reported as `QUDA_SUCCESS` exactly when the backend succeeded. A failed
      launch is fatal unless the tuner is active. */
  function LaunchKernel(st: ApiState, activeTuning: bool, error: HipError): (r: Returned<QudaStatus>)
    ensures r.value == QudaSuccess <==> error == HipSuccess
    ensures r.state.backendCalls == st.backendCalls + 1
    ensures r.state.aborted <==> st.aborted || (error != HipSuccess && !activeTuning)
    ensures error != HipSuccess ==> r.state.lastErr == QudaError && r.state.lastStr == ErrorString(error)
    ensures error == HipSuccess ==> r.state == BackendCall(st)
    ensures CheckedEffect(st, r.state, error, activeTuning, 0)
  {
    var st1 := SetRuntimeError(BackendCall(st), error, activeTuning);
    Returned(st1, if error == HipSuccess then QudaSuccess else QudaError)
  }

  // ---------------------------------------------------------------------
  // QudaMem: the tuned copy and fill
  // ---------------------------------------------------------------------

  /** The fields of a `QudaMem` that decide what it does. A fill has
      `copy == false` and the kind `hipMemcpyDefault`. */
  datatype QudaMem = QudaMem(count: nat, kind: HipMemcpyKind, copy: bool, async: bool, activeTuning: bool)

  /** The fill object the memset wrappers build. */
  function MemsetObject(count: nat, async: bool, activeTuning: bool): (m: QudaMem)
    ensures !m.copy && m.kind == HipDefault
  {
    QudaMem(count, HipDefault, false, async, activeTuning)
  }

  /** `QudaMem::bytes`: a device-to-device copy reads and writes each byte,
      every other copy or fill moves `count` bytes. */
  function Bytes(m: QudaMem): (b: nat)
    ensures m.kind == HipDeviceToDevice ==> b == 2 * m.count
    ensures m.kind != HipDeviceToDevice ==> b == m.count
  {
    if m.kind == HipDeviceToDevice then 2 * m.count else m.count
  }

  /** A fill always accounts for exactly `count` bytes, and the accounted
      bytes double the count exactly for a non-empty device-to-device copy. */
  lemma BytesAccounting(m: QudaMem, count: nat, async: bool, activeTuning: bool)
    ensures Bytes(MemsetObject(count, async, activeTuning)) == count
    ensures m.count <= Bytes(m) <= 2 * m.count
    ensures m.count > 0 ==> (Bytes(m) == 2 * m.count <==> m.kind == HipDeviceToDevice)
  {
  }

  /** `QudaMem::apply`: the tuner runs first unless it is already active;
      then one backend copy or fill whose status is recorded, allowed to fail
      only while tuning. An asynchronous host-to-host copy has no profile
      slot and is fatal before the copy. */
  function QudaMemApply(st: ApiState, m: QudaMem, error: HipError): (r: ApiState)
    ensures r.tuneLaunches == st.tuneLaunches + (if m.activeTuning then 0 else 1)
    ensures m.copy && m.async && m.kind == HipHostToHost
            ==> r.aborted && r.backendCalls == st.backendCalls && r.lastErr == st.lastErr && r.lastStr == st.lastStr
    ensures !(m.copy && m.async && m.kind == HipHostToHost)
            ==> CheckedEffect(st, r, error, m.activeTuning, if m.activeTuning then 0 else 1)
  {
    var tuned := if m.activeTuning then st else st.(tuneLaunches := st.tuneLaunches + 1);
    if m.copy && m.async && m.kind == HipHostToHost then Abort(tuned)
    else SetRuntimeError(BackendCall(tuned), error, m.activeTuning)
  }

  // ---------------------------------------------------------------------
  // Copies and fills
  // ---------------------------------------------------------------------

  /** `qudaMemcpy_`: nothing for an empty copy; otherwise the kind is mapped
      (fatal when it is not one of the five) and a tuned synchronous copy is
      made. */
  function Memcpy(st: ApiState, count: nat, kind: QudaMemcpyKind, activeTuning: bool, error: HipError): (r: ApiState)
    ensures count == 0 ==> r == st
    ensures count > 0 && kind.OtherKind? ==> r == Abort(st)
    ensures count > 0 && !kind.OtherKind?
            ==> CheckedEffect(st, r, error, activeTuning, if activeTuning then 0 else 1)
  {
    if count == 0 then st
    else
      var k := MemcpyKindToApi(st, kind);
      if kind.OtherKind? then k.state
      else QudaMemApply(st, QudaMem(count, k.value, true, false, activeTuning), error)
  }

  /** `qudaMemcpyAsync_` as the source has it: only a device-to-device copy
      goes through the tuned, checked `QudaMem`; any other kind calls the
      backend directly and drops the status it returns. */
  function MemcpyAsyncAsWritten(st: ApiState, count: nat, kind: QudaMemcpyKind, activeTuning: bool, error: HipError)
    : (r: ApiState)
    ensures count == 0 ==> r == st
    ensures count > 0 && kind == QudaDeviceToDevice
            ==> CheckedEffect(st, r, error, activeTuning, if activeTuning then 0 else 1)
    ensures count > 0 && kind != QudaDeviceToDevice && !kind.OtherKind? ==> r == BackendCall(st)
    ensures count > 0 && kind.OtherKind? ==> r == Abort(st)
  {
    if count == 0 then st
    else if kind == QudaDeviceToDevice then
      QudaMemApply(st, QudaMem(count, HipDeviceToDevice, true, true, activeTuning), error)
    else
      var k := MemcpyKindToApi(st, kind);
      if kind.OtherKind? then k.state
      else BackendCall(k.state)
  }

  /** On a host-to-device copy whose backend call fails, the as-written
      wrapper records nothing and carries on: the next `qudaGetLastError`
      still reports success. */
  lemma MemcpyAsyncAsWrittenDropsFailure()
    ensures GetLastError(MemcpyAsyncAsWritten(Initial(), 1, QudaHostToDevice, false, HipFailure(1))).value == QudaSuccess
    ensures !MemcpyAsyncAsWritten(Initial(), 1, QudaHostToDevice, false, HipFailure(1)).aborted
  {
  }

  /** `qudaMemcpyAsync_` with the status of the direct backend copy checked,
      as `qudaMemcpyP2PAsync_` and `qudaMemcpy2DAsync_` check theirs. */
  function MemcpyAsync(st: ApiState, count: nat, kind: QudaMemcpyKind, activeTuning: bool, error: HipError)
    : (r: ApiState)
    ensures count == 0 ==> r == st
    ensures count > 0 && kind == QudaDeviceToDevice
            ==> CheckedEffect(st, r, error, activeTuning, if activeTuning then 0 else 1)
    ensures count > 0 && kind != QudaDeviceToDevice && !kind.OtherKind?
            ==> CheckedEffect(st, r, error, false, 0)
    ensures count > 0 && kind.OtherKind? ==> r == Abort(st)
  {
    if count == 0 then st
    else if kind == QudaDeviceToDevice then
      QudaMemApply(st, QudaMem(count, HipDeviceToDevice, true, true, activeTuning), error)
    else
      var k := MemcpyKindToApi(st, kind);
      if kind.OtherKind? then k.state
      else SetRuntimeError(BackendCall(k.state), error, false)
  }

  /** The corrected and the as-written wrapper differ only on a failing
      direct copy: an empty copy, an unknown kind, a device-to-device copy or
      a successful backend call leave both in the same state, and a failing
      direct copy in a running process is recorded by one and not the other. */
  lemma MemcpyAsyncAgrees(st: ApiState, count: nat, kind: QudaMemcpyKind, activeTuning: bool, error: HipError)
    ensures count == 0 || kind == QudaDeviceToDevice || kind.OtherKind? || error == HipSuccess
            ==> MemcpyAsyncAsWritten(st, count, kind, activeTuning, error) == MemcpyAsync(st, count, kind, activeTuning, error)
    ensures count > 0 && kind != QudaDeviceToDevice && !kind.OtherKind? && error != HipSuccess && !st.aborted
            ==> MemcpyAsyncAsWritten(st, count, kind, activeTuning, error) != MemcpyAsync(st, count, kind, activeTuning, error)
  {
  }

  /** The corrected wrapper reports every failed asynchronous copy, and only
      device-to-device copies are tuned (never while the tuner is active). */
  lemma MemcpyAsyncReportsFailure(st: ApiState, count: nat, kind: QudaMemcpyKind, activeTuning: bool, error: HipError)
    requires count > 0 && !kind.OtherKind? && error != HipSuccess
    ensures MemcpyAsync(st, count, kind, activeTuning, error).lastErr == QudaError
    ensures MemcpyAsync(st, count, kind, activeTuning, error).tuneLaunches
            == st.tuneLaunches + (if kind == QudaDeviceToDevice && !activeTuning then 1 else 0)
    ensures kind != QudaDeviceToDevice ==> MemcpyAsync(st, count, kind, activeTuning, error).aborted
  {
  }

  /** `qudaMemcpyP2PAsync_`: nothing for an empty copy; otherwise one
      device-to-device backend copy whose failure is fatal. */
  function MemcpyP2PAsync(st: ApiState, count: nat, error: HipError): (r: ApiState)
    ensures count == 0 ==> r == st
    ensures count > 0 ==> CheckedEffect(st, r, error, false, 0)
  {
    if count == 0 then st else SetRuntimeError(BackendCall(st), error, false)
  }

  /** `qudaMemcpy2D_`: a failure ends the process without being recorded in
      the last-error slot. There is no empty-copy guard. */
  function Memcpy2D(st: ApiState, kind: QudaMemcpyKind, error: HipError): (r: ApiState)
    ensures kind.OtherKind? ==> r == Abort(st)
    ensures !kind.OtherKind? ==> r.lastErr == st.lastErr && r.lastStr == st.lastStr
    ensures !kind.OtherKind? ==> r.backendCalls == st.backendCalls + 1
    ensures !kind.OtherKind? ==> (r.aborted <==> st.aborted || error != HipSuccess)
    ensures !kind.OtherKind? ==> r.tuneLaunches == st.tuneLaunches
  {
    var k := MemcpyKindToApi(st, kind);
    if kind.OtherKind? then k.state
    else
      var st1 := BackendCall(k.state);
      if error != HipSuccess then Abort(st1) else st1
  }

  /** `qudaMemcpy2DAsync_`: the kind is mapped, then one checked backend copy
      whose failure is fatal. */
  function Memcpy2DAsync(st: ApiState, kind: QudaMemcpyKind, error: HipError): (r: ApiState)
    ensures kind.OtherKind? ==> r == Abort(st)
    ensures !kind.OtherKind? ==> CheckedEffect(st, r, error, false, 0)
  {
    var k := MemcpyKindToApi(st, kind);
    if kind.OtherKind? then k.state
    else SetRuntimeError(BackendCall(k.state), error, false)
  }

  /** `qudaMemset_` and `qudaMemsetAsync_`: nothing for an empty fill;
      otherwise a tuned fill. */
  function Memset(st: ApiState, count: nat, async: bool, activeTuning: bool, error: HipError): (r: ApiState)
    ensures count == 0 ==> r == st
    ensures count > 0 ==> r.backendCalls == st.backendCalls + 1
    ensures count > 0 ==> r.tuneLaunches == st.tuneLaunches + (if activeTuning then 0 else 1)
    ensures count > 0 ==> (r.aborted <==> st.aborted || (error != HipSuccess && !activeTuning))
    ensures count > 0 && error != HipSuccess ==> r.lastErr == QudaError && r.lastStr == ErrorString(error)
    ensures count > 0 ==> CheckedEffect(st, r, error, activeTuning, if activeTuning then 0 else 1)
  {
    if count == 0 then st else QudaMemApply(st, MemsetObject(count, async, activeTuning), error)
  }

  /** `qudaEventQuery_`: true when the event has completed, false when it is
      still pending, neither of which touches the error record; any other
      status is recorded, is fatal, and reads as false. */
  function EventQuery(st: ApiState, error: HipError): (r: Returned<bool>)
    ensures r.value <==> error == HipSuccess
    ensures error == HipSuccess || error == HipErrorNotReady ==> r.state == BackendCall(st)
    ensures error != HipSuccess && error != HipErrorNotReady
            ==> r.state.lastErr == QudaError && r.state.lastStr == ErrorString(error) && r.state.aborted
    ensures error != HipSuccess && error != HipErrorNotReady ==> CheckedEffect(st, r.state, error, false, 0)
    ensures r.state.backendCalls == st.backendCalls + 1
  {
    var st1 := BackendCall(st);
    match error
    case HipSuccess => Returned(st1, true)
    case HipErrorNotReady => Returned(st1, false)
    case HipFailure(_) => Returned(SetRuntimeError(st1, error, false), false)
  }

  /** The remaining wrappers, each one backend call checked by
      `set_runtime_error` without allowing the error. */
  datatype CheckedApi =
    | EventRecord | StreamWaitEvent | EventCreate | ChronoEventCreate | EventElapsedTime | EventDestroy
    | EventSynchronize | StreamSynchronize | DeviceSynchronize | GetSymbolAddress | FuncSetAttribute
    | FuncGetAttributes | Memcpy2DP2PAsync | Memset2D | Memset2DAsync

  function CheckedCall(st: ApiState, api: CheckedApi, error: HipError): (r: ApiState)
    ensures r.backendCalls == st.backendCalls + 1
    ensures error == HipSuccess ==> r == BackendCall(st)
    ensures error != HipSuccess ==> r.lastErr == QudaError && r.lastStr == ErrorString(error) && r.aborted
    ensures CheckedEffect(st, r, error, false, 0)
  {
    SetRuntimeError(BackendCall(st), error, false)
  }

  // ---------------------------------------------------------------------
  // Sequences of calls
  // ---------------------------------------------------------------------

  /** One call of the shim, with the status its backend call returns. */
  datatype Call =
    | GetLastErrorCall
    | GetLastErrorStringCall
    | LaunchKernelCall(activeTuning: bool, status: HipError)
    | MemcpyCall(count: nat, kind: QudaMemcpyKind, activeTuning: bool, status: HipError)
    | MemcpyAsyncCall(count: nat, kind: QudaMemcpyKind, activeTuning: bool, status: HipError)
    | MemcpyP2PAsyncCall(count: nat, status: HipError)
    | Memcpy2DCall(kind: QudaMemcpyKind, status: HipError)
    | Memcpy2DAsyncCall(kind: QudaMemcpyKind, status: HipError)
    | MemsetCall(count: nat, async: bool, activeTuning: bool, status: HipError)
    | MemPrefetchAsyncCall
    | EventQueryCall(status: HipError)
    | Checked(api: CheckedApi, status: HipError)

  /** What one call does to the state. An asynchronous copy runs the
      corrected `MemcpyAsync`; by `MemcpyAsyncAgrees` this is the source's
      behaviour on every call except a failing direct copy. */
  function Step(st: ApiState, c: Call): (r: ApiState)
    ensures st.backendCalls <= r.backendCalls <= st.backendCalls + 1
    ensures StatusOf(c).None? ==> r.backendCalls == st.backendCalls && r.aborted == st.aborted
    ensures StatusOf(c).Some? && !UnknownKind(c) && !EmptyTransfer(c) && !r.aborted ==> r.backendCalls == st.backendCalls + 1
  {
    match c
    case GetLastErrorCall => GetLastError(st).state
    case GetLastErrorStringCall => GetLastErrorString(st).state
    case LaunchKernelCall(t, e) => LaunchKernel(st, t, e).state
    case MemcpyCall(n, k, t, e) => Memcpy(st, n, k, t, e)
    case MemcpyAsyncCall(n, k, t, e) => MemcpyAsync(st, n, k, t, e)
    case MemcpyP2PAsyncCall(n, e) => MemcpyP2PAsync(st, n, e)
    case Memcpy2DCall(k, e) => Memcpy2D(st, k, e)
    case Memcpy2DAsyncCall(k, e) => Memcpy2DAsync(st, k, e)
    case MemsetCall(n, a, t, e) => Memset(st, n, a, t, e)
    case MemPrefetchAsyncCall => st
    case EventQueryCall(e) => EventQuery(st, e).state
    case Checked(api, e) => CheckedCall(st, api, e)
  }

  /** The calls that return early, without touching anything, when asked to
      move zero bytes. */
  predicate EmptyTransfer(c: Call)
  {
    match c
    case MemcpyCall(n, _, _, _) => n == 0
    case MemcpyAsyncCall(n, _, _, _) => n == 0
    case MemcpyP2PAsyncCall(n, _) => n == 0
    case MemsetCall(n, _, _, _) => n == 0
    case _ => false
  }

  /** An empty copy or fill makes no backend call and leaves the error state
      as it was. */
  lemma EmptyTransferIsNoop(st: ApiState, c: Call)
    requires EmptyTransfer(c)
    ensures Step(st, c) == st
  {
  }

  /** The status the call's backend call returns, for the calls that make one. */
  function StatusOf(c: Call): Option<HipError>
  {
    match c
    case GetLastErrorCall => None
    case GetLastErrorStringCall => None
    case MemPrefetchAsyncCall => None
    case LaunchKernelCall(_, e) => Some(e)
    case MemcpyCall(_, _, _, e) => Some(e)
    case MemcpyAsyncCall(_, _, _, e) => Some(e)
    case MemcpyP2PAsyncCall(_, e) => Some(e)
    case Memcpy2DCall(_, e) => Some(e)
    case Memcpy2DAsyncCall(_, e) => Some(e)
    case MemsetCall(_, _, _, e) => Some(e)
    case EventQueryCall(e) => Some(e)
    case Checked(_, e) => Some(e)
  }

  /** The call names a copy kind outside the five enumerators. */
  predicate UnknownKind(c: Call)
  {
    match c
    case MemcpyCall(_, k, _, _) => k.OtherKind?
    case MemcpyAsyncCall(_, k, _, _) => k.OtherKind?
    case Memcpy2DCall(k, _) => k.OtherKind?
    case Memcpy2DAsyncCall(k, _) => k.OtherKind?
    case _ => false
  }

  /** Whether the call's backend status is a failure: anything but success,
      and for an event query anything but success or not-ready. */
  predicate BackendFails(c: Call)
  {
    && StatusOf(c).Some? && StatusOf(c).value != HipSuccess
    && !(c.EventQueryCall? && StatusOf(c).value == HipErrorNotReady)
  }

  /** Nothing but a failing backend status puts `QUDA_ERROR` into the record;
      and the process ends only on a failure or an unknown copy kind. */
  lemma ErrorsComeFromBackend(st: ApiState, c: Call)
    ensures Step(st, c).lastErr == QudaError && st.lastErr == QudaSuccess ==> BackendFails(c)
    ensures Step(st, c).aborted && !st.aborted ==> BackendFails(c) || UnknownKind(c)
  {
  }

  /** The end of the process is final, and the counters only grow. */
  lemma StepMonotone(st: ApiState, c: Call)
    ensures st.aborted ==> Step(st, c).aborted
    ensures st.backendCalls <= Step(st, c).backendCalls
    ensures st.tuneLaunches <= Step(st, c).tuneLaunches
  {
  }

  /** The state after a sequence of calls. */
  function Run(st: ApiState, cs: seq<Call>): ApiState
    decreases |cs|
  {
    if |cs| == 0 then st else Run(Step(st, cs[0]), cs[1..])
  }

  /** A run in which no backend call fails leaves a clear record clear: a
      final `qudaGetLastError` reports success. */
  lemma {:induction false} CleanRunReportsSuccess(st: ApiState, cs: seq<Call>)
    requires st.lastErr == QudaSuccess
    requires forall k :: 0 <= k < |cs| ==> !BackendFails(cs[k])
    ensures GetLastError(Run(st, cs)).value == QudaSuccess
    decreases |cs|
  {
    if |cs| > 0 {
      ErrorsComeFromBackend(st, cs[0]);
      CleanRunReportsSuccess(Step(st, cs[0]), cs[1..]);
    }
  }

  /** Once the process has ended it stays ended, whatever follows. */
  lemma {:induction false} AbortIsFinal(st: ApiState, cs: seq<Call>)
    requires st.aborted
    ensures Run(st, cs).aborted
    ensures st.backendCalls <= Run(st, cs).backendCalls
    decreases |cs|
  {
    if |cs| > 0 {
      StepMonotone(st, cs[0]);
      AbortIsFinal(Step(st, cs[0]), cs[1..]);
    }
  }

  /** A call as the source performs it: `Step`, except that an asynchronous
      copy runs the as-written `qudaMemcpyAsync_`. */
  function StepAsWritten(st: ApiState, c: Call): ApiState
  {
    match c
    case MemcpyAsyncCall(n, k, t, e) => MemcpyAsyncAsWritten(st, n, k, t, e)
    case _ => Step(st, c)
  }

  /** The state after a sequence of calls as the source performs them. */
  function RunAsWritten(st: ApiState, cs: seq<Call>): ApiState
    decreases |cs|
  {
    if |cs| == 0 then st else RunAsWritten(StepAsWritten(st, cs[0]), cs[1..])
  }

  /** On a run in which no backend call fails, the source and the corrected
      shim end in the same state, so what `CleanRunReportsSuccess` and
      `AbortIsFinal` say of such a run holds for the source as well. */
  lemma {:induction false} CleanRunsAgree(st: ApiState, cs: seq<Call>)
    requires forall k :: 0 <= k < |cs| ==> !BackendFails(cs[k])
    ensures RunAsWritten(st, cs) == Run(st, cs)
    decreases |cs|
  {
    if |cs| > 0 {
      var c := cs[0];
      if c.MemcpyAsyncCall? {
        MemcpyAsyncAgrees(st, c.count, c.kind, c.activeTuning, c.status);
      }
      CleanRunsAgree(Step(st, c), cs[1..]);
    }
  }
}
