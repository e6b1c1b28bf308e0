/** ServeV2 and the goroutines a handler may leave behind, as one interleaving
    of steps: the serve loop, any number of host calls and any number of
    diagnostic writes, over shared leases, an exchange token, a write lock, a
    call counter and one output. */
module HostLifecycle {
  import opened Decimal

  // Shared state

  /** An invocation, by its id. */
  datatype Invocation = Invocation(text: string)

  /** A lease flag and the counter of operations admitted under it. */
  datatype Lease = Lease(expired: bool, pending: nat)

  /** A host_response line, as decoded. */
  datatype Response = Response(protocol: nat, kind: string, generation: nat, invocation: string,
                               callId: string, innerId: string, ok: bool, result: string)

  datatype Outcome = NoResult | HasResult(response: Response)

  /** Where a Call is. */
  datatype CallPc =
    | Starting                    // before the lease
    | Admitted                    // counted as pending
    | Holding                     // has the exchange token
    | Locked                      // has the write lock
    | Numbered                    // has its id, has the write lock
    | Cleared                     // found its lease unexpired, has the write lock
    | Waiting                     // wrote its frame, waits for a line
    | Aborting                    // gave up on the line: revoked its lease, not yet the transport
    | Releasing(out: Outcome)     // about to return the token
    | Leaving(out: Outcome)       // about to stop being pending
    | Finished(out: Outcome)

  /** A Call of the client of one invocation; id is 0 until it has one. */
  datatype Call = Call(v: Invocation, id: nat, pc: CallPc)

  datatype WriterPc = WStarting | WAdmitted | WLeaving | WFinished

  datatype Writer = Writer(v: Invocation, pc: WriterPc)

  /** Where the serve loop is. */
  datatype Serve =
    | Reading
    | Handling(v: Invocation)         // the handler runs
    | HostRevoked(v: Invocation)      // host Expire set the flag, waits
    | HostExpired(v: Invocation)      // host Expire returned
    | StderrRevoked(v: Invocation)    // diagnostics Expire set the flag, waits
    | Expired(v: Invocation)          // diagnostics Expire returned
    | Resulting(v: Invocation)        // about to write invoke_result
    | Completing(v: Invocation)       // about to write stderr_complete
    | Readying(v: Invocation)         // about to write invoke_ready
    | Stopped

  /** What happens on the wire, and the returns of the two Expires. */
  datatype Event =
    | Invoke(v: Invocation) | HostCall(v: Invocation, id: nat) | StderrChunk(v: Invocation)
    | InvokeResult(v: Invocation) | StderrComplete(v: Invocation) | InvokeReady(v: Invocation)
    | HostExpireReturned(v: Invocation) | StderrExpireReturned(v: Invocation)

  datatype Lock = Free | HeldBy(k: nat)

  /** The shared hostTransport: its exchange token, write lock, call counter
      and poison flag, and all that was written through it. */
  datatype Transport = Transport(exchange: bool, lock: Lock, nextId: nat, poisoned: bool, log: seq<Event>)

  datatype State = State(
    generation: nat,
    serve: Serve,
    used: set<Invocation>,
    host: map<Invocation, Lease>,
    stderr: map<Invocation, Lease>,
    calls: map<nat, Call>,
    writers: map<nat, Writer>,
    t: Transport)

  const MAX_INVOCATIONS := 256

  function Start(generation: nat): State {
    State(generation, Reading, {}, map[], map[], map[], map[], Transport(true, Free, 0, false, []))
  }

  // Steps of the serve loop

  datatype LoopStep =
    | ReadInvoke(v: Invocation) | RevokeHost | HostDrained | RevokeStderr | StderrDrained | CheckPoison
    | WriteResult | WriteComplete | WriteReady | Stop

  predicate LoopEnabled(s: State, step: LoopStep) {
    match step
    case ReadInvoke(v) => s.serve.Reading? && ValidInvocationId(v.text) && v !in s.used && |s.used| < MAX_INVOCATIONS
    case RevokeHost => s.serve.Handling? && s.serve.v in s.host
    case HostDrained => s.serve.HostRevoked? && s.serve.v in s.host && s.host[s.serve.v].pending == 0
    case RevokeStderr => s.serve.HostExpired? && s.serve.v in s.stderr
    case StderrDrained => s.serve.StderrRevoked? && s.serve.v in s.stderr && s.stderr[s.serve.v].pending == 0
    case CheckPoison => s.serve.Expired?
    case WriteResult => s.serve.Resulting? && s.t.lock.Free?
    case WriteComplete => s.serve.Completing? && s.t.lock.Free?
    case WriteReady => s.serve.Readying? && s.t.lock.Free?
    case Stop => s.serve.Reading? || s.serve.Resulting? || s.serve.Completing? || s.serve.Readying?
  }

  function SetHost(s: State, v: Invocation, l: Lease): State { s.(host := s.host[v := l]) }
  function SetStderr(s: State, v: Invocation, l: Lease): State { s.(stderr := s.stderr[v := l]) }
  function Wrote(t: Transport, e: Event): Transport { t.(log := t.log + [e]) }
  function Logged(s: State, e: Event): State { s.(t := Wrote(s.t, e)) }

  function LoopNext(s: State, step: LoopStep): State
    requires LoopEnabled(s, step)
  {
    match step
    case ReadInvoke(v) =>
      Logged(s.(serve := Handling(v), used := s.used + {v}, host := s.host[v := Lease(false, 0)],
        stderr := s.stderr[v := Lease(false, 0)]), Invoke(v))
    case RevokeHost => SetHost(s, s.serve.v, s.host[s.serve.v].(expired := true)).(serve := HostRevoked(s.serve.v))
    case HostDrained => Logged(s.(serve := HostExpired(s.serve.v)), HostExpireReturned(s.serve.v))
    case RevokeStderr =>
      SetStderr(s, s.serve.v, s.stderr[s.serve.v].(expired := true)).(serve := StderrRevoked(s.serve.v))
    case StderrDrained => Logged(s.(serve := Expired(s.serve.v)), StderrExpireReturned(s.serve.v))
    case CheckPoison => s.(serve := if s.t.poisoned then Stopped else Resulting(s.serve.v))
    case WriteResult => Logged(s.(serve := Completing(s.serve.v)), InvokeResult(s.serve.v))
    case WriteComplete => Logged(s.(serve := Readying(s.serve.v)), StderrComplete(s.serve.v))
    case WriteReady => Logged(s.(serve := Reading), InvokeReady(s.serve.v))
    case Stop => s.(serve := Stopped)
  }

  // Steps of one host call

  datatype CallStep =
    | Admit | TakeToken | GiveUp | TakeLock | TakeId | CheckLease | RefuseFrame | WriteCall | Receive(line: Response)
    | ReadFails | AbortCall | PoisonCall | ReturnToken | Leave

  /** A strict Call takes a line only when every correlation field is its own. */
  predicate Correlates(generation: nat, v: Invocation, id: nat, r: Response) {
    && r.protocol == 2 && r.kind == "host_response" && r.innerId == CallId(id) && r.callId == CallId(id)
    && r.generation == generation && r.invocation == v.text && ValidInvocationId(r.invocation)
    && ValidHostCallId(r.callId)
  }

  /** What one call reads and writes: itself, its lease and the transport. */
  datatype CallView = CallView(c: Call, lease: Lease, t: Transport)

  predicate CanMove(w: CallView, step: CallStep) {
    var pc := w.c.pc;
    match step
    case Admit => pc.Starting?
    case TakeToken => pc.Admitted? && w.t.exchange
    case GiveUp => pc.Admitted?
    case TakeLock => pc.Holding? && w.t.lock.Free?
    case TakeId => pc.Locked?
    case CheckLease => pc.Numbered?
    case RefuseFrame => pc.Cleared?
    case WriteCall => pc.Cleared?
    case Receive(_) => pc.Waiting?
    case ReadFails => pc.Waiting?
    case AbortCall => pc.Waiting?
    case PoisonCall => pc.Aborting?
    case ReturnToken => pc.Releasing?
    case Leave => pc.Leaving? && w.lease.pending > 0
  }

  function CallMove(generation: nat, k: nat, w: CallView, step: CallStep): CallView
    requires CanMove(w, step)
  {
    match step
    case Admit =>
      if w.lease.expired || w.t.poisoned then At(w, Finished(NoResult))
      else At(w, Admitted).(lease := w.lease.(pending := w.lease.pending + 1))
    case TakeToken => At(w, Holding).(t := w.t.(exchange := false))
    case GiveUp => At(w, Leaving(NoResult))
    case TakeLock => At(w, Locked).(t := w.t.(lock := HeldBy(k)))
    case TakeId =>
      if w.t.nextId == MAX_UINT64 then Unlocked(At(w, Releasing(NoResult)))
      else w.(c := Call(w.c.v, w.t.nextId + 1, Numbered), t := w.t.(nextId := w.t.nextId + 1))
    case CheckLease => if w.lease.expired then Unlocked(At(w, Releasing(NoResult))) else At(w, Cleared)
    case RefuseFrame => Unlocked(At(w, Releasing(NoResult)))
    case WriteCall => Unlocked(At(w, Waiting).(t := Wrote(w.t, HostCall(w.c.v, w.c.id))))
    case Receive(r) =>
      At(w, Releasing(if Correlates(generation, w.c.v, w.c.id, r) && r.ok then HasResult(r) else NoResult))
    case ReadFails => At(w, Releasing(NoResult))
    case AbortCall => At(w, Aborting).(lease := w.lease.(expired := true))
    case PoisonCall => At(w, Releasing(NoResult)).(t := w.t.(poisoned := true))
    case ReturnToken => At(w, Leaving(w.c.pc.out)).(t := w.t.(exchange := true))
    case Leave => At(w, Finished(w.c.pc.out)).(lease := w.lease.(pending := w.lease.pending - 1))
  }

  function At(w: CallView, pc: CallPc): CallView { w.(c := w.c.(pc := pc)) }
  function Unlocked(w: CallView): CallView { w.(t := w.t.(lock := Free)) }

  predicate CallEnabled(s: State, k: nat, step: CallStep) {
    k in s.calls && s.calls[k].v in s.host && CanMove(CallView(s.calls[k], s.host[s.calls[k].v], s.t), step)
  }

  function CallNext(s: State, k: nat, step: CallStep): State
    requires CallEnabled(s, k, step)
  {
    var v := s.calls[k].v;
    var w := CallMove(s.generation, k, CallView(s.calls[k], s.host[v], s.t), step);
    s.(calls := s.calls[k := w.c], host := s.host[v := w.lease], t := w.t)
  }

  // Steps of one diagnostic write

  datatype WriteStep = AdmitWrite | WriteChunk | FailChunk | LeaveWrite

  datatype WriterView = WriterView(w: Writer, lease: Lease, t: Transport)

  predicate CanWrite(x: WriterView, step: WriteStep) {
    match step
    case AdmitWrite => x.w.pc.WStarting?
    case WriteChunk => x.w.pc.WAdmitted? && x.t.lock.Free?
    case FailChunk => x.w.pc.WAdmitted? && x.t.lock.Free?
    case LeaveWrite => x.w.pc.WLeaving? && x.lease.pending > 0
  }

  function WriteMove(x: WriterView, step: WriteStep): WriterView
    requires CanWrite(x, step)
  {
    match step
    case AdmitWrite =>
      if x.lease.expired then WriterAt(x, WFinished)
      else WriterAt(x, WAdmitted).(lease := x.lease.(pending := x.lease.pending + 1))
    case WriteChunk => WriterAt(x, WLeaving).(t := Wrote(x.t, StderrChunk(x.w.v)))
    case FailChunk => WriterAt(x, WLeaving)
    case LeaveWrite => WriterAt(x, WFinished).(lease := x.lease.(pending := x.lease.pending - 1))
  }

  function WriterAt(x: WriterView, pc: WriterPc): WriterView { x.(w := x.w.(pc := pc)) }

  predicate WriteEnabled(s: State, k: nat, step: WriteStep) {
    k in s.writers && s.writers[k].v in s.stderr
      && CanWrite(WriterView(s.writers[k], s.stderr[s.writers[k].v], s.t), step)
  }

  function WriteNext(s: State, k: nat, step: WriteStep): State
    requires WriteEnabled(s, k, step)
  {
    var v := s.writers[k].v;
    var x := WriteMove(WriterView(s.writers[k], s.stderr[v], s.t), step);
    s.(writers := s.writers[k := x.w], stderr := s.stderr[v := x.lease], t := x.t)
  }

  // The interleaving

  datatype Step =
    | Loop(loop: LoopStep)
    | BeginCall(k: nat, v: Invocation)      // some goroutine calls the client of v
    | OfCall(k: nat, call: CallStep)
    | BeginWrite(k: nat, v: Invocation)     // some goroutine writes to the diagnostics of v
    | OfWrite(k: nat, write: WriteStep)
    | Abort(v: Invocation)                  // some goroutine aborts the client of v: first its lease,
    | Poison                            // then the transport

  predicate Enabled(s: State, step: Step) {
    match step
    case Loop(a) => LoopEnabled(s, a)
    case BeginCall(k, v) => k !in s.calls && v in s.host
    case OfCall(k, a) => CallEnabled(s, k, a)
    case BeginWrite(k, v) => k !in s.writers && v in s.stderr
    case OfWrite(k, a) => WriteEnabled(s, k, a)
    case Abort(v) => v in s.host
    case Poison => exists v :: v in s.host && s.host[v].expired
  }

  function Apply(s: State, step: Step): State
    requires Enabled(s, step)
  {
    match step
    case Loop(a) => LoopNext(s, a)
    case BeginCall(k, v) => s.(calls := s.calls[k := Call(v, 0, Starting)])
    case OfCall(k, a) => CallNext(s, k, a)
    case BeginWrite(k, v) => s.(writers := s.writers[k := Writer(v, WStarting)])
    case OfWrite(k, a) => WriteNext(s, k, a)
    case Abort(v) => SetHost(s, v, s.host[v].(expired := true))
    case Poison => s.(t := s.t.(poisoned := true))
  }

  /** Each step of the interleaving can be taken where it is. */
  ghost predicate Legal(s: State, steps: seq<Step>)
    decreases |steps|
  {
    steps == [] || (Enabled(s, steps[0]) && Legal(Apply(s, steps[0]), steps[1..]))
  }

  ghost function After(s: State, steps: seq<Step>): State
    requires Legal(s, steps)
    decreases |steps|
  {
    if steps == [] then s else After(Apply(s, steps[0]), steps[1..])
  }
}
