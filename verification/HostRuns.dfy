/** Safety of every interleaving: what reaches the wire, in what order, and who
    gets which response. */
module HostRuns {
  import opened Decimal
  import opened HostLifecycle
  import opened HostSafety
  import opened HostWire
  import V2Sessions

  // Which leases are open

  predicate Closed(l: Lease) { l.expired && l.pending == 0 }

  predicate HostOpen(serve: Serve, v: Invocation) { (serve.Handling? || serve.HostRevoked?) && serve.v == v }

  predicate StderrOpen(serve: Serve, v: Invocation) {
    (serve.Handling? || serve.HostRevoked? || serve.HostExpired? || serve.StderrRevoked?) && serve.v == v
  }

  /** Only the invocation being served has an open lease, and only until the
      Expire that revokes it returns. */
  ghost predicate Current(s: State) {
    && (s.serve.Reading? || s.serve.Stopped? || s.serve.v in s.used) && HostCurrent(s.serve, s.host)
    && StderrCurrent(s.serve, s.stderr)
  }

  ghost predicate HostCurrent(serve: Serve, host: map<Invocation, Lease>) {
    && (forall v :: v in host && !HostOpen(serve, v) ==> Closed(host[v]))
    && (serve.HostRevoked? && serve.v in host ==> host[serve.v].expired)
  }

  ghost predicate StderrCurrent(serve: Serve, stderr: map<Invocation, Lease>) {
    && (forall v :: v in stderr && !StderrOpen(serve, v) ==> Closed(stderr[v]))
    && (serve.StderrRevoked? && serve.v in stderr ==> stderr[serve.v].expired)
  }

  lemma LoopHostCurrent(s: State, a: LoopStep)
    requires HostCurrent(s.serve, s.host) && LoopEnabled(s, a) && !a.ReadInvoke?
    ensures HostCurrent(LoopNext(s, a).serve, LoopNext(s, a).host)
  {
  }

  lemma LoopStderrCurrent(s: State, a: LoopStep)
    requires StderrCurrent(s.serve, s.stderr) && LoopEnabled(s, a) && !a.ReadInvoke?
    ensures StderrCurrent(LoopNext(s, a).serve, LoopNext(s, a).stderr)
  {
  }

  lemma LoopCurrent(s: State, a: LoopStep)
    requires Current(s) && LoopEnabled(s, a)
    ensures Current(LoopNext(s, a))
  {
    hide ValidInvocationId, HostCurrent, StderrCurrent;
    if a.ReadInvoke? {
      InvokeFramed(s, a.v);
      InvokeCurrent(s.host, s.stderr, a.v);
    } else {
      LoopHostCurrent(s, a);
      LoopStderrCurrent(s, a);
    }
  }

  lemma InvokeCurrent(host: map<Invocation, Lease>, stderr: map<Invocation, Lease>, v: Invocation)
    requires HostCurrent(Reading, host) && StderrCurrent(Reading, stderr)
    ensures HostCurrent(Handling(v), host[v := Lease(false, 0)])
      && StderrCurrent(Handling(v), stderr[v := Lease(false, 0)])
  {
  }

  lemma CallCurrent(s: State, t: State, k: nat)
    requires HostCurrent(s.serve, s.host) && CallFrame(s, t, k)
    requires k in s.calls || !InLease(t.calls[k].pc)
    ensures HostCurrent(t.serve, t.host)
  {
    hide InLease;
  }

  lemma WriterCurrent(s: State, t: State, k: nat)
    requires StderrCurrent(s.serve, s.stderr) && WriterFrame(s, t, k)
    ensures StderrCurrent(t.serve, t.stderr)
  {
    hide WInLease;
  }

  lemma CurrentKept(s: State, step: Step)
    requires Counted(s) && Current(s) && Enabled(s, step)
    ensures Current(Apply(s, step))
  {
    hide Inside, WInside, LoopEnabled, CallEnabled, WriteEnabled, LoopNext, CallNext, WriteNext, InLease, WInLease;
    hide LeaseFollows, HostCurrent, StderrCurrent;
    match step
    case Loop(a) => LoopCurrent(s, a);
    case OfCall(k, a) =>
      CallFramed(s, k, a);
      CallStarted(s, k, a);
      CallCurrent(s, CallNext(s, k, a), k);
    case OfWrite(k, a) =>
      WriterFramed(s, k, a);
      WriterCurrent(s, WriteNext(s, k, a), k);
    case BeginCall(k, _) =>
    case BeginWrite(k, _) =>
    case Abort(v) => AbortCurrent(s.serve, s.host, v);
    case Poison =>
  }

  lemma CallStarted(s: State, k: nat, a: CallStep)
    requires CallEnabled(s, k, a)
    ensures k in s.calls
  {
  }

  lemma AbortCurrent(serve: Serve, host: map<Invocation, Lease>, v: Invocation)
    requires HostCurrent(serve, host) && v in host
    ensures HostCurrent(serve, host[v := host[v].(expired := true)])
  {
  }

  // The log follows the serve loop

  function PhaseOf(serve: Serve): Phase
    requires !serve.Stopped?
  {
    match serve
    case Reading => Idle
    case Handling(v) => Open(v)
    case HostRevoked(v) => Open(v)
    case HostExpired(v) => NoHost(v)
    case StderrRevoked(v) => NoHost(v)
    case Expired(v) => NoOutput(v)
    case Resulting(v) => NoOutput(v)
    case Completing(v) => Answered(v)
    case Readying(v) => Completed(v)
  }

  ghost predicate Wire(s: State) {
    var r := Read(s.t.log);
    && r.Good? && r.used == s.used
    && (if s.serve.Stopped? then !r.p.Open? && !r.p.NoHost? else r.p == PhaseOf(s.serve))
  }

  /** The log, read with its last step, is where the loop is. */
  ghost predicate InStep(after: Reading, t: State) {
    && after.Good? && after.used == t.used
    && (if t.serve.Stopped? then !after.p.Open? && !after.p.NoHost? else after.p == PhaseOf(t.serve))
  }

  function ReadNew(r: Reading, was: seq<Event>, log: seq<Event>): Reading {
    if log == was || log == [] then r else Read1(r, log[|log| - 1])
  }

  predicate Silent(a: LoopStep) { a.RevokeHost? || a.RevokeStderr? || a.CheckPoison? || a.Stop? }

  lemma SilentReads(s: State, a: LoopStep, r: Reading)
    requires LoopEnabled(s, a) && Silent(a) && !s.serve.Stopped? && r == Good(PhaseOf(s.serve), s.used)
    ensures InStep(ReadNew(r, s.t.log, LoopNext(s, a).t.log), LoopNext(s, a))
  {
    hide ValidInvocationId, Read1;
  }

  lemma LoopReads(s: State, a: LoopStep, r: Reading)
    requires LoopEnabled(s, a) && !Silent(a) && !a.ReadInvoke? && !s.serve.Stopped?
      && r == Good(PhaseOf(s.serve), s.used)
    ensures InStep(ReadNew(r, s.t.log, LoopNext(s, a).t.log), LoopNext(s, a))
  {
    hide ValidInvocationId;
  }

  lemma InvokeReads(s: State, v: Invocation, r: Reading)
    requires LoopEnabled(s, ReadInvoke(v)) && !s.serve.Stopped? && r == Good(PhaseOf(s.serve), s.used)
    ensures InStep(ReadNew(r, s.t.log, LoopNext(s, ReadInvoke(v)).t.log), LoopNext(s, ReadInvoke(v)))
  {
    hide ValidInvocationId, LoopEnabled, LoopNext;
    InvokeFramed(s, v);
    assert Wrote(s.t, Invoke(v)).log[|s.t.log|] == Invoke(v);
  }

  lemma LoopWire(s: State, a: LoopStep)
    requires Wire(s) && LoopEnabled(s, a)
    ensures Wire(LoopNext(s, a))
  {
    hide Read, Read1, ValidInvocationId, LoopNext, LoopEnabled, PhaseOf, Silent;
    LoopRuns(s, a);
    LoopLogs(s, a);
    if a.ReadInvoke? {
      InvokeReads(s, a.v, Read(s.t.log));
    } else if Silent(a) {
      SilentReads(s, a, Read(s.t.log));
    } else {
      LoopReads(s, a, Read(s.t.log));
    }
    var log := LoopNext(s, a).t.log;
    if log != s.t.log {
      ReadStep(s.t.log, log[|log| - 1]);
    }
  }

  lemma LoopRuns(s: State, a: LoopStep)
    requires LoopEnabled(s, a)
    ensures !s.serve.Stopped?
  {
  }

  /** An operation under a lease keeps it from being closed. */
  lemma PendingCall(s: State, k: nat)
    requires Counted(s) && k in s.calls && InLease(s.calls[k].pc)
    ensures s.calls[k].v in s.host && s.host[s.calls[k].v].pending > 0
  {
    assert k in Inside(s.calls, s.calls[k].v);
  }

  lemma PendingWriter(s: State, k: nat)
    requires Counted(s) && k in s.writers && WInLease(s.writers[k].pc)
    ensures s.writers[k].v in s.stderr && s.stderr[s.writers[k].v].pending > 0
  {
    assert k in WInside(s.writers, s.writers[k].v);
  }

  lemma CallLogs(s: State, k: nat, a: CallStep)
    requires CallEnabled(s, k, a)
    ensures k in s.calls
    ensures var log := CallNext(s, k, a).t.log;
      log == s.t.log || (InLease(s.calls[k].pc) && log == s.t.log + [HostCall(s.calls[k].v, s.calls[k].id)])
  {
    hide Correlates;
  }

  lemma CallWire(s: State, k: nat, a: CallStep)
    requires Wire(s) && Counted(s) && Current(s) && CallEnabled(s, k, a)
    ensures Wire(CallNext(s, k, a))
  {
    hide Read, ValidInvocationId, CallNext, CallEnabled, Inside, WInside, InLease;
    CallFramed(s, k, a);
    CallLogs(s, k, a);
    if CallNext(s, k, a).t.log != s.t.log {
      PendingCall(s, k);
      ReadStep(s.t.log, HostCall(s.calls[k].v, s.calls[k].id));
    }
  }

  lemma WriterWire(s: State, k: nat, a: WriteStep)
    requires Wire(s) && Counted(s) && Current(s) && WriteEnabled(s, k, a)
    ensures Wire(WriteNext(s, k, a))
  {
    hide Read, ValidInvocationId, WriteNext, WriteEnabled, Inside, WInside, WInLease;
    WriterFramed(s, k, a);
    WriterLogs(s, k, a);
    if WriteNext(s, k, a).t != s.t {
      PendingWriter(s, k);
      ReadStep(s.t.log, StderrChunk(s.writers[k].v));
    }
  }

  lemma WireKept(s: State, step: Step)
    requires Wire(s) && Counted(s) && Current(s) && Enabled(s, step)
    ensures Wire(Apply(s, step))
  {
    hide Inside, WInside, LoopEnabled, CallEnabled, WriteEnabled, LoopNext, CallNext, WriteNext, Read, Counted, Current;
    match step
    case Loop(a) => LoopWire(s, a);
    case OfCall(k, a) => CallWire(s, k, a);
    case OfWrite(k, a) => WriterWire(s, k, a);
    case BeginCall(k, _) =>
    case BeginWrite(k, _) =>
    case Abort(_) =>
    case Poison =>
  }

  // Every reachable state

  ghost predicate Inv(s: State) {
    Counted(s) && Current(s) && Wire(s) && Exclusive(s.calls, s.t) && Numbers(s.generation, s.calls, s.t)
  }

  lemma InvKept(s: State, step: Step)
    requires Inv(s) && Enabled(s, step)
    ensures Inv(Apply(s, step)) && Apply(s, step).generation == s.generation
  {
    hide Counted, Current, Wire, Exclusive, Numbers, Enabled, Apply;
    CountedKept(s, step);
    CurrentKept(s, step);
    WireKept(s, step);
    ExclusiveKept(s, step);
    NumbersKept(s, step);
  }

  lemma {:induction false} InvRun(s: State, steps: seq<Step>)
    requires Inv(s) && Legal(s, steps)
    ensures Inv(After(s, steps)) && After(s, steps).generation == s.generation
    decreases |steps|
  {
    hide Inv, Enabled, Apply;
    if steps != [] {
      InvKept(s, steps[0]);
      InvRun(Apply(s, steps[0]), steps[1..]);
    }
  }

  lemma Reached(g: nat, steps: seq<Step>)
    requires Legal(Start(g), steps)
    ensures Inv(After(Start(g), steps)) && After(Start(g), steps).generation == g
  {
    InvRun(Start(g), steps);
  }

  // Main results

  /** In every run, each host_call and stderr_chunk of an invocation lies after
      its invoke and before its invoke_result, none after its Expire returned,
      and no invocation is served twice. */
  lemma FramesBracketed(g: nat, steps: seq<Step>)
    requires Legal(Start(g), steps)
    ensures var log := After(Start(g), steps).t.log;
      && (forall i :: 0 <= i < |log| ==> Bracketed(log, i))
      && (forall i, j :: 0 <= i < j < |log| && log[i].Invoke? ==> log[j] != log[i])
  {
    hide Read, Bracketed, Legal, After, Counted, Current, Exclusive, Numbers;
    Reached(g, steps);
    var log := After(Start(g), steps).t.log;
    forall i | 0 <= i < |log| ensures Bracketed(log, i) {
      GoodBracketed(log, i);
    }
    forall i, j | 0 <= i < j < |log| && log[i].Invoke? ensures log[j] != log[i] {
      GoodBracketed(log, j);
      assert log[..j][i] == log[i];
    }
  }

  /** In every run the lifecycle frames form a word V2Session accepts. */
  lemma SessionAccepts(g: nat, steps: seq<Step>)
    requires Legal(Start(g), steps)
    ensures V2Sessions.Run(Word(After(Start(g), steps).t.log)).Moved?
  {
    hide Read, Word, Legal, After, Counted, Current, Exclusive, Numbers;
    Reached(g, steps);
    GoodAccepted(After(Start(g), steps).t.log);
  }

  /** In every run the ids on the wire increase and never wrap. */
  lemma IdsIncrease(g: nat, steps: seq<Step>)
    requires Legal(Start(g), steps)
    ensures var log := After(Start(g), steps).t.log;
      && (forall i, j :: 0 <= i < j < |log| && log[i].HostCall? && log[j].HostCall? ==> log[i].id < log[j].id)
      && (forall i :: 0 <= i < |log| && log[i].HostCall? ==> 0 < log[i].id <= MAX_UINT64)
  {
    hide Read, Legal, After, Counted, Current, Exclusive;
    Reached(g, steps);
  }

  /** At any time at most one call is between taking the token and giving it
      back, so at most one is between its frame and its response line. */
  lemma OneExchange(g: nat, steps: seq<Step>, j: nat, k: nat)
    requires Legal(Start(g), steps)
    requires var calls := After(Start(g), steps).calls;
      j in calls && k in calls && HasToken(calls[j].pc) && HasToken(calls[k].pc)
    ensures j == k
  {
    hide Read, Legal, After, Counted, Current, Numbers;
    Reached(g, steps);
  }

  /** A call returns only a response that carries its own id, generation and
      invocation, after its own frame was written; and two calls never return
      the same response. */
  lemma OwnResponses(g: nat, steps: seq<Step>, j: nat, k: nat)
    requires Legal(Start(g), steps)
    requires var calls := After(Start(g), steps).calls;
      && j in calls && calls[j].pc.Finished? && calls[j].pc.out.HasResult?
      && k in calls && calls[k].pc.Finished? && calls[k].pc.out.HasResult?
    ensures var s := After(Start(g), steps); var c := s.calls[j];
      && Correlates(g, c.v, c.id, c.pc.out.response)
      && HostCall(c.v, c.id) in s.t.log
      && (j != k ==> c.pc.out.response.callId != s.calls[k].pc.out.response.callId)
  {
    hide Read, Legal, After, Counted, Current, Exclusive, ValidHostCallId, ValidInvocationId, CallId;
    Reached(g, steps);
    var s := After(Start(g), steps);
    assert CallOk(g, s.calls[j], s.t) && CallOk(g, s.calls[k], s.t);
    if s.calls[j].pc.out.response.callId == s.calls[k].pc.out.response.callId {
      CallIdInjective(s.calls[j].id, s.calls[k].id);
    }
  }

  /** The counters never stop an operation from leaving its lease. */
  lemma LeaveNeverBlocks(g: nat, steps: seq<Step>, k: nat)
    requires Legal(Start(g), steps)
    ensures var s := After(Start(g), steps); k in s.calls && s.calls[k].pc.Leaving? ==> Enabled(s, OfCall(k, Leave))
    ensures var s := After(Start(g), steps);
      k in s.writers && s.writers[k].pc.WLeaving? ==> Enabled(s, OfWrite(k, LeaveWrite))
  {
    hide Read, Legal, After, Counted, Current, Exclusive, Numbers, Wire;
    Reached(g, steps);
    var s := After(Start(g), steps);
    if k in s.calls && s.calls[k].pc.Leaving? {
      PendingCall(s, k);
    }
    if k in s.writers && s.writers[k].pc.WLeaving? {
      PendingWriter(s, k);
    }
  }
}
