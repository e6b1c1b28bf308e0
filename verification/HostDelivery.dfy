/** What does get through: a line that answers a call is the call's result,
    whatever runs beside it, and nothing stands in the way of a call, a
    diagnostic write or an invocation that runs undisturbed. */
module HostDelivery {
  import opened Decimal
  import opened HostLifecycle
  import opened HostSafety
  import opened HostWire
  import opened HostRuns
  import opened HostProgress

  // The line that answers a call

  /** Line r is the host's success for call id of invocation v: every field is
      the call's own. */
  predicate OwnLine(g: nat, v: Invocation, id: nat, r: Response) {
    && r.protocol == 2 && r.kind == "host_response" && r.generation == g && r.invocation == v.text
    && r.callId == "h" + Format(id) && r.innerId == "h" + Format(id) && r.ok
  }

  /** For a call that has written its frame, no other condition is left. */
  lemma OwnIsTaken(s: State, k: nat, r: Response)
    requires Inv(s) && k in s.calls && s.calls[k].pc.Waiting?
    ensures OwnLine(s.generation, s.calls[k].v, s.calls[k].id, r) <==>
      Correlates(s.generation, s.calls[k].v, s.calls[k].id, r) && r.ok
  {
    hide Current, Exclusive, ValidInvocationId, ValidHostCallId, Inside, WInside, Read, Format;
    var c := s.calls[k];
    assert CallOk(s.generation, c, s.t);
    CallIdValid(c.id);
    GoodMeans(s.t.log);
  }

  /** The line call k received in a run, if it received one. */
  ghost function Received(steps: seq<Step>, k: nat): seq<Response> {
    if steps == [] then []
    else
      var last := steps[|steps| - 1];
      Received(steps[..|steps| - 1], k) + if last.OfCall? && last.k == k && last.call.Receive? then [last.call.line]
        else []
  }

  /** What a call has to show for the lines it received. */
  predicate Shows(g: nat, c: Call, lines: seq<Response>) {
    match c.pc
    case Releasing(out) => ShowsOut(g, c, lines, out)
    case Leaving(out) => ShowsOut(g, c, lines, out)
    case Finished(out) => ShowsOut(g, c, lines, out)
    case _ => lines == []
  }

  /** At most one line, and a result exactly when it is the call's own. */
  predicate ShowsOut(g: nat, c: Call, lines: seq<Response>, out: Outcome) {
    && |lines| <= 1
    && out == if lines != [] && OwnLine(g, c.v, c.id, lines[0]) then HasResult(lines[0]) else NoResult
  }

  ghost predicate AllShow(s: State, steps: seq<Step>) {
    && (forall k :: k in s.calls ==> Shows(s.generation, s.calls[k], Received(steps, k)))
    && (forall k :: k !in s.calls ==> Received(steps, k) == [])
  }

  lemma ReceivedMore(steps: seq<Step>, step: Step, k: nat)
    ensures Received(steps + [step], k) ==
      Received(steps, k) + if step.OfCall? && step.k == k && step.call.Receive? then [step.call.line] else []
  {
    assert (steps + [step])[..|steps|] == steps;
  }

  /** One move of the call itself. */
  lemma MoveShows(g: nat, k: nat, w: CallView, a: CallStep, lines: seq<Response>)
    requires CanMove(w, a) && Shows(g, w.c, lines)
    requires a.Receive? ==> (OwnLine(g, w.c.v, w.c.id, a.line) <==> Correlates(g, w.c.v, w.c.id, a.line) && a.line.ok)
    ensures Shows(g, CallMove(g, k, w, a).c, lines + if a.Receive? then [a.line] else [])
  {
    hide Correlates, OwnLine;
    if a.Receive? {
      assert lines == [] && lines + [a.line] == [a.line];
    } else {
      assert lines + [] == lines;
    }
  }

  lemma CallShows(s: State, steps: seq<Step>, k: nat, a: CallStep)
    requires Inv(s) && AllShow(s, steps) && CallEnabled(s, k, a)
    ensures AllShow(CallNext(s, k, a), steps + [OfCall(k, a)])
  {
    hide Inv, CanMove, CallMove, Shows, Received;
    var t, step := CallNext(s, k, a), OfCall(k, a);
    var w := CallView(s.calls[k], s.host[s.calls[k].v], s.t);
    if a.Receive? {
      WaitingReceives(s, k, a);
      OwnIsTaken(s, k, a.line);
    }
    MoveShows(s.generation, k, w, a, Received(steps, k));
    forall j | j in t.calls ensures Shows(t.generation, t.calls[j], Received(steps + [step], j)) {
      ReceivedMore(steps, step, j);
      assert j != k ==> Received(steps, j) + [] == Received(steps, j);
    }
    forall j | j !in t.calls ensures Received(steps + [step], j) == [] {
      ReceivedMore(steps, step, j);
    }
  }

  lemma WaitingReceives(s: State, k: nat, a: CallStep)
    requires CallEnabled(s, k, a) && a.Receive?
    ensures k in s.calls && s.calls[k].pc.Waiting?
  {
  }

  /** A step of no call, or one that begins a call. */
  lemma OtherShows(s: State, steps: seq<Step>, step: Step)
    requires AllShow(s, steps) && Enabled(s, step) && !step.OfCall?
    ensures AllShow(Apply(s, step), steps + [step])
  {
    hide Received, LoopEnabled, LoopNext, WriteEnabled, WriteNext;
    match step {
      case Loop(a) => LoopLogs(s, a);
      case OfWrite(k, a) => WriterLogs(s, k, a);
      case _ =>
    }
    forall j ensures Received(steps + [step], j) == Received(steps, j) {
      ReceivedMore(steps, step, j);
    }
  }

  lemma {:induction false} ShowsRun(s: State, before: seq<Step>, steps: seq<Step>)
    requires Inv(s) && AllShow(s, before) && Legal(s, steps)
    ensures AllShow(After(s, steps), before + steps)
    decreases |steps|
  {
    hide Inv, Enabled, Apply, AllShow;
    if steps == [] {
      assert before + steps == before;
    } else {
      var step := steps[0];
      InvKept(s, step);
      StepShows(s, before, step);
      ShowsRun(Apply(s, step), before + [step], steps[1..]);
      assert before + [step] + steps[1..] == before + steps;
    }
  }

  lemma StepShows(s: State, before: seq<Step>, step: Step)
    requires Inv(s) && AllShow(s, before) && Enabled(s, step)
    ensures AllShow(Apply(s, step), before + [step])
  {
    hide Inv, AllShow, CallEnabled, CallNext;
    if step.OfCall? {
      CallShows(s, before, step.k, step.call);
    } else {
      OtherShows(s, before, step);
    }
  }

  /** In every run, a finished call has received one line at most, and returns
      it exactly when every field of it is the call's own and it says ok. */
  lemma ResultIffOwnLine(g: nat, steps: seq<Step>, k: nat)
    requires Legal(Start(g), steps) && k in After(Start(g), steps).calls && After(Start(g), steps).calls[k].pc.Finished?
    ensures var c, lines := After(Start(g), steps).calls[k], Received(steps, k);
      |lines| <= 1 && c.pc.out == if lines != [] && OwnLine(g, c.v, c.id, lines[0]) then HasResult(lines[0])
        else NoResult
  {
    hide Legal, After, Inv, OwnLine;
    Reached(g, steps);
    StartInv(g);
    ShowsRun(Start(g), [], steps);
    assert [] + steps == steps;
  }

  lemma StartInv(g: nat)
    ensures Inv(Start(g)) && AllShow(Start(g), [])
  {
    assert Legal(Start(g), []) && After(Start(g), []) == Start(g);
    Reached(g, []);
  }

  // Delivery under any interleaving

  predicate Carries(pc: CallPc, r: Response) {
    pc == Releasing(HasResult(r)) || pc == Leaving(HasResult(r)) || pc == Finished(HasResult(r))
  }

  lemma CarriesOn(s: State, k: nat, r: Response, step: Step)
    requires k in s.calls && Carries(s.calls[k].pc, r) && Enabled(s, step)
    ensures k in Apply(s, step).calls && Carries(Apply(s, step).calls[k].pc, r)
  {
    hide LoopEnabled, LoopNext, WriteEnabled, WriteNext;
    match step {
      case Loop(a) => LoopLogs(s, a);
      case OfWrite(j, a) => WriterLogs(s, j, a);
      case _ =>
    }
  }

  lemma {:induction false} CarriesRun(s: State, k: nat, r: Response, steps: seq<Step>)
    requires k in s.calls && Carries(s.calls[k].pc, r) && Legal(s, steps)
    ensures k in After(s, steps).calls && Carries(After(s, steps).calls[k].pc, r)
    decreases |steps|
  {
    hide Enabled, Apply, Carries;
    if steps != [] {
      CarriesOn(s, k, r, steps[0]);
      CarriesRun(Apply(s, steps[0]), k, r, steps[1..]);
    }
  }

  /** In every reached state, a waiting call that reads a line with its own
      fields keeps it as its result whatever else runs, and has returned it
      where no ordinary step is left. */
  lemma LineIsDelivered(g: nat, before: seq<Step>, k: nat, r: Response, steps: seq<Step>)
    requires Legal(Start(g), before)
    requires var s := After(Start(g), before);
      k in s.calls && s.calls[k].pc.Waiting? && OwnLine(g, s.calls[k].v, s.calls[k].id, r)
    ensures Enabled(After(Start(g), before), OfCall(k, Receive(r)))
    ensures var s := Apply(After(Start(g), before), OfCall(k, Receive(r)));
      Legal(s, steps) ==>
        && k in After(s, steps).calls && Carries(After(s, steps).calls[k].pc, r)
        && (!CanGoOn(After(s, steps)) ==> After(s, steps).calls[k].pc == Finished(HasResult(r)))
  {
    hide Legal, After, Inv, OwnLine, CanGoOn;
    Reached(g, before);
    var s := After(Start(g), before);
    ReceiveGives(s, k, r);
    InvKept(s, OfCall(k, Receive(r)));
    var t := Apply(s, OfCall(k, Receive(r)));
    if Legal(t, steps) {
      CarriesRun(t, k, r, steps);
      InvRun(t, steps);
      if !CanGoOn(After(t, steps)) {
        StuckIsQuiet(After(t, steps));
      }
    }
  }

  lemma ReceiveGives(s: State, k: nat, r: Response)
    requires Inv(s) && k in s.calls && s.calls[k].pc.Waiting? && OwnLine(s.generation, s.calls[k].v, s.calls[k].id, r)
    ensures Enabled(s, OfCall(k, Receive(r)))
    ensures var t := Apply(s, OfCall(k, Receive(r))); k in t.calls && t.calls[k].pc == Releasing(HasResult(r))
  {
    hide Correlates, OwnLine, Current, Exclusive, Numbers, Wire, Inside, WInside;
    OwnIsTaken(s, k, r);
  }

  // An undisturbed call

  /** What a call still needs, wherever it is, to get line r as its result. */
  predicate OnCourse(g: nat, w: CallView, r: Response) {
    && ValidInvocationId(w.c.v.text)
    && match w.c.pc
       case Starting => !w.lease.expired && !w.t.poisoned && w.t.exchange && w.t.lock.Free? && Next(g, w, r)
       case Admitted => w.lease.pending > 0 && !w.lease.expired && w.t.exchange && w.t.lock.Free? && Next(g, w, r)
       case Holding => w.lease.pending > 0 && !w.lease.expired && w.t.lock.Free? && Next(g, w, r)
       case Locked => w.lease.pending > 0 && !w.lease.expired && Next(g, w, r)
       case Numbered => w.lease.pending > 0 && !w.lease.expired && Mine(g, w, r)
       case Cleared => w.lease.pending > 0 && Mine(g, w, r)
       case Waiting => w.lease.pending > 0 && Mine(g, w, r)
       case Aborting => false
       case Releasing(out) => w.lease.pending > 0 && out == HasResult(r)
       case Leaving(out) => w.lease.pending > 0 && out == HasResult(r)
       case Finished(out) => out == HasResult(r)
  }

  /** Line r answers the next id. */
  predicate Next(g: nat, w: CallView, r: Response) {
    w.t.nextId < MAX_UINT64 && OwnLine(g, w.c.v, w.t.nextId + 1, r)
  }

  predicate Mine(g: nat, w: CallView, r: Response) { 0 < w.c.id <= MAX_UINT64 && OwnLine(g, w.c.v, w.c.id, r) }

  function NextMove(pc: CallPc, r: Response): CallStep
    requires !pc.Finished?
  {
    match pc
    case Starting => Admit
    case Admitted => TakeToken
    case Holding => TakeLock
    case Locked => TakeId
    case Numbered => CheckLease
    case Cleared => WriteCall
    case Waiting => Receive(r)
    case Aborting => PoisonCall
    case Releasing(_) => ReturnToken
    case Leaving(_) => Leave
  }

  lemma StaysOnCourse(g: nat, k: nat, w: CallView, r: Response)
    requires OnCourse(g, w, r) && !w.c.pc.Finished?
    ensures CanMove(w, NextMove(w.c.pc, r)) && OnCourse(g, CallMove(g, k, w, NextMove(w.c.pc, r)), r)
    ensures CallMove(g, k, w, NextMove(w.c.pc, r)).c.v == w.c.v
  {
    hide ValidInvocationId, Format;
    if w.c.pc.Waiting? {
      hide ValidHostCallId;
      CallIdValid(w.c.id);
    }
  }

  /** Steps of one call alone. */
  ghost predicate OnlyCall(steps: seq<Step>, k: nat) { forall i :: 0 <= i < |steps| ==>
      steps[i].OfCall? && steps[i].k == k }

  lemma {:induction false} GetsThrough(s: State, k: nat, r: Response) returns (steps: seq<Step>)
    requires k in s.calls && s.calls[k].v in s.host
    requires OnCourse(s.generation, CallView(s.calls[k], s.host[s.calls[k].v], s.t), r)
    ensures Legal(s, steps) && OnlyCall(steps, k)
    ensures k in After(s, steps).calls && After(s, steps).calls[k].pc == Finished(HasResult(r))
    decreases CallWeight(s.calls[k].pc)
  {
    hide OnCourse, CanMove, CallMove, CallWeight;
    var w := CallView(s.calls[k], s.host[s.calls[k].v], s.t);
    if w.c.pc.Finished? {
      ArrivedWith(s.generation, w, r);
      steps := [];
    } else {
      var a := NextMove(w.c.pc, r);
      StaysOnCourse(s.generation, k, w, r);
      MoveLighter(s.generation, k, w, a);
      var t := CallNext(s, k, a);
      var rest := GetsThrough(t, k, r);
      steps := [OfCall(k, a)] + rest;
      assert steps[1..] == rest && Apply(s, OfCall(k, a)) == t;
    }
  }

  lemma ArrivedWith(g: nat, w: CallView, r: Response)
    requires OnCourse(g, w, r) && w.c.pc.Finished?
    ensures w.c.pc == Finished(HasResult(r))
  {
  }

  /** While its lease is open, the transport sound, the token and the lock free
      and an id left, a new call that runs alone gets the line that answers it
      as its result: no check on its way refuses it. */
  lemma CallGetsThrough(g: nat, before: seq<Step>, k: nat, v: Invocation, r: Response) returns (steps: seq<Step>)
    requires Legal(Start(g), before)
    requires var s := After(Start(g), before);
      && k !in s.calls && v in s.host && !s.host[v].expired && !s.t.poisoned && s.t.exchange && s.t.lock.Free?
      && s.t.nextId < MAX_UINT64 && OwnLine(g, v, s.t.nextId + 1, r)
    ensures var s := After(Start(g), before);
      && Enabled(s, BeginCall(k, v)) && Legal(Apply(s, BeginCall(k, v)), steps) && OnlyCall(steps, k)
      && k in After(Apply(s, BeginCall(k, v)), steps).calls
      && After(Apply(s, BeginCall(k, v)), steps).calls[k].pc == Finished(HasResult(r))
  {
    hide Legal, After, OwnLine, ValidInvocationId, Inv;
    Reached(g, before);
    var s := After(Start(g), before);
    LeasesValid(s);
    var t := Apply(s, BeginCall(k, v));
    steps := GetsThrough(t, k, r);
  }

  /** Only valid invocations have a lease. */
  lemma LeasesValid(s: State)
    requires Inv(s)
    ensures forall v :: v in s.host ==> ValidInvocationId(v.text)
  {
    hide ValidInvocationId, Numbers, Exclusive, Current, Inside, WInside, Read;
    GoodMeans(s.t.log);
  }

  // An undisturbed write and an undisturbed invocation

  lemma LegalThen(s: State, step: Step, rest: seq<Step>)
    requires Enabled(s, step) && Legal(Apply(s, step), rest)
    ensures Legal(s, [step] + rest) && After(s, [step] + rest) == After(Apply(s, step), rest)
  {
    hide Enabled, Apply;
    assert ([step] + rest)[1..] == rest;
  }

  /** While its lease is open and the lock free, a new write that runs alone
      puts its frame on the wire. */
  lemma ChunkGetsThrough(s: State, k: nat, v: Invocation) returns (steps: seq<Step>)
    requires k !in s.writers && v in s.stderr && !s.stderr[v].expired && s.t.lock.Free?
    ensures Legal(s, steps) && After(s, steps).t.log == s.t.log + [StderrChunk(v)]
    ensures k in After(s, steps).writers && After(s, steps).writers[k] == Writer(v, WFinished)
    ensures After(s, steps).stderr == s.stderr
  {
    var s1 := Apply(s, BeginWrite(k, v));
    var s2 := WriteNext(s1, k, AdmitWrite);
    var s3 := WriteNext(s2, k, WriteChunk);
    var s4 := WriteNext(s3, k, LeaveWrite);
    assert s4.stderr == s.stderr;
    hide WriteNext, WriteEnabled;
    LegalThen(s3, OfWrite(k, LeaveWrite), []);
    LegalThen(s2, OfWrite(k, WriteChunk), [OfWrite(k, LeaveWrite)] + []);
    LegalThen(s1, OfWrite(k, AdmitWrite), [OfWrite(k, WriteChunk)] + ([OfWrite(k, LeaveWrite)] + []));
    var rest := [OfWrite(k, AdmitWrite)] + ([OfWrite(k, WriteChunk)] + ([OfWrite(k, LeaveWrite)] + []));
    LegalThen(s, BeginWrite(k, v), rest);
    steps := [BeginWrite(k, v)] + rest;
  }

  /** What the loop still has to log for the invocation it serves. */
  function Rest(serve: Serve): seq<Event>
    decreases LoopWeight(serve)
  {
    match serve
    case Handling(v) => [HostExpireReturned(v)] + Rest(HostExpired(v))
    case HostRevoked(v) => [HostExpireReturned(v)] + Rest(HostExpired(v))
    case HostExpired(v) => [StderrExpireReturned(v)] + Rest(Expired(v))
    case StderrRevoked(v) => [StderrExpireReturned(v)] + Rest(Expired(v))
    case Expired(v) => [InvokeResult(v)] + Rest(Completing(v))
    case Resulting(v) => [InvokeResult(v)] + Rest(Completing(v))
    case Completing(v) => [StderrComplete(v)] + Rest(Readying(v))
    case Readying(v) => [InvokeReady(v)]
    case _ => []
  }

  function NextLoop(serve: Serve): LoopStep
    requires LoopWeight(serve) > 0
  {
    match serve
    case Handling(_) => RevokeHost
    case HostRevoked(_) => HostDrained
    case HostExpired(_) => RevokeStderr
    case StderrRevoked(_) => StderrDrained
    case Expired(_) => CheckPoison
    case Resulting(_) => WriteResult
    case Completing(_) => WriteComplete
    case Readying(_) => WriteReady
  }

  /** The loop serves v and nothing holds it up. */
  predicate Clear(s: State, v: Invocation) {
    && LoopWeight(s.serve) > 0 && s.serve.v == v && v in s.host && v in s.stderr
    && s.host[v].pending == 0 && s.stderr[v].pending == 0 && !s.t.poisoned && s.t.lock.Free?
  }

  /** Where an undisturbed step of the loop leads, and what it logs. */
  function NextServe(serve: Serve): Serve
    requires LoopWeight(serve) > 0
  {
    match serve
    case Handling(v) => HostRevoked(v)
    case HostRevoked(v) => HostExpired(v)
    case HostExpired(v) => StderrRevoked(v)
    case StderrRevoked(v) => Expired(v)
    case Expired(v) => Resulting(v)
    case Resulting(v) => Completing(v)
    case Completing(v) => Readying(v)
    case Readying(_) => Reading
  }

  function Says(serve: Serve): seq<Event> {
    match serve
    case HostRevoked(v) => [HostExpireReturned(v)]
    case StderrRevoked(v) => [StderrExpireReturned(v)]
    case Resulting(v) => [InvokeResult(v)]
    case Completing(v) => [StderrComplete(v)]
    case Readying(v) => [InvokeReady(v)]
    case _ => []
  }

  lemma RestUnfolds(serve: Serve)
    requires LoopWeight(serve) > 0
    ensures Rest(serve) == Says(serve) + Rest(NextServe(serve)) && LoopWeight(NextServe(serve)) < LoopWeight(serve)
  {
  }

  lemma LoopMoves(s: State, v: Invocation)
    requires Clear(s, v)
    ensures LoopEnabled(s, NextLoop(s.serve))
    ensures var t := LoopNext(s, NextLoop(s.serve));
      && t.serve == NextServe(s.serve) && t.t == s.t.(log := s.t.log + Says(s.serve))
      && (t.serve == Reading || Clear(t, v))
  {
    assert s.t.log + [] == s.t.log;
  }

  lemma StaysClear(s: State, v: Invocation)
    requires Clear(s, v)
    ensures LoopEnabled(s, NextLoop(s.serve))
    ensures var t := LoopNext(s, NextLoop(s.serve));
      && t.t.log + Rest(t.serve) == s.t.log + Rest(s.serve)
      && (t.serve == Reading || Clear(t, v)) && LoopWeight(t.serve) < LoopWeight(s.serve)
  {
    hide LoopNext, LoopEnabled, Rest, Says, NextServe, NextLoop;
    LoopMoves(s, v);
    RestUnfolds(s.serve);
    var more := Rest(NextServe(s.serve));
    assert s.t.log + Says(s.serve) + more == s.t.log + (Says(s.serve) + more);
  }

  lemma {:induction false} LoopFinishes(s: State, v: Invocation) returns (steps: seq<Step>)
    requires Clear(s, v)
    ensures Legal(s, steps) && After(s, steps).serve == Reading && After(s, steps).t.log == s.t.log + Rest(s.serve)
    decreases LoopWeight(s.serve)
  {
    hide LoopEnabled, LoopNext, Rest, LoopWeight;
    StaysClear(s, v);
    var a := NextLoop(s.serve);
    var t := LoopNext(s, a);
    var rest := [];
    if t.serve == Reading {
      RestNone();
    } else {
      rest := LoopFinishes(t, v);
    }
    LegalThen(s, Loop(a), rest);
    steps := [Loop(a)] + rest;
  }

  lemma RestNone()
    ensures Rest(Reading) == []
  {
  }

  /** With the transport sound, the lock free and fewer than 256 invocations
      behind it, the loop serves a new valid invocation whose handler calls
      nothing to the end: its frames and both Expires, in this order. */
  lemma InvocationGetsThrough(g: nat, before: seq<Step>, v: Invocation) returns (steps: seq<Step>)
    requires Legal(Start(g), before)
    requires var s := After(Start(g), before);
      && s.serve == Reading && ValidInvocationId(v.text) && v !in s.used && |s.used| < 256
      && !s.t.poisoned && s.t.lock.Free?
    ensures var s := After(Start(g), before);
      && Legal(s, steps) && After(s, steps).serve == Reading
      && After(s, steps).t.log == s.t.log + [Invoke(v), HostExpireReturned(v), StderrExpireReturned(v), InvokeResult(v),
                                             StderrComplete(v), InvokeReady(v)]
  {
    hide Legal, After, ValidInvocationId;
    var s := After(Start(g), before);
    var t := LoopNext(s, ReadInvoke(v));
    var rest := LoopFinishes(t, v);
    LegalThen(s, Loop(ReadInvoke(v)), rest);
    steps := [Loop(ReadInvoke(v))] + rest;
    RestOfHandling(v);
    assert s.t.log + [Invoke(v)] + Rest(Handling(v)) == s.t.log + ([Invoke(v)] + Rest(Handling(v)));
  }

  lemma RestOfHandling(v: Invocation)
    ensures Rest(Handling(v)) ==
      [HostExpireReturned(v), StderrExpireReturned(v), InvokeResult(v), StderrComplete(v), InvokeReady(v)]
  {
    assert Rest(Completing(v)) == [StderrComplete(v)] + Rest(Readying(v)) == [StderrComplete(v), InvokeReady(v)];
    assert Rest(Expired(v)) == [InvokeResult(v)] + Rest(Completing(v));
    assert Rest(HostExpired(v)) == [StderrExpireReturned(v)] + Rest(Expired(v));
  }

  // An aborted transport

  /** The loop has not yet looked at the poison for v, or has stopped. */
  predicate Unanswered(serve: Serve, v: Invocation) {
    serve.Stopped?
      || ((serve.Handling? || serve.HostRevoked? || serve.HostExpired? || serve.StderrRevoked? || serve.Expired?)
          && serve.v == v)
  }

  lemma LoopPoison(s: State, v: Invocation, a: LoopStep)
    requires s.t.poisoned && Unanswered(s.serve, v) && LoopEnabled(s, a)
    ensures var t := LoopNext(s, a);
      t.t.poisoned && Unanswered(t.serve, v) && (InvokeResult(v) in t.t.log ==> InvokeResult(v) in s.t.log)
  {
    hide ValidInvocationId;
  }

  lemma CallPoison(s: State, k: nat, a: CallStep)
    requires s.t.poisoned && CallEnabled(s, k, a)
    ensures CallNext(s, k, a).t.poisoned
  {
    hide Correlates;
  }

  lemma PoisonStays(s: State, v: Invocation, step: Step)
    requires s.t.poisoned && Unanswered(s.serve, v) && Enabled(s, step)
    ensures var t := Apply(s, step);
      t.t.poisoned && Unanswered(t.serve, v) && (InvokeResult(v) in t.t.log ==> InvokeResult(v) in s.t.log)
  {
    hide LoopEnabled, LoopNext, CallEnabled, CallNext, WriteEnabled, WriteNext, Unanswered, InLease, WInLease;
    match step
    case Loop(a) => LoopPoison(s, v, a);
    case OfCall(k, a) =>
      CallFramed(s, k, a);
      CallLogs(s, k, a);
      CallPoison(s, k, a);
    case OfWrite(k, a) =>
      WriterFramed(s, k, a);
      WriterLogs(s, k, a);
    case _ =>
  }

  /** Once the transport is aborted, the invocation being served is never
      answered: the loop stops instead. */
  lemma {:induction false} AbortedNeverAnswers(s: State, v: Invocation, steps: seq<Step>)
    requires s.t.poisoned && Unanswered(s.serve, v) && InvokeResult(v) !in s.t.log && Legal(s, steps)
    ensures InvokeResult(v) !in After(s, steps).t.log && Unanswered(After(s, steps).serve, v)
    decreases |steps|
  {
    hide Enabled, Apply, Unanswered;
    if steps != [] {
      PoisonStays(s, v, steps[0]);
      AbortedNeverAnswers(Apply(s, steps[0]), v, steps[1..]);
    }
  }

  // How many invocations

  lemma UsedStep(s: State, step: Step)
    requires |s.used| <= 256 && Enabled(s, step)
    ensures |Apply(s, step).used| <= 256
  {
    hide LoopNext, CallEnabled, CallNext, WriteEnabled, WriteNext, ValidInvocationId;
    match step
    case Loop(a) =>
      if a.ReadInvoke? {
        InvokeFramed(s, a.v);
      } else {
        LoopFramed(s, a);
      }
    case OfCall(k, a) => CallFramed(s, k, a);
    case OfWrite(k, a) => WriterFramed(s, k, a);
    case _ =>
  }

  /** No run serves more than 256 invocations. */
  lemma {:induction false} AtMost256(s: State, steps: seq<Step>)
    requires |s.used| <= 256 && Legal(s, steps)
    ensures |After(s, steps).used| <= 256
    decreases |steps|
  {
    hide Enabled, Apply;
    if steps != [] {
      UsedStep(s, steps[0]);
      AtMost256(Apply(s, steps[0]), steps[1..]);
    }
  }

  // What a revoked lease and an aborted transport keep out

  /** Neither a frame of v is on its way past the last check, nor can one get
      there. */
  ghost predicate Silenced(s: State, v: Invocation) {
    && v in s.host && s.host[v].expired
    && forall k :: k in s.calls && s.calls[k].v == v ==> !s.calls[k].pc.Cleared?
  }

  ghost predicate SameFrames(a: seq<Event>, b: seq<Event>, v: Invocation) {
    forall e: Event :: e.HostCall? && e.v == v && e in b ==> e in a
  }

  lemma CallSilenced(s: State, v: Invocation, k: nat, a: CallStep)
    requires Silenced(s, v) && CallEnabled(s, k, a)
    ensures Silenced(CallNext(s, k, a), v) && SameFrames(s.t.log, CallNext(s, k, a).t.log, v)
  {
    hide Correlates;
  }

  lemma LoopSilenced(s: State, v: Invocation, a: LoopStep)
    requires Silenced(s, v) && Counted(s) && LoopEnabled(s, a)
    ensures Silenced(LoopNext(s, a), v) && SameFrames(s.t.log, LoopNext(s, a).t.log, v)
  {
    hide LoopEnabled, LoopNext, Inside, WInside;
    LoopLogs(s, a);
    if a.ReadInvoke? {
      InvokeFramed(s, a.v);
    } else {
      LoopFramed(s, a);
    }
  }

  lemma StepSilenced(s: State, v: Invocation, step: Step)
    requires Inv(s) && Silenced(s, v) && Enabled(s, step)
    ensures Silenced(Apply(s, step), v) && SameFrames(s.t.log, Apply(s, step).t.log, v)
  {
    hide LoopEnabled, LoopNext, CallEnabled, CallNext, WriteEnabled, WriteNext;
    hide Current, Wire, Exclusive, Numbers, Counted, WInLease;
    match step
    case Loop(a) => LoopSilenced(s, v, a);
    case OfCall(k, a) => CallSilenced(s, v, k, a);
    case OfWrite(k, a) =>
      WriterFramed(s, k, a);
      WriterLogs(s, k, a);
    case _ =>
  }

  /** Once the lease of v is revoked, by Expire or by Abort, no host call of v
      is written any more, but for the one that had passed its last check. */
  lemma {:induction false} RevokedIsSilent(s: State, v: Invocation, steps: seq<Step>)
    requires Inv(s) && Silenced(s, v) && Legal(s, steps)
    ensures SameFrames(s.t.log, After(s, steps).t.log, v)
    decreases |steps|
  {
    hide Inv, Enabled, Apply, Silenced;
    if steps != [] {
      InvKept(s, steps[0]);
      StepSilenced(s, v, steps[0]);
      RevokedIsSilent(Apply(s, steps[0]), v, steps[1..]);
    }
  }

  /** Call k has not begun, or has only been turned away. */
  predicate TurnedAway(s: State, k: nat) {
    k in s.calls ==> s.calls[k].pc.Starting? || s.calls[k].pc == Finished(NoResult)
  }

  lemma StepTurnsAway(s: State, k: nat, step: Step)
    requires s.t.poisoned && TurnedAway(s, k) && Enabled(s, step)
    ensures Apply(s, step).t.poisoned && TurnedAway(Apply(s, step), k)
  {
    hide LoopEnabled, LoopNext, WriteEnabled, WriteNext, CallEnabled, CallNext;
    match step
    case Loop(a) => LoopLogs(s, a);
    case OfWrite(j, a) =>
      WriterFramed(s, j, a);
      WriterLogs(s, j, a);
    case OfCall(j, a) =>
      CallPoison(s, j, a);
      CallFramed(s, j, a);
      if j == k {
        StartTurnsAway(s, k, a);
      }
    case _ =>
  }

  lemma StartTurnsAway(s: State, k: nat, a: CallStep)
    requires s.t.poisoned && TurnedAway(s, k) && CallEnabled(s, k, a)
    ensures TurnedAway(CallNext(s, k, a), k)
  {
  }

  /** Once the transport is aborted, no call that had not been admitted ever is,
      on this invocation or a later one. */
  lemma {:induction false} AbortedAdmitsNone(s: State, k: nat, steps: seq<Step>)
    requires s.t.poisoned && TurnedAway(s, k) && Legal(s, steps)
    ensures TurnedAway(After(s, steps), k)
    decreases |steps|
  {
    hide Enabled, Apply, TurnedAway;
    if steps != [] {
      StepTurnsAway(s, k, steps[0]);
      AbortedAdmitsNone(Apply(s, steps[0]), k, steps[1..]);
    }
  }

  /** What the aborts of a run have done: a revoked lease at once, and a
      poisoned transport once the abort is through. */
  ghost predicate AbortsDone(s: State, steps: seq<Step>) {
    && (forall k :: OfCall(k, AbortCall) in steps ==> CallAborted(s, k))
    && (forall v :: Abort(v) in steps ==> v in s.host && s.host[v].expired)
    && (Poison in steps ==> s.t.poisoned)
  }

  predicate CallAborted(s: State, k: nat) {
    && k in s.calls && s.calls[k].v in s.host && s.host[s.calls[k].v].expired
    && !s.calls[k].pc.Waiting? && (s.calls[k].pc.Aborting? || s.t.poisoned) && PastWaiting(s.calls[k].pc)
  }

  predicate PastWaiting(pc: CallPc) { pc.Aborting? || pc.Releasing? || pc.Leaving? || pc.Finished? }

  /** Flags never come back. */
  ghost predicate FlagsStay(s: State, t: State) {
    && (s.t.poisoned ==> t.t.poisoned)
    && (forall v :: v in s.host && s.host[v].expired ==> v in t.host && t.host[v].expired)
    && (forall k :: k in s.calls ==> k in t.calls && t.calls[k].v == s.calls[k].v)
  }

  lemma CallFlags(s: State, k: nat, a: CallStep)
    requires CallEnabled(s, k, a)
    ensures FlagsStay(s, CallNext(s, k, a))
    ensures CallAborted(s, k) || a.AbortCall? ==> CallAborted(CallNext(s, k, a), k)
  {
    hide Correlates;
  }

  lemma LoopFlags(s: State, a: LoopStep)
    requires Counted(s) && LoopEnabled(s, a)
    ensures FlagsStay(s, LoopNext(s, a)) && LoopNext(s, a).calls == s.calls
  {
    hide LoopEnabled, LoopNext, Inside, WInside;
    LoopLogs(s, a);
    if a.ReadInvoke? {
      InvokeFramed(s, a.v);
    } else {
      LoopFramed(s, a);
    }
  }

  lemma StepFlags(s: State, step: Step, k: nat)
    requires Counted(s) && Enabled(s, step)
    ensures FlagsStay(s, Apply(s, step))
    ensures CallAborted(s, k) || step == OfCall(k, AbortCall) ==> CallAborted(Apply(s, step), k)
  {
    hide LoopEnabled, LoopNext, CallEnabled, CallNext, WriteEnabled, WriteNext, Counted, WInLease;
    match step
    case Loop(a) => LoopFlags(s, a);
    case OfCall(j, a) =>
      CallFlags(s, j, a);
      CallFramed(s, j, a);
    case OfWrite(j, a) =>
      WriterFramed(s, j, a);
      WriterLogs(s, j, a);
    case _ =>
  }

  lemma AbortsKept(s: State, steps: seq<Step>, step: Step)
    requires Inv(s) && AbortsDone(s, steps) && Enabled(s, step)
    ensures AbortsDone(Apply(s, step), steps + [step])
  {
    hide Current, Wire, Exclusive, Numbers, Counted, CallAborted;
    hide LoopEnabled, LoopNext, CallEnabled, CallNext, WriteEnabled, WriteNext;
    StepFlags(s, step, 0);
    forall k | OfCall(k, AbortCall) in steps + [step] ensures CallAborted(Apply(s, step), k) {
      StepFlags(s, step, k);
    }
  }

  lemma {:induction false} AbortsRun(s: State, before: seq<Step>, steps: seq<Step>)
    requires Inv(s) && AbortsDone(s, before) && Legal(s, steps)
    ensures AbortsDone(After(s, steps), before + steps)
    decreases |steps|
  {
    hide Inv, Enabled, Apply, AbortsDone;
    if steps == [] {
      assert before + steps == before;
    } else {
      InvKept(s, steps[0]);
      AbortsKept(s, before, steps[0]);
      AbortsRun(Apply(s, steps[0]), before + [steps[0]], steps[1..]);
      assert before + [steps[0]] + steps[1..] == before + steps;
    }
  }

  /** In every run, a call that gave up on its line has revoked its lease, and
      has poisoned the transport once it is past aborting; an abort from
      anywhere else has done the same in its two halves. */
  lemma AbortsTakeEffect(g: nat, steps: seq<Step>)
    requires Legal(Start(g), steps)
    ensures AbortsDone(After(Start(g), steps), steps)
  {
    hide Inv, Legal, After;
    StartInv(g);
    AbortsRun(Start(g), [], steps);
    assert [] + steps == steps;
  }
}
