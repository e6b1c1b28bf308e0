/** What may appear on the wire, and in what order: a reading of the log that
    knows nothing of leases, locks or goroutines. */
module HostWire {
  import opened Decimal
  import opened HostLifecycle
  import V2Sessions

  datatype Phase =
    | Idle
    | Open(v: Invocation)        // invoked
    | NoHost(v: Invocation)      // host Expire has returned
    | NoOutput(v: Invocation)    // diagnostics Expire has returned too
    | Answered(v: Invocation)
    | Completed(v: Invocation)

  /** Bad, or the phase and the invocations seen. */
  datatype Reading = Bad | Good(p: Phase, used: set<Invocation>)

  function Read1(r: Reading, e: Event): Reading {
    if r.Bad? then Bad
    else match e
      case Invoke(v) =>
        if r.p.Idle? && v !in r.used && ValidInvocationId(v.text) then Good(Open(v), r.used + {v}) else Bad
      case HostCall(v, _) => if r.p == Open(v) then r else Bad
      case StderrChunk(v) => if r.p == Open(v) || r.p == NoHost(v) then r else Bad
      case HostExpireReturned(v) => if r.p == Open(v) then r.(p := NoHost(v)) else Bad
      case StderrExpireReturned(v) => if r.p == NoHost(v) then r.(p := NoOutput(v)) else Bad
      case InvokeResult(v) => if r.p == NoOutput(v) then r.(p := Answered(v)) else Bad
      case StderrComplete(v) => if r.p == Answered(v) then r.(p := Completed(v)) else Bad
      case InvokeReady(v) => if r.p == Completed(v) then r.(p := Idle) else Bad
  }

  function Read(log: seq<Event>): Reading {
    if log == [] then Good(Idle, {}) else Read1(Read(log[..|log| - 1]), log[|log| - 1])
  }

  lemma ReadStep(log: seq<Event>, e: Event)
    ensures Read(log + [e]) == Read1(Read(log), e)
  {
    assert (log + [e])[..|log|] == log;
  }

  lemma {:induction false} PrefixGood(log: seq<Event>, i: nat)
    requires Read(log).Good? && i <= |log|
    ensures Read(log[..i]).Good?
    decreases |log|
  {
    if i == |log| {
      assert log[..i] == log;
    } else {
      PrefixGood(log[..|log| - 1], i);
      assert log[..|log| - 1][..i] == log[..i];
    }
  }

  /** What a good log holds in each phase. */
  ghost predicate Means(log: seq<Event>, p: Phase, used: set<Invocation>) {
    && (forall v :: v in used <==> Invoke(v) in log)
    && (forall e :: e in log ==> e.v in used)
    && (forall v :: v in used ==> ValidInvocationId(v.text))
    && (!p.Idle? ==> p.v in used)
    && (p.Open? ==> HostExpireReturned(p.v) !in log)
    && (p.Open? || p.NoHost? ==> StderrExpireReturned(p.v) !in log)
    && (p.Open? || p.NoHost? || p.NoOutput? ==> InvokeResult(p.v) !in log)
  }

  /** Which Expires have returned. */
  ghost predicate Returned(log: seq<Event>, p: Phase, used: set<Invocation>) {
    && (forall v :: v in used && p != Open(v) ==> HostExpireReturned(v) in log)
    && (forall v :: v in used && p != Open(v) && p != NoHost(v) ==> StderrExpireReturned(v) in log)
  }

  lemma ReturnedStep(log: seq<Event>, e: Event, r: Reading)
    requires r.Good? && Returned(log, r.p, r.used) && Read1(r, e).Good?
    ensures Returned(log + [e], Read1(r, e).p, Read1(r, e).used)
  {
    hide ValidInvocationId;
    assert forall f :: f in log + [e] <==> f in log || f == e;
  }

  lemma {:induction false} GoodReturned(log: seq<Event>)
    requires Read(log).Good?
    ensures Returned(log, Read(log).p, Read(log).used)
  {
    hide Read1, Returned;
    if log == [] {
      NothingReturned();
    } else {
      var front, e := log[..|log| - 1], log[|log| - 1];
      assert log == front + [e];
      BadStays(Read(front), e);
      GoodReturned(front);
      ReturnedStep(front, e, Read(front));
    }
  }

  lemma NothingReturned()
    ensures Returned([], Idle, {})
  {
  }

  lemma BadStays(r: Reading, e: Event)
    ensures r.Bad? ==> Read1(r, e).Bad?
  {
  }

  lemma MeansStep(log: seq<Event>, e: Event, r: Reading)
    requires r.Good? && Means(log, r.p, r.used) && Read1(r, e).Good?
    ensures Means(log + [e], Read1(r, e).p, Read1(r, e).used)
  {
    hide ValidInvocationId;
    assert forall f :: f in log + [e] <==> f in log || f == e;
  }

  lemma {:induction false} GoodMeans(log: seq<Event>)
    requires Read(log).Good?
    ensures Means(log, Read(log).p, Read(log).used)
  {
    hide Read1, Means;
    if log == [] {
      NothingMeans();
    } else {
      var front, e := log[..|log| - 1], log[|log| - 1];
      assert log == front + [e];
      BadStays(Read(front), e);
      GoodMeans(front);
      MeansStep(front, e, Read(front));
    }
  }

  lemma NothingMeans()
    ensures Means([], Idle, {})
  {
  }

  // Brackets

  /** A frame of v follows invoke v; neither invoke_result v nor the return of
      the Expire that revokes it comes before it. */
  ghost predicate InBracket(before: seq<Event>, e: Event) {
    && (e.HostCall? || e.StderrChunk? ==> Invoke(e.v) in before && InvokeResult(e.v) !in before)
    && (e.HostCall? ==> HostExpireReturned(e.v) !in before)
    && (e.StderrChunk? ==> StderrExpireReturned(e.v) !in before)
  }

  ghost predicate Bracketed(log: seq<Event>, i: nat)
    requires i < |log|
  {
    InBracket(log[..i], log[i])
  }

  lemma NextBracketed(before: seq<Event>, e: Event, r: Reading)
    requires r.Good? && Means(before, r.p, r.used) && Read1(r, e).Good?
    ensures InBracket(before, e) && (e.Invoke? ==> e !in before)
  {
    hide ValidInvocationId;
  }

  lemma GoodBracketed(log: seq<Event>, i: nat)
    requires Read(log).Good? && i < |log|
    ensures Bracketed(log, i)
    ensures log[i].Invoke? ==> log[i] !in log[..i]
  {
    hide Means, Read, Read1, InBracket;
    PrefixGood(log, i);
    PrefixGood(log, i + 1);
    assert log[..i + 1] == log[..i] + [log[i]];
    ReadStep(log[..i], log[i]);
    GoodMeans(log[..i]);
    NextBracketed(log[..i], log[i], Read(log[..i]));
  }

  // The session

  /** The lifecycle frame an event is on the wire, if it is one. */
  function FrameOf(e: Event): seq<V2Sessions.Frame> {
    match e
    case Invoke(v) => [V2Sessions.Frame("invoke", v.text)]
    case StderrChunk(v) => [V2Sessions.Frame("stderr_chunk", v.text)]
    case InvokeResult(v) => [V2Sessions.Frame("invoke_result", v.text)]
    case StderrComplete(v) => [V2Sessions.Frame("stderr_complete", v.text)]
    case InvokeReady(v) => [V2Sessions.Frame("invoke_ready", v.text)]
    case _ => []
  }

  function Word(log: seq<Event>): seq<V2Sessions.Frame> {
    if log == [] then [] else Word(log[..|log| - 1]) + FrameOf(log[|log| - 1])
  }

  function SessionOf(p: Phase): V2Sessions.State {
    match p
    case Idle => V2Sessions.Ready
    case Open(v) => V2Sessions.Invoked(v.text)
    case NoHost(v) => V2Sessions.Invoked(v.text)
    case NoOutput(v) => V2Sessions.Invoked(v.text)
    case Answered(v) => V2Sessions.Result(v.text)
    case Completed(v) => V2Sessions.StderrComplete(v.text)
  }

  lemma SessionStep(r: Reading, e: Event)
    requires r.Good? && Read1(r, e).Good? && ValidInvocationId(e.v.text)
    ensures FrameOf(e) == [] ==> SessionOf(Read1(r, e).p) == SessionOf(r.p)
    ensures FrameOf(e) != [] ==>
      V2Sessions.Next(SessionOf(r.p), FrameOf(e)[0].kind, FrameOf(e)[0].v) == V2Sessions.Moved(SessionOf(Read1(r, e).p))
  {
    hide ValidInvocationId;
  }

  /** The lifecycle frames of a good log are a word the session accepts. */
  lemma {:induction false} GoodAccepted(log: seq<Event>)
    requires Read(log).Good?
    ensures V2Sessions.Run(Word(log)) == V2Sessions.Moved(SessionOf(Read(log).p))
  {
    hide Means, SessionOf, FrameOf, V2Sessions.Next, V2Sessions.Run;
    if log == [] {
      assert V2Sessions.Run([]) == V2Sessions.Moved(SessionOf(Idle)) by { EmptyRun(); }
    } else {
      var front, e := log[..|log| - 1], log[|log| - 1];
      GoodAccepted(front);
      EventValid(log, e);
      SessionStep(Read(front), e);
      FrameShape(e);
      if FrameOf(e) == [] {
        assert Word(log) == Word(front);
      } else {
        V2Sessions.RunStep(Word(front), FrameOf(e)[0]);
      }
    }
  }

  lemma EmptyRun()
    ensures V2Sessions.Run([]) == V2Sessions.Moved(SessionOf(Idle))
  {
  }

  lemma FrameShape(e: Event)
    ensures FrameOf(e) == [] || FrameOf(e) == [FrameOf(e)[0]]
  {
  }

  lemma EventValid(log: seq<Event>, e: Event)
    requires Read(log).Good? && e in log
    ensures ValidInvocationId(e.v.text)
  {
    GoodMeans(log);
  }
}
