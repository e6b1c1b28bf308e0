/** Progress: while the host answers and nobody gives up, the goroutines run
    out of steps only when everything has returned. */
module HostProgress {
  import opened HostLifecycle
  import opened HostSafety
  import opened HostWire
  import opened HostRuns

  /** Steps that need no failure, no cancellation and no new work. */
  predicate Ordinary(step: Step) {
    match step
    case Loop(a) => !a.Stop? && !a.ReadInvoke?
    case OfCall(_, a) => !a.GiveUp? && !a.RefuseFrame? && !a.ReadFails? && !a.AbortCall?
    case OfWrite(_, a) => !a.FailChunk?
    case _ => false
  }

  ghost predicate CanGoOn(s: State) { exists step :: Ordinary(step) && Enabled(s, step) }

  /** A call under its lease, or the one it waits for, can move. */
  lemma CallGoesOn(s: State, k: nat)
    requires Inv(s) && k in s.calls && InLease(s.calls[k].pc)
    ensures CanGoOn(s)
  {
    hide Current, Wire, Numbers, Counted;
    PendingCall(s, k);
    if s.calls[k].pc.Admitted? && !s.t.exchange {
      var h :| h in s.calls && HasToken(s.calls[h].pc);
      HolderGoesOn(s, h);
    } else if s.calls[k].pc.Admitted? {
      assert Ordinary(OfCall(k, TakeToken)) && Enabled(s, OfCall(k, TakeToken));
    } else if s.calls[k].pc.Leaving? {
      assert Ordinary(OfCall(k, Leave)) && Enabled(s, OfCall(k, Leave));
    } else {
      HolderGoesOn(s, k);
    }
  }

  function NextOf(pc: CallPc): CallStep
    requires HasToken(pc)
  {
    match pc
    case Holding => TakeLock
    case Locked => TakeId
    case Numbered => CheckLease
    case Cleared => WriteCall
    case Waiting => Receive(Response(0, "", 0, "", "", "", false, ""))
    case Aborting => PoisonCall
    case Releasing(_) => ReturnToken
  }

  lemma HolderGoesOn(s: State, h: nat)
    requires Inv(s) && h in s.calls && HasToken(s.calls[h].pc)
    ensures CanGoOn(s)
  {
    hide Current, Wire, Numbers, Counted;
    PendingCall(s, h);
    if s.t.lock.HeldBy? {
      assert HasLock(s.calls[s.t.lock.k].pc);
      assert s.t.lock.k == h;
    }
    var step := OfCall(h, NextOf(s.calls[h].pc));
    assert Ordinary(step) && Enabled(s, step);
  }

  lemma LockedGoesOn(s: State)
    requires Inv(s) && s.t.lock.HeldBy?
    ensures CanGoOn(s)
  {
    hide Current, Wire, Numbers, Counted;
    HolderGoesOn(s, s.t.lock.k);
  }

  /** No deadlock: while an invocation is being served, someone can take a step
      that is neither a failure nor new work, given that the host answers. */
  lemma NoDeadlock(g: nat, steps: seq<Step>)
    requires Legal(Start(g), steps)
    requires var serve := After(Start(g), steps).serve; !serve.Reading? && !serve.Stopped?
    ensures CanGoOn(After(Start(g), steps))
  {
    hide Legal, After, Inv;
    Reached(g, steps);
    LoopGoesOn(After(Start(g), steps));
  }

  lemma LoopGoesOn(s: State)
    requires Inv(s) && !s.serve.Reading? && !s.serve.Stopped?
    ensures CanGoOn(s)
  {
    hide Wire, Numbers, CanGoOn, Exclusive;
    if s.t.lock.HeldBy? {
      LockedGoesOn(s);
    } else if s.serve.HostRevoked? && s.host[s.serve.v].pending > 0 {
      var k :| k in Inside(s.calls, s.serve.v);
      CallGoesOn(s, k);
    } else if s.serve.StderrRevoked? && s.stderr[s.serve.v].pending > 0 {
      var k :| k in WInside(s.writers, s.serve.v);
      WriterGoesOn(s, k);
    } else {
      ServeGoesOn(s);
    }
  }

  lemma WriterGoesOn(s: State, k: nat)
    requires Inv(s) && k in s.writers && WInLease(s.writers[k].pc) && s.t.lock.Free?
    ensures CanGoOn(s)
  {
    hide Current, Wire, Numbers, Counted, Exclusive;
    PendingWriter(s, k);
    var step := OfWrite(k, if s.writers[k].pc.WAdmitted? then WriteChunk else LeaveWrite);
    assert Ordinary(step) && Enabled(s, step);
  }

  lemma ServeGoesOn(s: State)
    requires Inv(s) && !s.serve.Reading? && !s.serve.Stopped? && s.t.lock.Free?
    requires s.serve.HostRevoked? ==> s.host[s.serve.v].pending == 0
    requires s.serve.StderrRevoked? ==> s.stderr[s.serve.v].pending == 0
    ensures CanGoOn(s)
  {
    hide Wire, Numbers, Exclusive, Inside, WInside;
    var a := match s.serve
      case Handling(_) => RevokeHost
      case HostRevoked(_) => HostDrained
      case HostExpired(_) => RevokeStderr
      case StderrRevoked(_) => StderrDrained
      case Expired(_) => CheckPoison
      case Resulting(_) => WriteResult
      case Completing(_) => WriteComplete
      case Readying(_) => WriteReady
      case _ => Stop;
    assert Ordinary(Loop(a)) && Enabled(s, Loop(a));
  }

  // Every ordinary step uses up some of a finite stock

  function CallWeight(pc: CallPc): nat {
    match pc
    case Starting => 11
    case Admitted => 10
    case Holding => 9
    case Locked => 8
    case Numbered => 7
    case Cleared => 6
    case Waiting => 5
    case Aborting => 4
    case Releasing(_) => 3
    case Leaving(_) => 2
    case Finished(_) => 0
  }

  function WriterWeight(pc: WriterPc): nat {
    match pc
    case WStarting => 3
    case WAdmitted => 2
    case WLeaving => 1
    case WFinished => 0
  }

  function LoopWeight(serve: Serve): nat {
    match serve
    case Handling(_) => 8
    case HostRevoked(_) => 7
    case HostExpired(_) => 6
    case StderrRevoked(_) => 5
    case Expired(_) => 4
    case Resulting(_) => 3
    case Completing(_) => 2
    case Readying(_) => 1
    case _ => 0
  }

  /** One unit of work left: the j-th of operation k. */
  datatype Work = Work(k: nat, j: nat)

  ghost function CallWork(calls: map<nat, Call>): set<Work> {
    set k, j | k in calls && 0 <= j < CallWeight(calls[k].pc) :: Work(k, j)
  }

  ghost function WriterWork(writers: map<nat, Writer>): set<Work> {
    set k, j | k in writers && 0 <= j < WriterWeight(writers[k].pc) :: Work(k, j)
  }

  ghost function Left(s: State): nat { LoopWeight(s.serve) + |CallWork(s.calls)| + |WriterWork(s.writers)| }

  lemma Fewer(a: set<Work>, b: set<Work>, w: Work)
    requires b <= a && w in a && w !in b
    ensures |b| < |a|
  {
    assert b <= a - {w};
    SubsetSize(b, a - {w});
  }

  lemma SubsetSize(a: set<Work>, b: set<Work>)
    requires a <= b
    ensures |a| <= |b|
  {
    assert b == a + (b - a);
  }

  lemma CallWorkFalls(calls: map<nat, Call>, k: nat, c: Call)
    requires k in calls && CallWeight(c.pc) < CallWeight(calls[k].pc)
    ensures |CallWork(calls[k := c])| < |CallWork(calls)|
  {
    hide CallWeight;
    Fewer(CallWork(calls), CallWork(calls[k := c]), Work(k, CallWeight(c.pc)));
  }

  lemma WriterWorkFalls(writers: map<nat, Writer>, k: nat, w: Writer)
    requires k in writers && WriterWeight(w.pc) < WriterWeight(writers[k].pc)
    ensures |WriterWork(writers[k := w])| < |WriterWork(writers)|
  {
    hide WriterWeight;
    Fewer(WriterWork(writers), WriterWork(writers[k := w]), Work(k, WriterWeight(w.pc)));
  }

  lemma MoveLighter(g: nat, k: nat, w: CallView, a: CallStep)
    requires CanMove(w, a)
    ensures CallWeight(CallMove(g, k, w, a).c.pc) < CallWeight(w.c.pc)
  {
    hide Correlates;
  }

  lemma WriteLighter(x: WriterView, a: WriteStep)
    requires CanWrite(x, a)
    ensures WriterWeight(WriteMove(x, a).w.pc) < WriterWeight(x.w.pc)
  {
  }

  lemma LoopLighter(s: State, a: LoopStep)
    requires LoopEnabled(s, a) && !a.ReadInvoke? && !a.Stop?
    ensures LoopWeight(LoopNext(s, a).serve) < LoopWeight(s.serve)
    ensures LoopNext(s, a).calls == s.calls && LoopNext(s, a).writers == s.writers
  {
  }

  lemma LeftFalls(s: State, step: Step)
    requires Ordinary(step) && Enabled(s, step)
    ensures Left(Apply(s, step)) < Left(s)
  {
    hide CallWork, WriterWork, CallWeight, WriterWeight, LoopWeight, CanMove, CallMove, CanWrite, WriteMove, LoopNext,
      LoopEnabled;
    match step
    case Loop(a) => LoopLighter(s, a);
    case OfCall(k, a) =>
      var w := CallView(s.calls[k], s.host[s.calls[k].v], s.t);
      MoveLighter(s.generation, k, w, a);
      CallWorkFalls(s.calls, k, CallMove(s.generation, k, w, a).c);
    case OfWrite(k, a) =>
      var x := WriterView(s.writers[k], s.stderr[s.writers[k].v], s.t);
      WriteLighter(x, a);
      WriterWorkFalls(s.writers, k, WriteMove(x, a).w);
    case _ =>
  }

  ghost predicate AllOrdinary(steps: seq<Step>) { forall i :: 0 <= i < |steps| ==> Ordinary(steps[i]) }

  /** From any reached state, only so many ordinary steps can be taken. */
  lemma {:induction false} OrdinaryBounded(s: State, steps: seq<Step>)
    requires Inv(s) && Legal(s, steps) && AllOrdinary(steps)
    ensures |steps| <= Left(s) && Inv(After(s, steps))
    decreases |steps|
  {
    hide Inv, Enabled, Apply, Left, Ordinary;
    if steps != [] {
      InvKept(s, steps[0]);
      LeftFalls(s, steps[0]);
      assert forall i :: 0 <= i < |steps| - 1 ==> steps[1..][i] == steps[i + 1];
      OrdinaryBounded(Apply(s, steps[0]), steps[1..]);
    }
  }

  /** What a state in which no ordinary step is left looks like: the loop is
      between invocations or stopped, every call and write has returned, and so
      has every Expire. */
  ghost predicate Quiet(s: State) {
    && (s.serve.Reading? || s.serve.Stopped?)
    && (forall k :: k in s.calls ==> s.calls[k].pc.Finished?)
    && (forall k :: k in s.writers ==> s.writers[k].pc.WFinished?)
    && (forall v :: v in s.used ==> HostExpireReturned(v) in s.t.log && StderrExpireReturned(v) in s.t.log)
  }

  lemma StuckIsQuiet(s: State)
    requires Inv(s) && !CanGoOn(s)
    ensures Quiet(s)
  {
    hide CanGoOn, Inv, InLease, WInLease;
    if !s.serve.Reading? && !s.serve.Stopped? {
      LoopGoesOn(s);
    }
    CallsDone(s);
    WritersDone(s);
    ExpiresDone(s);
  }

  lemma CallsDone(s: State)
    requires Inv(s) && !CanGoOn(s)
    ensures forall k :: k in s.calls ==> s.calls[k].pc.Finished?
  {
    hide CanGoOn, Inv;
    forall k | k in s.calls ensures s.calls[k].pc.Finished? {
      if InLease(s.calls[k].pc) {
        CallGoesOn(s, k);
      } else if s.calls[k].pc.Starting? {
        StartGoesOn(s, k);
      }
    }
  }

  lemma WritersDone(s: State)
    requires Inv(s) && !CanGoOn(s)
    ensures forall k :: k in s.writers ==> s.writers[k].pc.WFinished?
  {
    hide CanGoOn, Inv;
    if s.t.lock.HeldBy? {
      LockedGoesOn(s);
    }
    forall k | k in s.writers ensures s.writers[k].pc.WFinished? {
      if WInLease(s.writers[k].pc) {
        WriterGoesOn(s, k);
      } else if s.writers[k].pc.WStarting? {
        WriterStartGoesOn(s, k);
      }
    }
  }

  lemma ExpiresDone(s: State)
    requires Inv(s) && (s.serve.Reading? || s.serve.Stopped?)
    ensures forall v :: v in s.used ==> HostExpireReturned(v) in s.t.log && StderrExpireReturned(v) in s.t.log
  {
    hide Numbers, Exclusive, Current, Counted, Read;
    GoodReturned(s.t.log);
  }

  lemma StartGoesOn(s: State, k: nat)
    requires Inv(s) && k in s.calls && s.calls[k].pc.Starting?
    ensures CanGoOn(s)
  {
    hide Current, Wire, Numbers, Exclusive, Inside, WInside;
    var step := OfCall(k, Admit);
    assert Ordinary(step) && Enabled(s, step);
  }

  lemma WriterStartGoesOn(s: State, k: nat)
    requires Inv(s) && k in s.writers && s.writers[k].pc.WStarting?
    ensures CanGoOn(s)
  {
    hide Current, Wire, Numbers, Exclusive, Inside, WInside;
    var step := OfWrite(k, AdmitWrite);
    assert Ordinary(step) && Enabled(s, step);
  }

  /** From every reached state, ordinary steps in any order come to an end, and
      where none is left everything has returned, each Expire included. */
  lemma EverythingReturns(g: nat, before: seq<Step>, steps: seq<Step>)
    requires Legal(Start(g), before) && Legal(After(Start(g), before), steps) && AllOrdinary(steps)
    ensures |steps| <= Left(After(Start(g), before))
    ensures var s := After(After(Start(g), before), steps); CanGoOn(s) || Quiet(s)
  {
    hide Inv, Legal, After, CanGoOn, Quiet, Left, AllOrdinary;
    Reached(g, before);
    var s := After(Start(g), before);
    OrdinaryBounded(s, steps);
    if !CanGoOn(After(s, steps)) {
      StuckIsQuiet(After(s, steps));
    }
  }
}
