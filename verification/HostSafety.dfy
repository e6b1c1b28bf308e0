/** What every interleaving of HostLifecycle keeps. */
module HostSafety {
  import opened Decimal
  import opened HostLifecycle

  // Counters

  predicate InLease(pc: CallPc) { !pc.Starting? && !pc.Finished? }
  predicate HasToken(pc: CallPc) { InLease(pc) && !pc.Admitted? && !pc.Leaving? }
  predicate HasLock(pc: CallPc) { pc.Locked? || pc.Numbered? || pc.Cleared? }
  predicate WInLease(pc: WriterPc) { pc.WAdmitted? || pc.WLeaving? }

  ghost function Inside(calls: map<nat, Call>, v: Invocation): set<nat> {
    set k | k in calls && calls[k].v == v && InLease(calls[k].pc)
  }

  ghost function WInside(writers: map<nat, Writer>, v: Invocation): set<nat> {
    set k | k in writers && writers[k].v == v && WInLease(writers[k].pc)
  }

  /** Every lease's counter is the number of operations under it. */
  ghost predicate HostCounted(used: set<Invocation>, host: map<Invocation, Lease>, calls: map<nat, Call>) {
    && host.Keys == used
    && (forall k :: k in calls ==> calls[k].v in used)
    && (forall v :: v in used ==> host[v].pending == |Inside(calls, v)|)
  }

  ghost predicate StderrCounted(used: set<Invocation>, stderr: map<Invocation, Lease>, writers: map<nat, Writer>) {
    && stderr.Keys == used
    && (forall k :: k in writers ==> writers[k].v in used)
    && (forall v :: v in used ==> stderr[v].pending == |WInside(writers, v)|)
  }

  ghost predicate Counted(s: State) {
    HostCounted(s.used, s.host, s.calls) && StderrCounted(s.used, s.stderr, s.writers)
  }

  lemma OneMoves<T>(a: set<T>, b: set<T>, k: T)
    requires a - {k} == b - {k}
    ensures |b| == |a| + (if k in b then 1 else 0) - (if k in a then 1 else 0)
  {
    var rest := a - {k};
    assert k in a ==> a == rest + {k};
    assert k !in a ==> a == rest;
    assert k in b ==> b == rest + {k};
    assert k !in b ==> b == rest;
  }

  /** Moving one call changes one lease's membership at most. */
  lemma InsideMoves(calls: map<nat, Call>, k: nat, c: Call, v: Invocation)
    ensures var a, b := Inside(calls, v), Inside(calls[k := c], v);
      var was := k in calls && calls[k].v == v && InLease(calls[k].pc);
      var now := c.v == v && InLease(c.pc);
      |b| == |a| + (if now then 1 else 0) - (if was then 1 else 0)
  {
    hide InLease;
    OneMoves(Inside(calls, v), Inside(calls[k := c], v), k);
  }

  lemma WInsideMoves(writers: map<nat, Writer>, k: nat, w: Writer, v: Invocation)
    ensures var a, b := WInside(writers, v), WInside(writers[k := w], v);
      var was := k in writers && writers[k].v == v && WInLease(writers[k].pc);
      var now := w.v == v && WInLease(w.pc);
      |b| == |a| + (if now then 1 else 0) - (if was then 1 else 0)
  {
    hide WInLease;
    OneMoves(WInside(writers, v), WInside(writers[k := w], v), k);
  }

  /** What any step of call k leaves alone, and how its lease follows it. */
  ghost predicate CallFrame(s: State, t: State, k: nat) {
    && k in t.calls && t.calls == s.calls[k := t.calls[k]]
    && (k in s.calls ==> t.calls[k].v == s.calls[k].v)
    && t.calls[k].v in s.host
    && t.used == s.used && t.stderr == s.stderr && t.writers == s.writers && t.serve == s.serve
    && t.generation == s.generation && t.host.Keys == s.host.Keys
    && LeaseFollows(s.host[t.calls[k].v], t.host[t.calls[k].v],
                    k in s.calls && InLease(s.calls[k].pc), InLease(t.calls[k].pc))
    && (forall v :: v in s.host && v != t.calls[k].v ==> t.host[v] == s.host[v])
  }

  /** A lease whose flag never comes back and whose counter follows one
      operation that was inside and now is. */
  predicate LeaseFollows(l: Lease, m: Lease, was: bool, now: bool) {
    && m.pending == l.pending + (if now then 1 else 0) - (if was then 1 else 0)
    && (l.expired ==> m.expired && (now ==> was))
  }

  ghost predicate WriterFrame(s: State, t: State, k: nat) {
    && k in t.writers && t.writers == s.writers[k := t.writers[k]]
    && (k in s.writers ==> t.writers[k].v == s.writers[k].v)
    && t.writers[k].v in s.stderr
    && t.used == s.used && t.host == s.host && t.calls == s.calls && t.serve == s.serve
    && t.generation == s.generation && t.t == s.t.(log := t.t.log)
    && t.stderr.Keys == s.stderr.Keys
    && LeaseFollows(s.stderr[t.writers[k].v], t.stderr[t.writers[k].v],
                    k in s.writers && WInLease(s.writers[k].pc), WInLease(t.writers[k].pc))
    && (forall v :: v in s.stderr && v != t.writers[k].v ==> t.stderr[v] == s.stderr[v])
  }

  lemma CallFramed(s: State, k: nat, a: CallStep)
    requires CallEnabled(s, k, a)
    ensures CallFrame(s, CallNext(s, k, a), k)
  {
    hide CallMove, CanMove;
    CallLeaseFollows(s.generation, k, CallView(s.calls[k], s.host[s.calls[k].v], s.t), a);
  }

  lemma CallLeaseFollows(g: nat, k: nat, w: CallView, a: CallStep)
    requires CanMove(w, a)
    ensures var x := CallMove(g, k, w, a);
      x.c.v == w.c.v && LeaseFollows(w.lease, x.lease, InLease(w.c.pc), InLease(x.c.pc))
  {
    hide Correlates;
  }

  lemma WriterFramed(s: State, k: nat, a: WriteStep)
    requires WriteEnabled(s, k, a)
    ensures WriterFrame(s, WriteNext(s, k, a), k)
  {
    hide WriteMove, CanWrite;
    WriterLeaseFollows(WriterView(s.writers[k], s.stderr[s.writers[k].v], s.t), a);
  }

  lemma WriterLeaseFollows(w: WriterView, a: WriteStep)
    requires CanWrite(w, a)
    ensures var x := WriteMove(w, a);
      x.w.v == w.w.v && LeaseFollows(w.lease, x.lease, WInLease(w.w.pc), WInLease(x.w.pc))
    ensures WriteMove(w, a).t == w.t.(log := WriteMove(w, a).t.log)
  {
  }

  lemma CallCounted(s: State, t: State, k: nat)
    requires Counted(s) && CallFrame(s, t, k)
    ensures Counted(t)
  {
    hide InLease, Inside, WInside;
    forall v | v in t.used ensures t.host[v].pending == |Inside(t.calls, v)| {
      InsideMoves(s.calls, k, t.calls[k], v);
    }
  }

  lemma WriterCounted(s: State, t: State, k: nat)
    requires Counted(s) && WriterFrame(s, t, k)
    ensures Counted(t)
  {
    hide WInLease, Inside, WInside;
    forall v | v in t.used ensures t.stderr[v].pending == |WInside(t.writers, v)| {
      WInsideMoves(s.writers, k, t.writers[k], v);
    }
  }

  lemma NewHostLease(used: set<Invocation>, host: map<Invocation, Lease>, calls: map<nat, Call>, v: Invocation)
    requires HostCounted(used, host, calls) && v !in used
    ensures HostCounted(used + {v}, host[v := Lease(false, 0)], calls)
  {
    assert Inside(calls, v) == {};
  }

  lemma NewStderrLease(used: set<Invocation>, stderr: map<Invocation, Lease>, writers: map<nat, Writer>, v: Invocation)
    requires StderrCounted(used, stderr, writers) && v !in used
    ensures StderrCounted(used + {v}, stderr[v := Lease(false, 0)], writers)
  {
    assert WInside(writers, v) == {};
  }

  /** What a step of the loop other than ReadInvoke leaves alone: it may only
      revoke a lease. */
  ghost predicate LoopFrame(s: State, t: State) {
    && t == s.(serve := t.serve, host := t.host, stderr := t.stderr, t := t.t)
    && t.t == s.t.(log := t.t.log)
    && Revokes(s.host, t.host) && Revokes(s.stderr, t.stderr)
  }

  ghost predicate Revokes(m: map<Invocation, Lease>, n: map<Invocation, Lease>) {
    n.Keys == m.Keys && forall v :: v in m ==> n[v].pending == m[v].pending && (m[v].expired ==> n[v].expired)
  }

  lemma LoopFramed(s: State, a: LoopStep)
    requires LoopEnabled(s, a) && !a.ReadInvoke?
    ensures LoopFrame(s, LoopNext(s, a))
  {
  }

  lemma InvokeFramed(s: State, v: Invocation)
    requires LoopEnabled(s, ReadInvoke(v))
    ensures v !in s.used && s.serve.Reading? && ValidInvocationId(v.text)
    ensures LoopNext(s, ReadInvoke(v)) ==
      s.(serve := Handling(v), used := s.used + {v}, host := s.host[v := Lease(false, 0)],
         stderr := s.stderr[v := Lease(false, 0)], t := Wrote(s.t, Invoke(v)))
  {
  }

  /** Revoking leases leaves the counters as they are. */
  lemma RevokedCounted(s: State, t: State)
    requires Counted(s) && t.used == s.used && t.calls == s.calls && t.writers == s.writers
    requires Revokes(s.host, t.host) && Revokes(s.stderr, t.stderr)
    ensures Counted(t)
  {
    hide Inside, WInside;
  }

  lemma AbortRevokes(s: State, v: Invocation)
    requires v in s.host
    ensures Revokes(s.host, s.host[v := s.host[v].(expired := true)]) && Revokes(s.stderr, s.stderr)
  {
  }

  lemma BeginFramed(s: State, k: nat, v: Invocation)
    ensures k !in s.calls && v in s.host ==> CallFrame(s, Begun(s, k, v), k)
    ensures k !in s.writers && v in s.stderr ==> WriterFrame(s, s.(writers := s.writers[k := Writer(v, WStarting)]), k)
  {
  }

  function Begun(s: State, k: nat, v: Invocation): State { s.(calls := s.calls[k := Call(v, 0, Starting)]) }

  lemma CountedKept(s: State, step: Step)
    requires Counted(s) && Enabled(s, step)
    ensures Counted(Apply(s, step))
  {
    hide Counted, Revokes, LoopEnabled, CallEnabled, WriteEnabled, LoopNext, CallNext, WriteNext, CallFrame,
      WriterFrame;
    match step
    case Loop(a) => LoopCounted(s, a);
    case OfCall(k, a) =>
      CallFramed(s, k, a);
      CallCounted(s, CallNext(s, k, a), k);
    case OfWrite(k, a) =>
      WriterFramed(s, k, a);
      WriterCounted(s, WriteNext(s, k, a), k);
    case BeginCall(k, v) =>
      BeginFramed(s, k, v);
      CallCounted(s, Apply(s, step), k);
    case BeginWrite(k, v) =>
      BeginFramed(s, k, v);
      WriterCounted(s, Apply(s, step), k);
    case Abort(v) =>
      AbortRevokes(s, v);
      RevokedCounted(s, Apply(s, step));
    case Poison =>
      NothingRevoked(s);
      RevokedCounted(s, Apply(s, step));
  }

  lemma NothingRevoked(s: State)
    ensures Revokes(s.host, s.host) && Revokes(s.stderr, s.stderr)
  {
  }

  lemma LoopCounted(s: State, a: LoopStep)
    requires Counted(s) && LoopEnabled(s, a)
    ensures Counted(LoopNext(s, a))
  {
    hide HostCounted, StderrCounted, LoopEnabled, LoopNext;
    if a.ReadInvoke? {
      InvokeFramed(s, a.v);
      NewHostLease(s.used, s.host, s.calls, a.v);
      NewStderrLease(s.used, s.stderr, s.writers, a.v);
    } else {
      LoopFramed(s, a);
      RevokedCounted(s, LoopNext(s, a));
    }
  }

  // The exchange token and the write lock

  /** One call at most holds the token, and one exactly when it is taken; the
      lock is held by the one call that is writing. */
  ghost predicate Exclusive(calls: map<nat, Call>, t: Transport) {
    && (forall j, k :: j in calls && k in calls && HasToken(calls[j].pc) && HasToken(calls[k].pc) ==> j == k)
    && (!t.exchange <==> exists k :: k in calls && HasToken(calls[k].pc))
    && (forall k :: k in calls ==> (HasLock(calls[k].pc) <==> t.lock == HeldBy(k)))
    && (t.lock.HeldBy? ==> t.lock.k in calls)
  }

  /** How the token and the lock change hands when call k moves. */
  predicate HandsOver(k: nat, w: CallView, x: CallView) {
    && (HasToken(x.c.pc) == HasToken(w.c.pc) ==> x.t.exchange == w.t.exchange)
    && (HasToken(x.c.pc) && !HasToken(w.c.pc) ==> w.t.exchange && !x.t.exchange)
    && (!HasToken(x.c.pc) && HasToken(w.c.pc) ==> x.t.exchange)
    && (HasLock(x.c.pc) == HasLock(w.c.pc) ==> x.t.lock == w.t.lock)
    && (HasLock(x.c.pc) && !HasLock(w.c.pc) ==> w.t.lock == Free && x.t.lock == HeldBy(k))
    && (!HasLock(x.c.pc) && HasLock(w.c.pc) ==> x.t.lock == Free)
  }

  lemma MoveHandsOver(g: nat, k: nat, w: CallView, a: CallStep)
    requires CanMove(w, a)
    ensures HandsOver(k, w, CallMove(g, k, w, a))
  {
    hide Correlates;
  }

  lemma ExclusiveMoves(calls: map<nat, Call>, k: nat, w: CallView, x: CallView)
    requires Exclusive(calls, w.t) && k in calls && calls[k] == w.c && HandsOver(k, w, x)
    ensures Exclusive(calls[k := x.c], x.t)
  {
    hide HasToken, HasLock;
    var after := calls[k := x.c];
    if !w.t.exchange && !x.t.exchange {
      var h :| h in calls && HasToken(calls[h].pc);
      assert h in after && HasToken(after[h].pc);
    } else if !x.t.exchange {
      assert k in after && HasToken(after[k].pc);
    }
  }

  lemma ExclusiveBegins(calls: map<nat, Call>, t: Transport, k: nat, v: Invocation)
    requires Exclusive(calls, t) && k !in calls
    ensures Exclusive(calls[k := Call(v, 0, Starting)], t)
  {
    var after := calls[k := Call(v, 0, Starting)];
    if !t.exchange {
      var h :| h in calls && HasToken(calls[h].pc);
      assert h in after && HasToken(after[h].pc);
    }
  }

  lemma ExclusiveMove(s: State, k: nat, a: CallStep)
    requires Exclusive(s.calls, s.t) && CallEnabled(s, k, a)
    ensures Exclusive(CallNext(s, k, a).calls, CallNext(s, k, a).t)
  {
    hide Exclusive, HandsOver, CanMove, CallMove;
    var w := CallView(s.calls[k], s.host[s.calls[k].v], s.t);
    MoveHandsOver(s.generation, k, w, a);
    ExclusiveMoves(s.calls, k, w, CallMove(s.generation, k, w, a));
  }

  /** The token and the lock do not depend on what was written. */
  lemma ExclusiveStays(s: State, t: State)
    requires Exclusive(s.calls, s.t) && t.calls == s.calls && t.t.exchange == s.t.exchange && t.t.lock == s.t.lock
    ensures Exclusive(t.calls, t.t)
  {
    hide HasToken, HasLock;
    assert forall k :: k in s.calls && HasToken(s.calls[k].pc) <==> k in t.calls && HasToken(t.calls[k].pc);
  }

  lemma ExclusiveKept(s: State, step: Step)
    requires Exclusive(s.calls, s.t) && Enabled(s, step)
    ensures Exclusive(Apply(s, step).calls, Apply(s, step).t)
  {
    hide Exclusive, LoopEnabled, CallEnabled, CallNext, WriteEnabled, LoopNext, WriteNext;
    match step
    case Loop(a) =>
      LoopLogs(s, a);
      ExclusiveStays(s, LoopNext(s, a));
    case OfCall(k, a) => ExclusiveMove(s, k, a);
    case OfWrite(k, a) =>
      WriterLogs(s, k, a);
      ExclusiveStays(s, WriteNext(s, k, a));
    case BeginCall(k, v) => ExclusiveBegins(s.calls, s.t, k, v);
    case BeginWrite(k, _) => ExclusiveStays(s, Apply(s, step));
    case Abort(_) => ExclusiveStays(s, Apply(s, step));
    case Poison => ExclusiveStays(s, Apply(s, step));
  }

  // Call ids and results

  predicate Unnumbered(pc: CallPc) { pc.Starting? || pc.Admitted? || pc.Holding? || pc.Locked? }

  predicate About(pc: CallPc) { pc.Numbered? || pc.Cleared? }

  ghost predicate IdsBelow(log: seq<Event>, bound: nat) {
    forall i :: 0 <= i < |log| && log[i].HostCall? ==> 0 < log[i].id < bound
  }

  ghost predicate Increasing(log: seq<Event>) {
    forall i, j :: 0 <= i < j < |log| && log[i].HostCall? && log[j].HostCall? ==> log[i].id < log[j].id
  }

  /** A result of call c comes from a line that carries the ids of c, and c has
      written its frame. */
  ghost predicate OwnResult(g: nat, c: Call, log: seq<Event>) {
    && ((c.pc.Releasing? || c.pc.Leaving? || c.pc.Finished?) && c.pc.out.HasResult? ==>
          Correlates(g, c.v, c.id, c.pc.out.response) && c.id > 0 && HostCall(c.v, c.id) in log)
    && (c.pc.Waiting? ==> c.id > 0 && HostCall(c.v, c.id) in log)
  }

  ghost predicate CallOk(g: nat, c: Call, t: Transport) {
    && c.id <= t.nextId
    && (Unnumbered(c.pc) ==> c.id == 0)
    && (About(c.pc) ==> c.id == t.nextId && c.id > 0 && IdsBelow(t.log, c.id))
    && OwnResult(g, c, t.log)
  }

  ghost predicate Distinct(calls: map<nat, Call>) {
    forall j, k :: j in calls && k in calls && j != k && calls[j].id != 0 ==> calls[j].id != calls[k].id
  }

  ghost predicate Numbers(g: nat, calls: map<nat, Call>, t: Transport) {
    && t.nextId <= MAX_UINT64 && IdsBelow(t.log, t.nextId + 1) && Increasing(t.log)
    && Distinct(calls)
    && (forall k :: k in calls ==> CallOk(g, calls[k], t))
  }

  /** What the move of one call does to ids: it takes the next one, writes its
      own, or does neither. */
  ghost predicate NumbersOn(w: CallView, x: CallView) {
    || (x.t.nextId == w.t.nextId && x.t.log == w.t.log && x.c.id == w.c.id)
    || (w.c.pc.Locked? && x.c.pc.Numbered? && x.t.nextId == w.t.nextId + 1 <= MAX_UINT64
        && x.t.log == w.t.log && x.c.id == x.t.nextId)
    || (w.c.pc.Cleared? && x.c.pc.Waiting? && x.t.nextId == w.t.nextId
        && x.t.log == w.t.log + [HostCall(w.c.v, w.c.id)] && x.c.id == w.c.id)
  }

  lemma MoveNumbersOn(g: nat, k: nat, w: CallView, a: CallStep)
    requires CanMove(w, a) && CallOk(g, w.c, w.t) && w.t.nextId <= MAX_UINT64 && IdsBelow(w.t.log, w.t.nextId + 1)
    ensures NumbersOn(w, CallMove(g, k, w, a)) && CallOk(g, CallMove(g, k, w, a).c, CallMove(g, k, w, a).t)
    ensures CallMove(g, k, w, a).c.v == w.c.v
  {
    hide Correlates;
    if a.WriteCall? {
      assert CallMove(g, k, w, a).t.log[|w.t.log|] == HostCall(w.c.v, w.c.id);
    }
  }

  /** The move of a call does not disturb another. */
  lemma OtherCallOk(g: nat, c: Call, w: CallView, x: CallView)
    requires CallOk(g, c, w.t) && NumbersOn(w, x) && (x.t.nextId != w.t.nextId || x.t.log != w.t.log ==> !About(c.pc))
    ensures CallOk(g, c, x.t)
  {
    hide Correlates;
    assert forall e :: e in w.t.log ==> e in x.t.log;
  }

  lemma LogGrows(log: seq<Event>, e: Event, bound: nat)
    requires Increasing(log) && IdsBelow(log, bound) && (e.HostCall? ==> 0 < e.id == bound)
    ensures Increasing(log + [e]) && IdsBelow(log + [e], bound + 1)
  {
  }

  lemma NumbersMove(g: nat, calls: map<nat, Call>, k: nat, w: CallView, x: CallView)
    requires Numbers(g, calls, w.t) && Exclusive(calls, w.t) && k in calls && calls[k] == w.c
    requires NumbersOn(w, x) && CallOk(g, x.c, x.t)
    ensures Numbers(g, calls[k := x.c], x.t)
  {
    hide Correlates, OwnResult, IdsBelow, Increasing, CallOk;
    var after := calls[k := x.c];
    forall j | j in calls && j != k ensures CallOk(g, calls[j], x.t) {
      OtherCallOk(g, calls[j], w, x);
    }
    NumbersLog(g, w, x);
    NumbersDistinct(g, calls, k, w, x);
  }

  lemma NumbersLog(g: nat, w: CallView, x: CallView)
    requires NumbersOn(w, x) && w.t.nextId <= MAX_UINT64 && IdsBelow(w.t.log, w.t.nextId + 1) && Increasing(w.t.log)
    requires CallOk(g, w.c, w.t)
    ensures x.t.nextId <= MAX_UINT64 && IdsBelow(x.t.log, x.t.nextId + 1) && Increasing(x.t.log)
  {
    hide OwnResult;
    if x.t.log != w.t.log {
      LogGrows(w.t.log, HostCall(w.c.v, w.c.id), w.c.id);
    }
  }

  lemma NumbersDistinct(g: nat, calls: map<nat, Call>, k: nat, w: CallView, x: CallView)
    requires Numbers(g, calls, w.t) && k in calls && calls[k] == w.c && NumbersOn(w, x)
    ensures Distinct(calls[k := x.c])
  {
    hide OwnResult, IdsBelow, Increasing;
  }

  lemma NumbersGrow(g: nat, calls: map<nat, Call>, t: Transport, e: Event)
    requires Numbers(g, calls, t) && !e.HostCall?
    ensures Numbers(g, calls, t.(log := t.log + [e]))
  {
    hide Correlates;
    LogGrows(t.log, e, t.nextId + 1);
    assert forall f :: f in t.log ==> f in t.log + [e];
  }

  /** A step of the loop writes at most one event, never a host call. */
  lemma LoopLogs(s: State, a: LoopStep)
    requires LoopEnabled(s, a)
    ensures var t := LoopNext(s, a).t;
      t == s.t || (|t.log| > 0 && !t.log[|t.log| - 1].HostCall? && t == Wrote(s.t, t.log[|t.log| - 1]))
    ensures LoopNext(s, a).calls == s.calls && LoopNext(s, a).generation == s.generation
  {
    hide ValidInvocationId;
  }

  lemma WriterLogs(s: State, k: nat, a: WriteStep)
    requires WriteEnabled(s, k, a)
    ensures k in s.writers
    ensures var t := WriteNext(s, k, a).t;
      t == s.t || (a.WriteChunk? && WInLease(s.writers[k].pc) && t == Wrote(s.t, StderrChunk(s.writers[k].v)))
    ensures WriteNext(s, k, a).calls == s.calls && WriteNext(s, k, a).generation == s.generation
  {
  }

  lemma NumbersKept(s: State, step: Step)
    requires Numbers(s.generation, s.calls, s.t) && Exclusive(s.calls, s.t) && Enabled(s, step)
    ensures Numbers(s.generation, Apply(s, step).calls, Apply(s, step).t) && Apply(s, step).generation == s.generation
  {
    hide LoopEnabled, CanMove, CallMove, WriteEnabled, LoopNext, WriteNext, Exclusive, IdsBelow, Increasing, Correlates;
    match step
    case Loop(a) =>
      LoopLogs(s, a);
      var t := LoopNext(s, a).t;
      if t != s.t {
        NumbersGrow(s.generation, s.calls, s.t, t.log[|t.log| - 1]);
      }
    case OfCall(k, a) =>
      var w := CallView(s.calls[k], s.host[s.calls[k].v], s.t);
      MoveNumbersOn(s.generation, k, w, a);
      NumbersMove(s.generation, s.calls, k, w, CallMove(s.generation, k, w, a));
    case OfWrite(k, a) =>
      WriterLogs(s, k, a);
      if WriteNext(s, k, a).t != s.t {
        NumbersGrow(s.generation, s.calls, s.t, StderrChunk(s.writers[k].v));
      }
    case BeginCall(k, v) =>
    case BeginWrite(k, _) =>
    case Abort(_) =>
    case Poison =>
  }
}
