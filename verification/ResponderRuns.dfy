/** What every run of the responder keeps: no request is answered ok twice,
    the rate is bounded, and non-ok replies are spaced, for a source that
    stays in the table. */
module ResponderRuns {
  import opened Options
  import opened Bytes
  import opened NonceSpec
  import opened Frames
  import opened ResponderSpec

  datatype Step = Refresh(entries: seq<TableEntry>) | Datagram(now: int64, pkt: bytes, outLen: nat)

  ghost function Apply(mac: Mac, r: Responder, s: Step): Responder {
    match s
    case Refresh(entries) => SetTable(r, entries).0
    case Datagram(now, pkt, outLen) => Handle(mac, r, now, pkt, outLen).0
  }

  ghost function After(mac: Mac, r: Responder, steps: seq<Step>): Responder
    decreases steps
  {
    if steps == [] then r else After(mac, Apply(mac, r, steps[0]), steps[1..])
  }

  /** Room below 2^63 for two freshness windows, so no clock arithmetic wraps. */
  predicate ClockOk(now: int64) { 0 <= now < TWO_63 - 2 * FRESHNESS_NS - 2 }

  /** Datagrams arrive at times from t on that never go back. */
  ghost predicate Ordered(steps: seq<Step>, t: int) {
    steps == [] ||
    if steps[0].Refresh? then Ordered(steps[1..], t)
    else ClockOk(steps[0].now) && t <= steps[0].now && Ordered(steps[1..], steps[0].now)
  }

  /** id is in the table now and after every step. */
  ghost predicate Stays(mac: Mac, r: Responder, steps: seq<Step>, id: uint32)
    decreases steps
  {
    id in r.table && (steps == [] || Stays(mac, Apply(mac, r, steps[0]), steps[1..], id))
  }

  /** The verdict a step gives on a datagram of source id; refreshes and other
      sources' datagrams give none. */
  ghost function Answer(mac: Mac, r: Responder, s: Step, id: uint32): Option<Verdict> {
    if s.Datagram? && |s.pkt| == REQUEST_LEN && Fields(s.pkt).sourceId == id
    then Some(Handle(mac, r, s.now, s.pkt, s.outLen).1) else None
  }

  // The arithmetic does not wrap

  /** For any 64-bit sent stamp, fresh means within the window, and a fresh
      request's expiry is exact. */
  lemma FreshIsExact(start: int64, sent: int64, now: int64)
    requires start >= 0 && ClockOk(now)
    ensures Stale(start, sent, now) <==> sent < start || now - sent > FRESHNESS_NS || sent - now > FRESHNESS_NS
    ensures !Stale(start, sent, now) ==> ExpiryOf(sent) == sent + FRESHNESS_NS + 1 > now
  {
  }

  // Well-formed responders

  ghost predicate StateOk(st: State) {
    Wf(st.cache) && 0 <= st.credit <= CREDIT_NS && st.lastNs >= 0 && st.lastNamed >= 0
  }

  ghost predicate Ok(r: Responder) {
    r.start >= 0 && forall id :: id in r.table ==> StateOk(r.table[id].state)
  }

  lemma NameKeepsOk(st: State, now: int64, v: Verdict)
    requires StateOk(st) && ClockOk(now)
    ensures StateOk(Name(st, now, v).0)
  {
    hide Wf;
  }

  lemma AllowKeepsOk(st: State, now: int64)
    requires StateOk(st) && ClockOk(now)
    ensures StateOk(Allow(st, now).0)
  {
    hide Wf;
  }

  lemma DecideKeepsOk(start: int64, st: State, retired: bool, now: int64, req: Request)
    requires StateOk(st) && ClockOk(now)
    ensures StateOk(Decide(start, st, retired, now, req).0)
  {
    hide Wf, Insert, Seen, Name, Allow, Stale, ExpiryOf;
    InsertKeepsWf(st.cache, req.nonce, ExpiryOf(req.sent), now);
    var held := st.(cache := Insert(st.cache, req.nonce, ExpiryOf(req.sent), now).0);
    AllowKeepsOk(held, now);
    NameKeepsOk(st, now, ReplyUnknownEpoch);
    NameKeepsOk(st, now, ReplyStale);
    NameKeepsOk(held, now, ReplyRateLimited);
    NameKeepsOk(Allow(held, now).0, now, ReplyRateLimited);
  }

  lemma ApplyKeepsOk(mac: Mac, r: Responder, s: Step)
    requires Ok(r) && (s.Datagram? ==> ClockOk(s.now))
    ensures Ok(Apply(mac, r, s))
    ensures Apply(mac, r, s).start == r.start
  {
    match s
    case Refresh(entries) =>
      if Build(r.table, entries).Some? {
        BuildKeepsState(r.table, entries);
        assert StateOk(FRESH);
      }
    case Datagram(now, pkt, outLen) =>
      var m := Authenticate(mac, r.table, pkt, outLen);
      if m.Matched? {
        DecideKeepsOk(r.start, r.table[m.request.sourceId].state, m.epoch.retired, now, m.request);
      }
  }

  lemma {:induction false} ReachedOk(mac: Mac, r: Responder, steps: seq<Step>)
    requires Ok(r) && forall i :: 0 <= i < |steps| && steps[i].Datagram? ==> ClockOk(steps[i].now)
    ensures Ok(After(mac, r, steps))
    decreases steps
  {
    if steps != [] {
      ApplyKeepsOk(mac, r, steps[0]);
      ReachedOk(mac, Apply(mac, r, steps[0]), steps[1..]);
    }
  }

  /** In every run the tables in force list no epoch of a source twice, so an
      authenticated datagram is matched with the one epoch it names. */
  lemma {:induction false} ReachedDistinct(mac: Mac, r: Responder, steps: seq<Step>)
    requires forall id :: id in r.table ==> DistinctEpochs(r.table[id].epochs)
    ensures forall id :: id in After(mac, r, steps).table ==> DistinctEpochs(After(mac, r, steps).table[id].epochs)
    decreases steps
  {
    hide DistinctEpochs, Apply;
    if steps != [] {
      ApplyDistinct(mac, r, steps[0]);
      ReachedDistinct(mac, Apply(mac, r, steps[0]), steps[1..]);
    }
  }

  lemma ApplyDistinct(mac: Mac, r: Responder, s: Step)
    requires forall id :: id in r.table ==> DistinctEpochs(r.table[id].epochs)
    ensures forall id :: id in Apply(mac, r, s).table ==> DistinctEpochs(Apply(mac, r, s).table[id].epochs)
  {
    hide DistinctEpochs, Decide, Authenticate, Build;
    if s.Refresh? && Build(r.table, s.entries).Some? {
      BuildDistinct(r.table, s.entries);
    }
  }

  /** A step reaches a source's state only by deciding an authenticated
      datagram of that source. */
  lemma StateAfter(mac: Mac, r: Responder, s: Step, id: uint32) returns (decides: bool, retired: bool)
    requires id in r.table && id in Apply(mac, r, s).table
    ensures !decides ==> Apply(mac, r, s).table[id].state == r.table[id].state
    ensures !decides && Answer(mac, r, s, id).Some? ==> !Replied(Answer(mac, r, s, id).value)
    ensures decides ==>
      && s.Datagram? && |s.pkt| == REQUEST_LEN && Fields(s.pkt).sourceId == id
      && (Apply(mac, r, s).table[id].state, Answer(mac, r, s, id).value)
           == Decide(r.start, r.table[id].state, retired, s.now, Fields(s.pkt))
  {
    decides, retired := false, false;
    match s
    case Refresh(entries) =>
      if Build(r.table, entries).Some? {
        BuildKeepsState(r.table, entries);
      }
    case Datagram(now, pkt, outLen) =>
      var m := Authenticate(mac, r.table, pkt, outLen);
      if m.Matched? && m.request.sourceId == id {
        decides, retired := true, m.epoch.retired;
      }
  }

  // Replay

  /** From t on, a request (nonce, sent) cannot be answered ok: its nonce is
      held until the request is stale, or it is stale already. */
  ghost predicate Spent(st: State, n: Nonce, sent: int64, t: int) {
    t > sent + FRESHNESS_NS || (n in st.cache.held && st.cache.held[n] == sent + FRESHNESS_NS + 1)
  }

  /** An insert at a time before the expiry neither drops nor overwrites. */
  lemma InsertKeepsHeld(c: Cache, n: Nonce, m: Nonce, e: int, now: int)
    requires n in c.held && c.held[n] > now && m != n
    ensures var d := Insert(c, m, e, now).0; n in d.held && d.held[n] == c.held[n]
  {
  }

  lemma DecideKeepsSpent(start: int64, st: State, retired: bool, now: int64, r: Request, n: Nonce, sent: int64, t: int)
    requires Spent(st, n, sent, t) && t <= now && ClockOk(now) && start >= 0
    ensures Spent(Decide(start, st, retired, now, r).0, n, sent, now)
    ensures r.nonce == n && r.sent == sent ==> Decide(start, st, retired, now, r).1 != ReplyOK
  {
    FreshIsExact(start, r.sent, now);
    if now <= sent + FRESHNESS_NS && r.nonce != n {
      InsertKeepsHeld(st.cache, n, r.nonce, ExpiryOf(r.sent), now);
    }
    hide Insert;
  }

  /** The request reached the nonce cache and was held by it, whether or not
      the rate then let it be answered. */
  ghost predicate Takes(start: int64, st: State, retired: bool, now: int64, r: Request) {
    Counts(start, st, retired, now, r) && Insert(st.cache, r.nonce, ExpiryOf(r.sent), now).1
  }

  lemma TakenIsSpent(start: int64, st: State, retired: bool, now: int64, r: Request)
    requires ClockOk(now) && start >= 0
    ensures Decide(start, st, retired, now, r).1 == ReplyOK ==> Takes(start, st, retired, now, r)
    ensures Takes(start, st, retired, now, r) ==> Spent(Decide(start, st, retired, now, r).0, r.nonce, r.sent, now)
  {
    FreshIsExact(start, r.sent, now);
  }

  /** The request a datagram carries, by source, nonce and sent stamp. */
  predicate Carries(s: Step, id: uint32, n: Nonce, sent: int64) {
    s.Datagram? && |s.pkt| == REQUEST_LEN &&
    var f := Fields(s.pkt); f.sourceId == id && f.nonce == n && f.sent == sent
  }

  ghost predicate AnsweredOk(mac: Mac, r: Responder, steps: seq<Step>, i: nat, id: uint32, n: Nonce, sent: int64)
    requires i < |steps|
  {
    Carries(steps[i], id, n, sent) &&
    Handle(mac, After(mac, r, steps[..i]), steps[i].now, steps[i].pkt, steps[i].outLen).1 == ReplyOK
  }

  lemma AfterStep(mac: Mac, r: Responder, steps: seq<Step>, i: nat)
    requires 0 < i <= |steps|
    ensures After(mac, r, steps[..i]) == After(mac, Apply(mac, r, steps[0]), steps[1..][..i - 1])
  {
    assert steps[..i][1..] == steps[1..][..i - 1];
  }

  /** Once spent, a request is never answered ok. */
  lemma {:induction false} SpentNeverOk(mac: Mac, r: Responder, steps: seq<Step>, j: nat, id: uint32, n: Nonce,
      sent: int64, t: int)
    requires Ok(r) && j < |steps| && Ordered(steps, t) && Stays(mac, r, steps, id)
    requires Spent(r.table[id].state, n, sent, t)
    ensures !AnsweredOk(mac, r, steps, j, id, n, sent)
    decreases steps
  {
    hide Spent, Handle, Carries, SetTable, StateOk;
    var s := steps[0];
    var r' := Apply(mac, r, s);
    ApplyKeepsOk(mac, r, s);
    SpentAfter(mac, r, s, id, n, sent, t);
    if j == 0 {
      assert steps[..0] == [];
    } else {
      AfterStep(mac, r, steps, j);
      SpentNeverOk(mac, r', steps[1..], j - 1, id, n, sent, if s.Datagram? then s.now else t);
    }
  }

  lemma SpentAfter(mac: Mac, r: Responder, s: Step, id: uint32, n: Nonce, sent: int64, t: int)
    requires Ok(r) && id in r.table && id in Apply(mac, r, s).table && Spent(r.table[id].state, n, sent, t)
    requires s.Datagram? ==> ClockOk(s.now) && t <= s.now
    ensures Spent(Apply(mac, r, s).table[id].state, n, sent, if s.Datagram? then s.now else t)
    ensures Carries(s, id, n, sent) ==> Handle(mac, r, s.now, s.pkt, s.outLen).1 != ReplyOK
  {
    var decides, retired := StateAfter(mac, r, s, id);
    if decides {
      DecideKeepsSpent(r.start, r.table[id].state, retired, s.now, Fields(s.pkt), n, sent, t);
    }
    hide Decide;
  }

  /** Step i is a datagram of the request that the cache took. */
  ghost predicate Taken(mac: Mac, r: Responder, steps: seq<Step>, i: nat, id: uint32, n: Nonce, sent: int64)
    requires i < |steps|
  {
    Carries(steps[i], id, n, sent) &&
    var r' := After(mac, r, steps[..i]);
    var m := Authenticate(mac, r'.table, steps[i].pkt, steps[i].outLen);
    m.Matched? && Takes(r'.start, r'.table[id].state, m.epoch.retired, steps[i].now, m.request)
  }

  lemma FirstTaken(mac: Mac, r: Responder, steps: seq<Step>, j: nat, id: uint32, n: Nonce, sent: int64)
    requires Ok(r) && 0 < j < |steps| && Ordered(steps, 0) && Stays(mac, r, steps, id)
    requires Taken(mac, r, steps, 0, id, n, sent)
    ensures !AnsweredOk(mac, r, steps, j, id, n, sent)
  {
    hide Takes, Insert, Wf, Decide, Spent, SetTable, Name, Allow, StateOk, Counts;
    var s := steps[0];
    assert steps[..0] == [];
    var m := Authenticate(mac, r.table, s.pkt, s.outLen);
    TakenIsSpent(r.start, r.table[id].state, m.epoch.retired, s.now, m.request);
    ApplyKeepsOk(mac, r, s);
    SpentNeverOk(mac, Apply(mac, r, s), steps[1..], j - 1, id, n, sent, s.now);
    AfterStep(mac, r, steps, j);
  }

  /** A request the cache took is never answered ok later, even when it was
      refused for rate the first time. Between the two datagrams the clock does
      not go back and the source stays in every accepted table; the run may
      refresh tables, rotate epochs, refuse tables, fill and compact the cache
      as it likes. */
  lemma TakenNeverOkAgain(mac: Mac, start: int64, steps: seq<Step>, i: nat, j: nat, id: uint32, n: Nonce, sent: int64)
    requires start >= 0 && i < j < |steps|
    requires forall k :: 0 <= k < |steps| && steps[k].Datagram? ==> ClockOk(steps[k].now)
    requires Ordered(steps[i..], 0) && Stays(mac, After(mac, New(start), steps[..i]), steps[i..], id)
    requires Taken(mac, New(start), steps, i, id, n, sent)
    ensures !AnsweredOk(mac, New(start), steps, j, id, n, sent)
  {
    hide Carries, Takes, Stays, Ordered, Apply, Authenticate, Handle;
    ReachedOk(mac, New(start), steps[..i]);
    assert steps[i..][..0] == [];
    FirstTaken(mac, After(mac, New(start), steps[..i]), steps[i..], j - i, id, n, sent);
    AfterSplit(mac, New(start), steps[..i], steps[i..][..j - i]);
    assert steps[..j] == steps[..i] + steps[i..][..j - i];
  }

  /** No request is answered ok twice. */
  lemma NeverOkTwice(mac: Mac, start: int64, steps: seq<Step>, i: nat, j: nat, id: uint32, n: Nonce, sent: int64)
    requires start >= 0 && i < j < |steps|
    requires forall k :: 0 <= k < |steps| && steps[k].Datagram? ==> ClockOk(steps[k].now)
    requires Ordered(steps[i..], 0) && Stays(mac, After(mac, New(start), steps[..i]), steps[i..], id)
    ensures !(AnsweredOk(mac, New(start), steps, i, id, n, sent) && AnsweredOk(mac, New(start), steps, j, id, n, sent))
  {
    if AnsweredOk(mac, New(start), steps, i, id, n, sent) {
      OkIsTaken(mac, New(start), steps, i, id, n, sent);
      TakenNeverOkAgain(mac, start, steps, i, j, id, n, sent);
    }
  }

  lemma OkIsTaken(mac: Mac, r: Responder, steps: seq<Step>, i: nat, id: uint32, n: Nonce, sent: int64)
    requires Ok(r) && i < |steps| && AnsweredOk(mac, r, steps, i, id, n, sent)
    requires forall k :: 0 <= k < |steps| && steps[k].Datagram? ==> ClockOk(steps[k].now)
    ensures Taken(mac, r, steps, i, id, n, sent)
  {
    ReachedOk(mac, r, steps[..i]);
    var r', s := After(mac, r, steps[..i]), steps[i];
    var m := Authenticate(mac, r'.table, s.pkt, s.outLen);
    TakenIsSpent(r'.start, r'.table[id].state, m.epoch.retired, s.now, m.request);
  }

  lemma {:induction false} AfterSplit(mac: Mac, r: Responder, a: seq<Step>, b: seq<Step>)
    ensures After(mac, r, a + b) == After(mac, After(mac, r, a), b)
    decreases a
  {
    if a == [] {
      assert a + b == b;
    } else {
      AfterSplit(mac, Apply(mac, r, a[0]), a[1..], b);
      assert (a + b)[1..] == a[1..] + b;
    }
  }

  // Rate

  /** The credit a source would have at t. */
  function Available(st: State, t: int): int {
    if st.lastNs != 0 && t > st.lastNs && st.credit + t - st.lastNs < CREDIT_NS then st.credit + t - st.lastNs
    else if st.lastNs != 0 && t > st.lastNs then CREDIT_NS
    else st.credit
  }

  ghost function OkCount(mac: Mac, r: Responder, steps: seq<Step>, id: uint32): nat
    decreases steps
  {
    if steps == [] then 0 else
    var first := if Answer(mac, r, steps[0], id) == Some(ReplyOK) then 1 else 0;
    first + OkCount(mac, Apply(mac, r, steps[0]), steps[1..], id)
  }

  lemma NameKeepsCredit(st: State, now: int64, v: Verdict)
    ensures var (st', w) := Name(st, now, v);
      st'.credit == st.credit && st'.lastNs == st.lastNs && (w == ReplyOK ==> v == ReplyOK)
  {
  }

  lemma AllowSpendsCredit(st: State, now: int64)
    requires 0 <= st.credit <= CREDIT_NS && st.lastNs >= 0 && ClockOk(now)
    ensures Available(Allow(st, now).0, now) + (if Allow(st, now).1 then COST_NS else 0) <= Available(st, now)
  {
  }

  lemma DecideSpendsCredit(start: int64, st: State, retired: bool, now: int64, r: Request)
    requires StateOk(st) && ClockOk(now)
    ensures var (st', v) := Decide(start, st, retired, now, r);
      Available(st', now) + (if v == ReplyOK then COST_NS else 0) <= Available(st, now)
  {
    hide Insert, Wf, Seen, Name, Allow, Stale, ExpiryOf;
    var held := st.(cache := Insert(st.cache, r.nonce, ExpiryOf(r.sent), now).0);
    AllowSpendsCredit(held, now);
    NameKeepsCredit(st, now, ReplyUnknownEpoch);
    NameKeepsCredit(st, now, ReplyStale);
    NameKeepsCredit(held, now, ReplyRateLimited);
    NameKeepsCredit(Allow(held, now).0, now, ReplyRateLimited);
  }

  lemma AvailableGrows(st: State, t: int, u: int)
    requires StateOk(st) && t <= u
    ensures Available(st, u) <= Available(st, t) + (u - t)
    ensures 0 <= Available(st, u) <= CREDIT_NS
  {
  }

  lemma StepSpendsCredit(mac: Mac, r: Responder, s: Step, id: uint32, t: int)
    requires Ok(r) && id in r.table && id in Apply(mac, r, s).table
    requires s.Datagram? ==> ClockOk(s.now) && t <= s.now
    ensures var u := if s.Datagram? then s.now else t;
      Available(Apply(mac, r, s).table[id].state, u) + (if Answer(mac, r, s, id) == Some(ReplyOK) then COST_NS else 0)
        <= Available(r.table[id].state, t) + (u - t)
  {
    var decides, retired := StateAfter(mac, r, s, id);
    AvailableGrows(r.table[id].state, t, if s.Datagram? then s.now else t);
    if decides {
      DecideSpendsCredit(r.start, r.table[id].state, retired, s.now, Fields(s.pkt));
    }
    hide Decide, Available;
  }

  lemma {:induction false} CreditBound(mac: Mac, r: Responder, steps: seq<Step>, id: uint32, t: int, end: int)
    requires Ok(r) && Ordered(steps, t) && Stays(mac, r, steps, id)
    requires t <= end && forall i :: 0 <= i < |steps| && steps[i].Datagram? ==> steps[i].now <= end
    ensures OkCount(mac, r, steps, id) * 50_000_000 <= Available(r.table[id].state, t) + (end - t)
    decreases steps
  {
    if steps == [] {
      AvailableGrows(r.table[id].state, t, t);
    } else {
      hide Available, Answer, Apply, Ok;
      var s := steps[0];
      ApplyKeepsOk(mac, r, s);
      StepSpendsCredit(mac, r, s, id, t);
      CreditBound(mac, Apply(mac, r, s), steps[1..], id, if s.Datagram? then s.now else t, end);
    }
  }

  /** In any stretch of a run from `begin` to `end` in which the clock does not
      go back and the source stays, its ok replies cost at most one second of
      credit plus the time elapsed; refreshes do not loosen this. */
  lemma RateBound(mac: Mac, start: int64, before: seq<Step>, stretch: seq<Step>, id: uint32, begin: int, end: int)
    requires start >= 0
    requires forall k :: 0 <= k < |before| && before[k].Datagram? ==> ClockOk(before[k].now)
    requires Ordered(stretch, begin) && begin <= end
    requires forall k :: 0 <= k < |stretch| && stretch[k].Datagram? ==> stretch[k].now <= end
    requires Stays(mac, After(mac, New(start), before), stretch, id)
    ensures OkCount(mac, After(mac, New(start), before), stretch, id) * COST_NS <= CREDIT_NS + (end - begin)
  {
    var r := After(mac, New(start), before);
    ReachedOk(mac, New(start), before);
    CreditBound(mac, r, stretch, id, begin, end);
    AvailableGrows(r.table[id].state, begin, begin);
  }

  // Non-ok replies

  ghost predicate NamedAt(mac: Mac, r: Responder, steps: seq<Step>, i: nat, id: uint32)
    requires i < |steps|
  {
    var a := Answer(mac, After(mac, r, steps[..i]), steps[i], id);
    a.Some? && Named(a.value)
  }

  lemma DecideNames(start: int64, st: State, retired: bool, now: int64, r: Request, t: int, last: int)
    requires StateOk(st) && ClockOk(now) && 0 < last <= st.lastNamed <= t <= now
    ensures var (st', v) := Decide(start, st, retired, now, r);
      last <= st'.lastNamed <= now && (Named(v) ==> now - last >= NAMED_INTERVAL_NS)
  {
    hide Insert, Wf, Seen;
  }

  lemma StepNames(mac: Mac, r: Responder, s: Step, id: uint32, t: int, last: int)
    requires Ok(r) && id in r.table && id in Apply(mac, r, s).table
    requires 0 < last <= r.table[id].state.lastNamed <= t
    requires s.Datagram? ==> ClockOk(s.now) && t <= s.now
    ensures last <= Apply(mac, r, s).table[id].state.lastNamed <= if s.Datagram? then s.now else t
    ensures Answer(mac, r, s, id).Some? && Named(Answer(mac, r, s, id).value) ==> s.now - last >= NAMED_INTERVAL_NS
  {
    var decides, retired := StateAfter(mac, r, s, id);
    if decides {
      DecideNames(r.start, r.table[id].state, retired, s.now, Fields(s.pkt), t, last);
    }
    hide Decide;
  }

  lemma {:induction false} NamedLater(mac: Mac, r: Responder, steps: seq<Step>, j: nat, id: uint32, t: int, last: int)
    requires Ok(r) && j < |steps| && Ordered(steps, t) && Stays(mac, r, steps, id)
    requires 0 < last <= r.table[id].state.lastNamed <= t
    requires NamedAt(mac, r, steps, j, id)
    ensures steps[j].now - last >= NAMED_INTERVAL_NS
    decreases steps
  {
    var s := steps[0];
    ApplyKeepsOk(mac, r, s);
    StepNames(mac, r, s, id, t, last);
    assert steps[..0] == [];
    if j > 0 {
      AfterStep(mac, r, steps, j);
      hide Answer, Apply, StateOk;
      NamedLater(mac, Apply(mac, r, s), steps[1..], j - 1, id, if s.Datagram? then s.now else t, last);
    }
  }

  lemma DecideMarksNamed(start: int64, st: State, retired: bool, now: int64, r: Request)
    ensures var (st', v) := Decide(start, st, retired, now, r); Named(v) ==> st'.lastNamed == now
  {
    hide Insert, Seen;
  }

  /** Two non-ok replies to a source that stays, at times that do not go back,
      are at least one second apart; a first one at clock zero is the sentinel
      and leaves no mark. */
  lemma NamedSpacing(mac: Mac, start: int64, steps: seq<Step>, i: nat, j: nat, id: uint32)
    requires start >= 0 && i < j < |steps|
    requires forall k :: 0 <= k < |steps| && steps[k].Datagram? ==> ClockOk(steps[k].now)
    requires Ordered(steps[i..], 0) && Stays(mac, After(mac, New(start), steps[..i]), steps[i..], id)
    requires NamedAt(mac, New(start), steps, i, id) && NamedAt(mac, New(start), steps, j, id)
    requires steps[i].now > 0
    ensures steps[j].now - steps[i].now >= NAMED_INTERVAL_NS
  {
    hide Answer, Apply, Decide;
    ReachedOk(mac, New(start), steps[..i]);
    assert steps[i..][..0] == [];
    AfterSplit(mac, New(start), steps[..i], steps[i..][..j - i]);
    assert steps[..j] == steps[..i] + steps[i..][..j - i];
    FirstNamed(mac, After(mac, New(start), steps[..i]), steps[i..], j - i, id);
  }

  lemma FirstNamed(mac: Mac, r: Responder, steps: seq<Step>, j: nat, id: uint32)
    requires Ok(r) && 0 < j < |steps| && Ordered(steps, 0) && Stays(mac, r, steps, id)
    requires NamedAt(mac, r, steps, 0, id) && NamedAt(mac, r, steps, j, id) && steps[0].now > 0
    ensures steps[j].now - steps[0].now >= NAMED_INTERVAL_NS
  {
    hide Answer, Apply, Ok, Insert, Wf, Decide, Name, Allow, Handle, Authenticate, SetTable, StateOk;
    var s := steps[0];
    assert steps[..0] == [];
    AnsweredIsDatagram(mac, r, s, id);
    MarksNamed(mac, r, s, id);
    ApplyKeepsOk(mac, r, s);
    AfterStep(mac, r, steps, j);
    NamedLater(mac, Apply(mac, r, s), steps[1..], j - 1, id, s.now, s.now);
  }

  lemma AnsweredIsDatagram(mac: Mac, r: Responder, s: Step, id: uint32)
    requires Answer(mac, r, s, id).Some?
    ensures s.Datagram?
  {
  }

  lemma MarksNamed(mac: Mac, r: Responder, s: Step, id: uint32)
    requires id in r.table && id in Apply(mac, r, s).table
    requires Answer(mac, r, s, id).Some? && Named(Answer(mac, r, s, id).value)
    ensures Apply(mac, r, s).table[id].state.lastNamed == s.now
  {
    var decides, retired := StateAfter(mac, r, s, id);
    DecideMarksNamed(r.start, r.table[id].state, retired, s.now, Fields(s.pkt));
    hide Decide;
  }

  /** The limiter itself: after a non-ok reply at t, one at u is let through
      exactly when a second has passed, or t was the sentinel zero. */
  lemma SecondNamedIff(st: State, t: int64, u: int64, v: Verdict, w: Verdict)
    requires ClockOk(t) && ClockOk(u) && t <= u && Named(v) && Named(w) && Name(st, t, v).1 == v
    ensures Name(Name(st, t, v).0, u, w).1 == w <==> t == 0 || u - t >= NAMED_INTERVAL_NS
  {
    assert Wrap64(u - t) == u - t;
  }

  /** A run with two non-ok replies at clock zero: a request signed for a
      retired epoch, received twice. */
  lemma TwoNamedAtZero(mac: Mac, key: Key, nonce: Nonce) returns (steps: seq<Step>)
    requires NonceFits(nonce)
    ensures |steps| == 3 && steps[1].Datagram? && steps[2].Datagram? && steps[1].now == steps[2].now == 0
    ensures Ordered(steps, 0) && Stays(mac, After(mac, New(0), steps[..1]), steps[1..], 1)
    ensures NamedAt(mac, New(0), steps, 1, 1) && NamedAt(mac, New(0), steps, 2, 1)
  {
    hide Fields, SignedRequest, Stays, Authenticate, CheckRequestFrame, Build;
    var entry := TableEntry(1, 1, key, true);
    var req := Request(1, 1, 0, 0, nonce);
    var pkt := SignedRequest(mac, key, req);
    var step := Datagram(0, pkt, REPLY_LEN);
    steps := [Refresh([entry]), step, step];
    RequestRoundTrip(mac, key, req);
    OneEntry(entry);
    var ep := Epoch(1, true, key);
    var table := map[1 := Source([ep], FRESH)];
    var r1 := Responder(0, table, 0);
    assert Apply(mac, New(0), steps[0]) == r1;
    RetiredNamed(mac, r1, pkt, ep, FRESH);
    var named := FRESH.(lastNamed := 0);
    assert named == FRESH && Apply(mac, r1, step) == r1;
    assert steps[..1] == [steps[0]] && steps[..2] == [steps[0], step] && steps[1..] == [step, step];
    assert steps[..1][1..] == [] && steps[..2][1..] == [step] && [step][1..] == [] && [step, step][1..] == [step];
    assert After(mac, New(0), steps[..1]) == r1;
    assert After(mac, r1, [step]) == r1;
    assert After(mac, New(0), steps[..2]) == r1;
    StaysPut(mac, r1, step, 1);
    assert steps[1..][1..] == [step];
    OrderedAtZero(step);
  }

  lemma OrderedAtZero(s: Step)
    requires s.Datagram? && s.now == 0
    ensures Ordered([s, s], 0)
  {
    assert [s, s][1..] == [s] && [s][1..] == [] && Ordered([], 0);
    assert Ordered([s], 0);
  }

  lemma OneEntry(e: TableEntry)
    requires e.sourceId != 0 && e.epoch != 0
    ensures Build(map[], [e]) == Some(map[e.sourceId := Source([Epoch(e.epoch, e.retired, e.key)], FRESH)])
  {
    assert [e][..|[e]| - 1] == [] && Build(map[], []) == Some(map[]);
    assert Some(map[]) == Build(map[], [e][..|[e]| - 1]);
    assert !HoldsEpoch([], e.epoch);
    assert [] + [Epoch(e.epoch, e.retired, e.key)] == [Epoch(e.epoch, e.retired, e.key)];
  }

  /** At clock zero a request of a retired epoch is named and leaves no mark. */
  lemma RetiredNamed(mac: Mac, r: Responder, pkt: bytes, ep: Epoch, st: State)
    requires |pkt| == REQUEST_LEN && VerifyRequest(mac, ep.key, pkt) && ep.retired && ep.epoch == Fields(pkt).epoch
    requires st.lastNamed == 0 && r.table == map[Fields(pkt).sourceId := Source([ep], st)]
    ensures Handle(mac, r, 0, pkt, REPLY_LEN) == (r, ReplyUnknownEpoch)
  {
    hide Fields, CheckRequestFrame, Tag;
    MatchedIff(mac, r.table, pkt, REPLY_LEN, ep);
    hide Authenticate;
    var id := Fields(pkt).sourceId;
    assert r.table[id := r.table[id].(state := st)] == r.table;
  }

  lemma StaysPut(mac: Mac, r: Responder, s: Step, id: uint32)
    requires id in r.table && Apply(mac, r, s) == r
    ensures Stays(mac, r, [s, s], id)
  {
    hide Apply;
    assert [s, s][1..] == [s] && [s][1..] == [];
    assert Stays(mac, r, [], id);
    assert Stays(mac, r, [s], id);
  }
}
