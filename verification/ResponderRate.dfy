/** The other half of the rate: a request is refused for rate only when
    answering it would break the bound on some stretch of the run. */
module ResponderRate {
  import opened Options
  import opened Bytes
  import opened NonceSpec
  import opened Frames
  import opened ResponderSpec
  import opened ResponderRuns

  // One step's exact effect on the credit

  lemma RefillIsExact(st: State, now: int64)
    requires 0 <= st.credit <= CREDIT_NS && st.lastNs >= 0 && ClockOk(now)
    ensures Refilled(st, now) == Available(st, now)
  {
  }

  lemma AllowIsExact(st: State, now: int64)
    requires 0 <= st.credit <= CREDIT_NS && st.lastNs >= 0 && ClockOk(now)
    ensures var (st', ok) := Allow(st, now);
      && (ok <==> Available(st, now) >= COST_NS) && st'.lastNs == now
      && st'.credit == Available(st, now) - if ok then COST_NS else 0
  {
    RefillIsExact(st, now);
    hide Refilled;
  }

  /** What accrued since a charge at t comes back at u, one second at most,
      unless t was the sentinel zero: then nothing does. */
  lemma RefillUnlessZero(st: State, t: int64, u: int64)
    requires 0 <= st.credit <= CREDIT_NS && st.lastNs >= 0 && ClockOk(t) && ClockOk(u) && t <= u
    ensures var left := Allow(st, t).0;
      var due := if left.credit + (u - t) < 1_000_000_000 then left.credit + (u - t) else 1_000_000_000;
      Allow(left, u).1 <==> (if t > 0 then due else left.credit) >= 50_000_000
  {
    AllowIsExact(st, t);
    AllowIsExact(Allow(st, t).0, u);
    hide Allow;
  }

  /** A state's credit moves as the limiter says when the cache takes the
      request, and not at all otherwise. */
  ghost predicate Charges(st: State, st': State, now: int64, takes: bool, ok: bool) {
    if takes then
      && (ok <==> Available(st, now) >= COST_NS) && st'.lastNs == now
      && st'.credit == Available(st, now) - if ok then COST_NS else 0
    else !ok && st'.credit == st.credit && st'.lastNs == st.lastNs
  }

  lemma DecideCharges(start: int64, st: State, retired: bool, now: int64, r: Request)
    requires StateOk(st) && ClockOk(now)
    ensures var (st', v) := Decide(start, st, retired, now, r);
      Charges(st, st', now, Takes(start, st, retired, now, r), v == ReplyOK)
  {
    hide Insert, Wf, Seen, Name, Allow, Stale, ExpiryOf, Available;
    var held := st.(cache := Insert(st.cache, r.nonce, ExpiryOf(r.sent), now).0);
    AllowIsExact(held, now);
    SameCredit(st, held, now);
    NameKeepsCredit(st, now, ReplyUnknownEpoch);
    NameKeepsCredit(st, now, ReplyStale);
    NameKeepsCredit(held, now, ReplyRateLimited);
    NameKeepsCredit(Allow(held, now).0, now, ReplyRateLimited);
  }

  lemma SameCredit(st: State, other: State, now: int)
    requires st.credit == other.credit && st.lastNs == other.lastNs
    ensures Available(st, now) == Available(other, now)
  {
  }

  /** Whether the cache takes a datagram of source id at this step. */
  ghost predicate TakesAt(mac: Mac, r: Responder, s: Step, id: uint32) {
    s.Datagram? &&
    var m := Authenticate(mac, r.table, s.pkt, s.outLen);
    m.Matched? && m.request.sourceId == id && Takes(r.start, r.table[id].state, m.epoch.retired, s.now, m.request)
  }

  ghost function OkAt(mac: Mac, r: Responder, s: Step, id: uint32): nat {
    if Answer(mac, r, s, id) == Some(ReplyOK) then 1 else 0
  }

  lemma StepCharges(mac: Mac, r: Responder, s: Step, id: uint32)
    requires ResponderRuns.Ok(r) && id in r.table && id in Apply(mac, r, s).table && s.Datagram? && ClockOk(s.now)
    ensures Charges(r.table[id].state, Apply(mac, r, s).table[id].state, s.now,
                    TakesAt(mac, r, s, id), OkAt(mac, r, s, id) == 1)
  {
    hide Decide, Charges, Takes, StateOk;
    var m := Authenticate(mac, r.table, s.pkt, s.outLen);
    if m.Matched? && m.request.sourceId == id {
      DecideCharges(r.start, r.table[id].state, m.epoch.retired, s.now, m.request);
    } else {
      assert Apply(mac, r, s).table[id].state == r.table[id].state;
      NothingCharged(r.table[id].state, s.now);
    }
  }

  lemma NothingCharged(st: State, now: int64)
    ensures Charges(st, st, now, false, false)
  {
  }

  lemma RefreshKeepsState(mac: Mac, r: Responder, s: Step, id: uint32)
    requires s.Refresh? && id in r.table && id in Apply(mac, r, s).table
    ensures Apply(mac, r, s).table[id].state == r.table[id].state && OkAt(mac, r, s, id) == 0
  {
    if Build(r.table, s.entries).Some? {
      BuildKeepsState(r.table, s.entries);
    }
  }

  // Positions of a run

  lemma {:induction false} OrderedAt(steps: seq<Step>, t: int, i: nat)
    requires Ordered(steps, t) && i < |steps| && steps[i].Datagram?
    ensures ClockOk(steps[i].now) && t <= steps[i].now && Ordered(steps[i + 1..], steps[i].now)
    decreases i
  {
    if i == 0 {
      assert steps[0 + 1..] == steps[1..];
    } else {
      OrderedAt(steps[1..], if steps[0].Datagram? then steps[0].now else t, i - 1);
      assert steps[1..][i - 1 + 1..] == steps[i + 1..];
    }
  }

  lemma OrderedPair(steps: seq<Step>, t: int, i: nat, j: nat)
    requires Ordered(steps, t) && i <= j < |steps| && steps[i].Datagram? && steps[j].Datagram?
    ensures t <= steps[i].now <= steps[j].now && ClockOk(steps[i].now) && ClockOk(steps[j].now)
  {
    OrderedAt(steps, t, i);
    OrderedAt(steps, t, j);
    if i < j {
      OrderedAt(steps[i + 1..], steps[i].now, j - i - 1);
    }
  }

  lemma {:induction false} StaysAt(mac: Mac, r: Responder, steps: seq<Step>, id: uint32, i: nat)
    requires Stays(mac, r, steps, id) && i <= |steps|
    ensures id in After(mac, r, steps[..i]).table
    decreases i
  {
    hide Apply;
    if i == 0 {
      assert steps[..0] == [];
    } else {
      StaysAt(mac, Apply(mac, r, steps[0]), steps[1..], id, i - 1);
      AfterStep(mac, r, steps, i);
    }
  }

  lemma AfterMore(mac: Mac, r: Responder, steps: seq<Step>, i: nat)
    requires i < |steps|
    ensures After(mac, r, steps[..i + 1]) == Apply(mac, After(mac, r, steps[..i]), steps[i])
  {
    hide Apply;
    AfterSplit(mac, r, steps[..i], [steps[i]]);
    assert steps[..i + 1] == steps[..i] + [steps[i]];
    assert [steps[i]][1..] == [];
  }

  /** The ok replies to id between two positions of a run. */
  ghost function OkBetween(mac: Mac, r: Responder, steps: seq<Step>, id: uint32, i: nat, j: nat): nat
    requires i <= j <= |steps|
  {
    OkCount(mac, After(mac, r, steps[..i]), steps[i..j], id)
  }

  lemma {:induction false} OkCountMore(mac: Mac, r: Responder, steps: seq<Step>, s: Step, id: uint32)
    ensures OkCount(mac, r, steps + [s], id) == OkCount(mac, r, steps, id) + OkAt(mac, After(mac, r, steps), s, id)
    decreases steps
  {
    hide Apply, Answer;
    if steps == [] {
      assert [] + [s] == [s] && [s][1..] == [];
    } else {
      OkCountMore(mac, Apply(mac, r, steps[0]), steps[1..], s, id);
      assert (steps + [s])[1..] == steps[1..] + [s];
    }
  }

  lemma OkBetweenMore(mac: Mac, r: Responder, steps: seq<Step>, id: uint32, i: nat, j: nat)
    requires i <= j < |steps|
    ensures OkBetween(mac, r, steps, id, i, j + 1)
      == OkBetween(mac, r, steps, id, i, j) + OkAt(mac, After(mac, r, steps[..j]), steps[j], id)
  {
    hide OkCount, Answer;
    OkCountMore(mac, After(mac, r, steps[..i]), steps[i..j], steps[j], id);
    assert steps[i..j + 1] == steps[i..j] + [steps[j]];
    AfterSplit(mac, r, steps[..i], steps[i..j]);
    assert steps[..j] == steps[..i] + steps[i..j];
  }

  lemma OkBetweenNone(mac: Mac, r: Responder, steps: seq<Step>, id: uint32, i: nat)
    requires i <= |steps|
    ensures OkBetween(mac, r, steps, id, i, i) == 0
  {
    assert steps[i..i] == [];
  }

  // The credit is the tightest bound

  /** What the stretch from datagram i leaves at time t of the bound. */
  ghost function Slack(mac: Mac, r: Responder, run: seq<Step>, id: uint32, i: nat, m: nat, t: int): int
    requires i < m <= |run| && run[i].Datagram?
  {
    CREDIT_NS + (t - run[i].now) - OkBetween(mac, r, run, id, i, m) * 50_000_000
  }

  /** A source listed and not yet charged. */
  predicate Uncharged(st: State) { st.credit == CREDIT_NS && st.lastNs == 0 }

  /** Before step m the credit at t is the least slack of any stretch, one
      second at most. */
  ghost predicate Tightest(mac: Mac, r: Responder, run: seq<Step>, id: uint32, m: nat, t: int, avail: int)
    requires m <= |run|
  {
    && avail <= CREDIT_NS
    && (forall i :: 0 <= i < m && run[i].Datagram? ==> avail <= Slack(mac, r, run, id, i, m, t))
    && (avail == CREDIT_NS || exists i :: 0 <= i < m && run[i].Datagram? && avail == Slack(mac, r, run, id, i, m, t))
  }

  /** How the credit grows between charges, once charged at all. */
  ghost predicate RateOk(st: State, t: int) {
    && 0 <= st.credit <= CREDIT_NS && 0 <= st.lastNs <= t && (st.lastNs == 0 ==> st.credit == CREDIT_NS)
  }

  lemma AvailableAt(st: State, t: int, u: int)
    requires RateOk(st, t) && t <= u
    ensures var a, b := Available(st, t), Available(st, u);
      b == if a + (u - t) < CREDIT_NS then a + (u - t) else CREDIT_NS
  {
  }

  lemma TightestLater(mac: Mac, r: Responder, run: seq<Step>, id: uint32, m: nat, t: int, avail: int, u: int)
    requires m <= |run| && t <= u && Tightest(mac, r, run, id, m, t, avail)
    ensures Tightest(mac, r, run, id, m, u, if avail + (u - t) < CREDIT_NS then avail + (u - t) else CREDIT_NS)
  {
    hide OkBetween;
    var later := if avail + (u - t) < CREDIT_NS then avail + (u - t) else CREDIT_NS;
    forall i | 0 <= i < m && run[i].Datagram? ensures later <= Slack(mac, r, run, id, i, m, u) {
      assert avail <= Slack(mac, r, run, id, i, m, t);
    }
    if later != CREDIT_NS && avail != CREDIT_NS {
      var i :| 0 <= i < m && run[i].Datagram? && avail == Slack(mac, r, run, id, i, m, t);
      assert later == Slack(mac, r, run, id, i, m, u);
    }
  }

  /** One step that answers ok or not. */
  lemma TightestMore(mac: Mac, r: Responder, run: seq<Step>, id: uint32, m: nat, t: int, avail: int, ok: nat)
    requires m < |run| && Tightest(mac, r, run, id, m, t, avail) && ok == OkAt(mac, After(mac, r, run[..m]), run[m], id)
    requires run[m].Datagram? ==> run[m].now == t
    requires run[m].Refresh? ==> ok == 0
    ensures var charged := avail - ok * 50_000_000;
      Tightest(mac, r, run, id, m + 1, t, charged)
  {
    hide OkBetween, OkAt;
    var charged := avail - ok * 50_000_000;
    forall i | 0 <= i < m + 1 && run[i].Datagram? ensures charged <= Slack(mac, r, run, id, i, m + 1, t) {
      OkBetweenMore(mac, r, run, id, i, m);
      if i < m {
        assert avail <= Slack(mac, r, run, id, i, m, t);
      } else {
        OkBetweenNone(mac, r, run, id, m);
      }
    }
    if avail == CREDIT_NS {
      if run[m].Datagram? {
        OkBetweenMore(mac, r, run, id, m, m);
        OkBetweenNone(mac, r, run, id, m);
        assert charged == Slack(mac, r, run, id, m, m + 1, t);
      }
    } else {
      var i :| 0 <= i < m && run[i].Datagram? && avail == Slack(mac, r, run, id, i, m, t);
      OkBetweenMore(mac, r, run, id, i, m);
      assert charged == Slack(mac, r, run, id, i, m + 1, t);
    }
  }

  /** The last time of a run's first m steps, t if they hold no datagram. */
  function TimeBefore(run: seq<Step>, m: nat, t: int): int
    requires m <= |run|
  {
    if m == 0 then t else if run[m - 1].Datagram? then run[m - 1].now else TimeBefore(run, m - 1, t)
  }

  lemma {:induction false} TimeBeforeIs(run: seq<Step>, m: nat, t: int)
    requires Ordered(run, t) && m <= |run|
    ensures t <= TimeBefore(run, m, t)
    ensures m < |run| && run[m].Datagram? ==> TimeBefore(run, m, t) <= run[m].now && ClockOk(run[m].now)
    decreases m
  {
    if m > 0 {
      TimeBeforeIs(run, m - 1, t);
      if run[m - 1].Datagram? {
        OrderedPair(run, t, m - 1, m - 1);
        if m < |run| && run[m].Datagram? {
          OrderedPair(run, t, m - 1, m);
        }
      } else if m < |run| && run[m].Datagram? {
        TimeSkips(run, m, t);
      }
    } else if m < |run| && run[m].Datagram? {
      OrderedAt(run, t, m);
    }
  }

  /** The time before a later datagram is not after it. */
  lemma {:induction false} TimeSkips(run: seq<Step>, m: nat, t: int)
    requires Ordered(run, t) && m < |run| && run[m].Datagram?
    ensures forall k :: 0 <= k <= m ==> TimeBefore(run, k, t) <= run[m].now
    ensures ClockOk(run[m].now)
  {
    OrderedAt(run, t, m);
    forall k | 0 <= k <= m ensures TimeBefore(run, k, t) <= run[m].now {
      TimeUpTo(run, k, m, t);
    }
  }

  lemma {:induction false} TimeUpTo(run: seq<Step>, k: nat, m: nat, t: int)
    requires Ordered(run, t) && k <= m < |run| && run[m].Datagram?
    ensures TimeBefore(run, k, t) <= run[m].now
    decreases k
  {
    if k == 0 {
      OrderedAt(run, t, m);
    } else if run[k - 1].Datagram? {
      OrderedPair(run, t, k - 1, m);
    } else {
      TimeUpTo(run, k - 1, m, t);
    }
  }

  /** What holds before step m of a run from a source's listing on. */
  ghost predicate Exact(mac: Mac, r: Responder, run: seq<Step>, id: uint32, m: nat, t: int)
    requires m <= |run|
  {
    var r' := After(mac, r, run[..m]);
    && ResponderRuns.Ok(r') && id in r'.table && RateOk(r'.table[id].state, t)
    && Tightest(mac, r, run, id, m, t, Available(r'.table[id].state, t))
  }

  lemma ExactLater(mac: Mac, r: Responder, run: seq<Step>, id: uint32, m: nat, t: int, u: int)
    requires m <= |run| && t <= u && Exact(mac, r, run, id, m, t)
    ensures Exact(mac, r, run, id, m, u)
  {
    hide Tightest, Available, ResponderRuns.Ok;
    var st := After(mac, r, run[..m]).table[id].state;
    AvailableAt(st, t, u);
    TightestLater(mac, r, run, id, m, t, Available(st, t), u);
  }

  lemma ExactRefresh(mac: Mac, r: Responder, run: seq<Step>, id: uint32, m: nat, t: int)
    requires m < |run| && run[m].Refresh? && Exact(mac, r, run, id, m, t) && id in After(mac, r, run[..m + 1]).table
    ensures Exact(mac, r, run, id, m + 1, t)
  {
    hide Tightest, Available, RateOk, Apply;
    var before := After(mac, r, run[..m]);
    AfterMore(mac, r, run, m);
    ApplyKeepsOk(mac, before, run[m]);
    RefreshKeepsState(mac, before, run[m], id);
    TightestMore(mac, r, run, id, m, t, Available(before.table[id].state, t), 0);
  }

  lemma ExactDatagram(mac: Mac, r: Responder, run: seq<Step>, id: uint32, m: nat)
    requires m < |run| && run[m].Datagram? && ClockOk(run[m].now) && run[m].now > 0
    requires Exact(mac, r, run, id, m, run[m].now) && id in After(mac, r, run[..m + 1]).table
    ensures Exact(mac, r, run, id, m + 1, run[m].now)
  {
    hide Tightest, Apply, TakesAt, OkAt;
    var t, before := run[m].now, After(mac, r, run[..m]);
    AfterMore(mac, r, run, m);
    ApplyKeepsOk(mac, before, run[m]);
    StepCharges(mac, before, run[m], id);
    OkIsBit(mac, before, run[m], id);
    hide ResponderRuns.Ok;
    var st, st' := before.table[id].state, Apply(mac, before, run[m]).table[id].state;
    var ok := OkAt(mac, before, run[m], id);
    ChargedRate(st, st', t, TakesAt(mac, before, run[m], id), ok);
    TightestMore(mac, r, run, id, m, t, Available(st, t), ok);
  }

  lemma OkIsBit(mac: Mac, r: Responder, s: Step, id: uint32)
    ensures OkAt(mac, r, s, id) <= 1
  {
  }

  lemma ChargedRate(st: State, st': State, t: int64, takes: bool, ok: nat)
    requires RateOk(st, t) && t > 0 && ok <= 1 && Charges(st, st', t, takes, ok == 1)
    ensures RateOk(st', t) && Available(st', t) == Available(st, t) - ok * 50_000_000
  {
  }

  lemma {:induction false} ExactRun(mac: Mac, r: Responder, run: seq<Step>, id: uint32, m: nat)
    requires ResponderRuns.Ok(r) && Ordered(run, 1) && Stays(mac, r, run, id) && Uncharged(r.table[id].state)
    requires m <= |run|
    ensures Exact(mac, r, run, id, m, TimeBefore(run, m, 1))
    decreases m
  {
    hide Tightest, Ordered, Apply, After;
    if m == 0 {
      ExactStart(mac, r, run, id);
    } else {
      ExactRun(mac, r, run, id, m - 1);
      StaysAt(mac, r, run, id, m);
      var t := TimeBefore(run, m - 1, 1);
      if run[m - 1].Refresh? {
        ExactRefresh(mac, r, run, id, m - 1, t);
      } else {
        TimeBeforeIs(run, m - 1, 1);
        ExactLater(mac, r, run, id, m - 1, t, run[m - 1].now);
        ExactDatagram(mac, r, run, id, m - 1);
      }
    }
  }

  lemma ExactStart(mac: Mac, r: Responder, run: seq<Step>, id: uint32)
    requires ResponderRuns.Ok(r) && id in r.table && Uncharged(r.table[id].state)
    ensures Exact(mac, r, run, id, 0, 1)
  {
    assert run[..0] == [];
  }

  // The main result

  /** Answering at j keeps the bound on the stretch from datagram i: its ok
      replies and one more cost at most one second and the time elapsed. */
  ghost predicate RoomFrom(mac: Mac, r: Responder, run: seq<Step>, id: uint32, i: nat, j: nat)
    requires i <= j < |run| && run[i].Datagram? && run[j].Datagram?
  {
    (OkCount(mac, After(mac, r, run[..i]), run[i..j], id) + 1) * 50_000_000 <= 1_000_000_000 + (run[j].now - run[i].now)
  }

  lemma TightestMeans(mac: Mac, r: Responder, run: seq<Step>, id: uint32, j: nat, avail: int)
    requires j < |run| && run[j].Datagram? && Tightest(mac, r, run, id, j, run[j].now, avail)
    ensures avail >= COST_NS <==> forall i :: 0 <= i <= j && run[i].Datagram? ==> RoomFrom(mac, r, run, id, i, j)
  {
    hide OkCount, After;
    OkBetweenNone(mac, r, run, id, j);
    if avail >= COST_NS {
      forall i | 0 <= i <= j && run[i].Datagram? ensures RoomFrom(mac, r, run, id, i, j) {
        if i < j {
          assert avail <= Slack(mac, r, run, id, i, j, run[j].now);
        }
      }
    } else {
      var i :| 0 <= i < j && run[i].Datagram? && avail == Slack(mac, r, run, id, i, j, run[j].now);
      assert !RoomFrom(mac, r, run, id, i, j);
    }
  }

  lemma RunOkIff(mac: Mac, r: Responder, run: seq<Step>, id: uint32, j: nat)
    requires ResponderRuns.Ok(r) && Ordered(run, 1) && Stays(mac, r, run, id) && Uncharged(r.table[id].state)
    requires j < |run| && run[j].Datagram? && TakesAt(mac, After(mac, r, run[..j]), run[j], id)
    ensures OkAt(mac, After(mac, r, run[..j]), run[j], id) == 1 <==>
      forall i :: 0 <= i <= j && run[i].Datagram? ==> RoomFrom(mac, r, run, id, i, j)
  {
    hide Tightest, Ordered, Apply, After, TakesAt, OkAt, RoomFrom, Available, Stays, RateOk;
    ExactRun(mac, r, run, id, j);
    TimeBeforeIs(run, j, 1);
    ExactLater(mac, r, run, id, j, TimeBefore(run, j, 1), run[j].now);
    StaysAt(mac, r, run, id, j + 1);
    AfterMore(mac, r, run, j);
    var before := After(mac, r, run[..j]);
    StepCharges(mac, before, run[j], id);
    TightestMeans(mac, r, run, id, j, Available(before.table[id].state, run[j].now));
  }

  /** A source newly listed starts uncharged. */
  lemma ListedUncharged(mac: Mac, r: Responder, s: Step, id: uint32)
    requires s.Refresh? && id !in r.table && id in Apply(mac, r, s).table
    ensures Uncharged(Apply(mac, r, s).table[id].state)
  {
    BuildKeepsState(r.table, s.entries);
  }

  lemma Shifted(mac: Mac, r: Responder, steps: seq<Step>, id: uint32, k: nat, i: nat, j: nat)
    requires k <= i <= j < |steps| && steps[i].Datagram? && steps[j].Datagram?
    ensures After(mac, After(mac, r, steps[..k]), steps[k..][..i - k]) == After(mac, r, steps[..i])
    ensures RoomFrom(mac, After(mac, r, steps[..k]), steps[k..], id, i - k, j - k) <==>
      RoomFrom(mac, r, steps, id, i, j)
  {
    hide After, OkCount;
    AfterSplit(mac, r, steps[..k], steps[k..][..i - k]);
    assert steps[..i] == steps[..k] + steps[k..][..i - k];
    assert steps[k..][i - k..j - k] == steps[i..j];
  }

  /** A request the cache took is answered ok exactly when that keeps the rate
      on every stretch since its source was listed: no source with room is ever
      refused for rate. Clocks are positive and do not go back. */
  lemma OkExactlyWithinRate(mac: Mac, start: int64, steps: seq<Step>, listed: nat, j: nat, id: uint32, n: Nonce,
      sent: int64)
    requires start >= 0 && listed < j < |steps| && steps[listed].Refresh?
    requires forall k :: 0 <= k < |steps| && steps[k].Datagram? ==> ClockOk(steps[k].now)
    requires id !in After(mac, New(start), steps[..listed]).table
    requires Ordered(steps[listed + 1..], 1)
    requires Stays(mac, After(mac, New(start), steps[..listed + 1]), steps[listed + 1..], id)
    requires Taken(mac, New(start), steps, j, id, n, sent)
    ensures AnsweredOk(mac, New(start), steps, j, id, n, sent) <==>
      forall i :: listed < i <= j && steps[i].Datagram? ==> RoomFrom(mac, New(start), steps, id, i, j)
  {
    hide After, Apply, OkCount, Ordered, RoomFrom, Takes, Uncharged, ResponderRuns.Ok;
    var r0, k := New(start), listed + 1;
    var r, run := After(mac, r0, steps[..k]), steps[k..];
    StartOk(start);
    ReachedOk(mac, r0, steps[..k]);
    AfterMore(mac, r0, steps, listed);
    assert id in r.table;
    ListedUncharged(mac, After(mac, r0, steps[..listed]), steps[listed], id);
    TakenIsDatagram(mac, r0, steps, j, id, n, sent);
    Shifted(mac, r0, steps, id, k, j, j);
    TakenIsTakes(mac, r0, steps, j, id, n, sent);
    RunOkIff(mac, r, run, id, j - k);
    forall i | listed < i <= j && steps[i].Datagram?
      ensures RoomFrom(mac, r, run, id, i - k, j - k) <==> RoomFrom(mac, r0, steps, id, i, j)
    {
      Shifted(mac, r0, steps, id, k, i, j);
    }
    RoomEverywhere(mac, r0, steps, r, run, id, k, j);
  }

  lemma RoomEverywhere(mac: Mac, r0: Responder, steps: seq<Step>, r: Responder, run: seq<Step>, id: uint32, k: nat,
      j: nat)
    requires k <= j < |steps| && run == steps[k..] && steps[j].Datagram?
    requires forall i :: k <= i <= j && steps[i].Datagram? ==>
      (RoomFrom(mac, r, run, id, i - k, j - k) <==> RoomFrom(mac, r0, steps, id, i, j))
    ensures (forall i :: 0 <= i <= j - k && run[i].Datagram? ==> RoomFrom(mac, r, run, id, i, j - k)) <==>
      (forall i :: k <= i <= j && steps[i].Datagram? ==> RoomFrom(mac, r0, steps, id, i, j))
  {
    hide RoomFrom;
    if forall i :: k <= i <= j && steps[i].Datagram? ==> RoomFrom(mac, r0, steps, id, i, j) {
      forall i | 0 <= i <= j - k && run[i].Datagram? ensures RoomFrom(mac, r, run, id, i, j - k) {
        assert steps[i + k].Datagram? && RoomFrom(mac, r0, steps, id, i + k, j);
      }
    }
    if forall i :: 0 <= i <= j - k && run[i].Datagram? ==> RoomFrom(mac, r, run, id, i, j - k) {
      forall i | k <= i <= j && steps[i].Datagram? ensures RoomFrom(mac, r0, steps, id, i, j) {
        assert run[i - k].Datagram? && RoomFrom(mac, r, run, id, i - k, j - k);
      }
    }
  }

  lemma StartOk(start: int64)
    requires start >= 0
    ensures ResponderRuns.Ok(New(start))
  {
  }

  lemma TakenIsDatagram(mac: Mac, r: Responder, steps: seq<Step>, j: nat, id: uint32, n: Nonce, sent: int64)
    requires j < |steps| && Taken(mac, r, steps, j, id, n, sent)
    ensures steps[j].Datagram?
  {
  }

  /** What Taken and AnsweredOk say, as a step. */
  lemma TakenIsTakes(mac: Mac, r: Responder, steps: seq<Step>, j: nat, id: uint32, n: Nonce, sent: int64)
    requires j < |steps| && Taken(mac, r, steps, j, id, n, sent)
    ensures TakesAt(mac, After(mac, r, steps[..j]), steps[j], id)
    ensures AnsweredOk(mac, r, steps, j, id, n, sent) <==> OkAt(mac, After(mac, r, steps[..j]), steps[j], id) == 1
  {
    hide After, Takes, Handle;
  }

  // Non-ok replies are withheld only within a second of one that went out

  /** What a step's answer does to the mark of the last non-ok reply. */
  predicate Marks(st: State, st': State, now: int, v: Option<Verdict>) {
    && st'.lastNamed == (if v.Some? && Named(v.value) then now else st.lastNamed)
    && (v.Some? && Named(v.value) ==> st.lastNamed == 0 || now < st.lastNamed || now - st.lastNamed >= 1_000_000_000)
    && (v == Some(DropNamedBudget) ==> st.lastNamed != 0 && 0 <= now - st.lastNamed < 1_000_000_000)
  }

  lemma NameMarks(st: State, now: int64, v: Verdict)
    requires st.lastNamed >= 0 && ClockOk(now) && Named(v)
    ensures Marks(st, Name(st, now, v).0, now, Some(Name(st, now, v).1))
  {
  }

  lemma OnlyMark(st: State, other: State, after: State, now: int, v: Option<Verdict>)
    requires st.lastNamed == other.lastNamed && Marks(other, after, now, v)
    ensures Marks(st, after, now, v)
  {
  }

  lemma DecideMarks(start: int64, st: State, retired: bool, now: int64, r: Request)
    requires StateOk(st) && ClockOk(now)
    ensures var (st', v) := Decide(start, st, retired, now, r); Marks(st, st', now, Some(v))
  {
    hide Insert, Wf, Seen, Name, Allow, Stale, ExpiryOf;
    var held := st.(cache := Insert(st.cache, r.nonce, ExpiryOf(r.sent), now).0);
    var charged := Allow(held, now).0;
    assert charged.lastNamed == st.lastNamed by { AllowKeepsMark(held, now); }
    NameMarks(st, now, ReplyUnknownEpoch);
    NameMarks(st, now, ReplyStale);
    NameMarks(held, now, ReplyRateLimited);
    NameMarks(charged, now, ReplyRateLimited);
    OnlyMark(st, held, Name(held, now, ReplyRateLimited).0, now, Some(Name(held, now, ReplyRateLimited).1));
    OnlyMark(st, charged, Name(charged, now, ReplyRateLimited).0, now, Some(Name(charged, now, ReplyRateLimited).1));
  }

  lemma AllowKeepsMark(st: State, now: int64)
    ensures Allow(st, now).0.lastNamed == st.lastNamed
  {
  }

  lemma StepMarks(mac: Mac, r: Responder, s: Step, id: uint32)
    requires ResponderRuns.Ok(r) && id in r.table && id in Apply(mac, r, s).table && s.Datagram? && ClockOk(s.now)
    ensures Marks(r.table[id].state, Apply(mac, r, s).table[id].state, s.now, Answer(mac, r, s, id))
  {
    hide Decide, Marks, StateOk;
    var m := Authenticate(mac, r.table, s.pkt, s.outLen);
    if m.Matched? && m.request.sourceId == id {
      DecideMarks(r.start, r.table[id].state, m.epoch.retired, s.now, m.request);
    } else {
      assert Apply(mac, r, s).table[id].state == r.table[id].state;
      NothingMarked(r.table[id].state, s.now, Answer(mac, r, s, id));
    }
  }

  lemma NothingMarked(st: State, now: int, v: Option<Verdict>)
    requires v.Some? ==> !Named(v.value) && v.value != DropNamedBudget
    ensures Marks(st, st, now, v)
  {
  }

  /** last is the time of the last non-ok reply before step m, zero for none. */
  ghost predicate MarkedBy(mac: Mac, r: Responder, run: seq<Step>, id: uint32, m: nat, last: int)
    requires m <= |run|
  {
    && (forall i :: 0 <= i < m && NamedAt(mac, r, run, i, id) ==> run[i].Datagram? && run[i].now <= last)
    && (last == 0 || exists i :: 0 <= i < m && NamedAt(mac, r, run, i, id) && run[i].Datagram? && run[i].now == last)
  }

  ghost predicate MarkExact(mac: Mac, r: Responder, run: seq<Step>, id: uint32, m: nat)
    requires m <= |run|
  {
    var r' := After(mac, r, run[..m]);
    ResponderRuns.Ok(r') && id in r'.table && MarkedBy(mac, r, run, id, m, r'.table[id].state.lastNamed)
  }

  lemma MarkedMore(mac: Mac, r: Responder, run: seq<Step>, id: uint32, m: nat, last: int)
    requires m < |run| && MarkedBy(mac, r, run, id, m, last)
    requires run[m].Datagram? ==> forall i :: 0 <= i < m && run[i].Datagram? ==> run[i].now <= run[m].now
    requires NamedAt(mac, r, run, m, id) ==> run[m].Datagram?
    ensures MarkedBy(mac, r, run, id, m + 1, if NamedAt(mac, r, run, m, id) then run[m].now else last)
  {
    hide NamedAt;
    if !NamedAt(mac, r, run, m, id) && last != 0 {
      var i :| 0 <= i < m && NamedAt(mac, r, run, i, id) && run[i].Datagram? && run[i].now == last;
      assert i < m + 1;
    }
  }

  lemma MarkRefresh(mac: Mac, r: Responder, run: seq<Step>, id: uint32, m: nat)
    requires m < |run| && run[m].Refresh? && MarkExact(mac, r, run, id, m) && id in After(mac, r, run[..m + 1]).table
    ensures MarkExact(mac, r, run, id, m + 1)
  {
    hide Apply, MarkedBy, After;
    var before := After(mac, r, run[..m]);
    AfterMore(mac, r, run, m);
    ApplyKeepsOk(mac, before, run[m]);
    RefreshKeepsState(mac, before, run[m], id);
    RefreshNamesNone(mac, r, run, m, id);
    MarkedMore(mac, r, run, id, m, before.table[id].state.lastNamed);
  }

  lemma RefreshNamesNone(mac: Mac, r: Responder, run: seq<Step>, m: nat, id: uint32)
    requires m < |run| && run[m].Refresh?
    ensures !NamedAt(mac, r, run, m, id)
  {
  }

  lemma MarkDatagram(mac: Mac, r: Responder, run: seq<Step>, id: uint32, m: nat)
    requires m < |run| && run[m].Datagram? && ClockOk(run[m].now)
    requires MarkExact(mac, r, run, id, m) && id in After(mac, r, run[..m + 1]).table
    requires forall i :: 0 <= i < m && run[i].Datagram? ==> run[i].now <= run[m].now
    ensures MarkExact(mac, r, run, id, m + 1)
  {
    hide Apply, MarkedBy, After, Answer, NamedAt;
    var before := After(mac, r, run[..m]);
    AfterMore(mac, r, run, m);
    ApplyKeepsOk(mac, before, run[m]);
    StepMarks(mac, before, run[m], id);
    NamedIsAnswer(mac, r, run, m, id);
    MarkedMore(mac, r, run, id, m, before.table[id].state.lastNamed);
  }

  lemma NamedIsAnswer(mac: Mac, r: Responder, run: seq<Step>, m: nat, id: uint32)
    requires m < |run|
    ensures NamedAt(mac, r, run, m, id) <==>
      var a := Answer(mac, After(mac, r, run[..m]), run[m], id); a.Some? && Named(a.value)
  {
  }

  lemma {:induction false} MarkRun(mac: Mac, r: Responder, run: seq<Step>, id: uint32, m: nat)
    requires ResponderRuns.Ok(r) && Ordered(run, 1) && Stays(mac, r, run, id) && r.table[id].state.lastNamed == 0
    requires m <= |run|
    ensures MarkExact(mac, r, run, id, m)
    decreases m
  {
    hide Apply, After, Ordered, ResponderRuns.Ok, NamedAt;
    if m == 0 {
      assert After(mac, r, run[..0]) == r by { AfterNothing(mac, r, run); }
    } else {
      MarkRun(mac, r, run, id, m - 1);
      StaysAt(mac, r, run, id, m);
      if run[m - 1].Refresh? {
        MarkRefresh(mac, r, run, id, m - 1);
      } else {
        OrderedAt(run, 1, m - 1);
        forall i | 0 <= i < m - 1 && run[i].Datagram? ensures run[i].now <= run[m - 1].now {
          OrderedPair(run, 1, i, m - 1);
        }
        MarkDatagram(mac, r, run, id, m - 1);
      }
    }
  }

  lemma AfterNothing(mac: Mac, r: Responder, run: seq<Step>)
    ensures After(mac, r, run[..0]) == r
  {
    assert run[..0] == [];
  }

  /** A non-ok answer is due: sent, or withheld by the budget. */
  predicate Due(v: Option<Verdict>) { v.Some? && (Named(v.value) || v.value == DropNamedBudget) }

  /** From a source's listing on, at positive clocks that do not go back, a
      non-ok reply that is due goes out exactly when none went out within the
      second before it. */
  lemma NamedExactlySpaced(mac: Mac, r: Responder, run: seq<Step>, id: uint32, j: nat)
    requires ResponderRuns.Ok(r) && Ordered(run, 1) && Stays(mac, r, run, id) && r.table[id].state.lastNamed == 0
    requires j < |run| && Due(Answer(mac, After(mac, r, run[..j]), run[j], id))
    ensures run[j].Datagram?
    ensures NamedAt(mac, r, run, j, id) <==>
      forall i :: 0 <= i < j && run[i].Datagram? && NamedAt(mac, r, run, i, id) ==>
        run[j].now - run[i].now >= 1_000_000_000
  {
    AnsweredIsDatagram(mac, After(mac, r, run[..j]), run[j], id);
    hide Apply, After, Ordered, Answer, Stays;
    MarkRun(mac, r, run, id, j);
    StaysAt(mac, r, run, id, j + 1);
    AfterMore(mac, r, run, j);
    OrderedAt(run, 1, j);
    StepMarks(mac, After(mac, r, run[..j]), run[j], id);
    NamedIsAnswer(mac, r, run, j, id);
    MarkDecides(mac, r, run, id, j);
  }

  lemma MarkDecides(mac: Mac, r: Responder, run: seq<Step>, id: uint32, j: nat)
    requires j < |run| && run[j].Datagram? && MarkExact(mac, r, run, id, j) && Ordered(run, 1)
    requires var before := After(mac, r, run[..j]); var a := Answer(mac, before, run[j], id);
      && id in Apply(mac, before, run[j]).table && Due(a)
      && Marks(before.table[id].state, Apply(mac, before, run[j]).table[id].state, run[j].now, a)
      && (NamedAt(mac, r, run, j, id) <==> a.Some? && Named(a.value))
    ensures NamedAt(mac, r, run, j, id) <==>
      forall i :: 0 <= i < j && run[i].Datagram? && NamedAt(mac, r, run, i, id) ==>
        run[j].now - run[i].now >= 1_000_000_000
  {
    hide Apply, After, Answer, NamedAt, Ordered, ResponderRuns.Ok;
    var last := After(mac, r, run[..j]).table[id].state.lastNamed;
    if NamedAt(mac, r, run, j, id) {
      forall i | 0 <= i < j && run[i].Datagram? && NamedAt(mac, r, run, i, id)
        ensures run[j].now - run[i].now >= 1_000_000_000
      {
        OrderedPair(run, 1, i, j);
        assert run[i].now <= last;
        if last != 0 {
          var k :| 0 <= k < j && NamedAt(mac, r, run, k, id) && run[k].Datagram? && run[k].now == last;
          OrderedPair(run, 1, k, j);
        }
      }
    } else {
      var i :| 0 <= i < j && NamedAt(mac, r, run, i, id) && run[i].Datagram? && run[i].now == last;
    }
  }
}
