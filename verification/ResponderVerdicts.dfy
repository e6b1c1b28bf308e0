/** What each verdict means for the datagram it was given on, in exact
    arithmetic and literal values. */
module ResponderVerdicts {
  import opened Bytes
  import opened NonceSpec
  import opened Frames
  import opened ResponderSpec
  import opened ResponderRuns

  /** The status byte of each reply. */
  lemma StatusCodes()
    ensures StatusOf(ReplyOK) == 0 && StatusOf(ReplyStale) == 1
    ensures StatusOf(ReplyUnknownEpoch) == 2 && StatusOf(ReplyRateLimited) == 3
  {
  }

  /** Stamped since the start and within a minute of the clock. */
  predicate IsFresh(start: int, sent: int, now: int) {
    start <= sent && now - sent <= 60_000_000_000 && sent - now <= 60_000_000_000
  }

  /** The nonce is still remembered. */
  predicate Remembered(st: State, n: Nonce, now: int) { n in st.cache.held && now < st.cache.held[n] }

  /** A non-ok reply may go out: none was marked within the last second. */
  predicate MayName(st: State, now: int) {
    st.lastNamed == 0 || now < st.lastNamed || now - st.lastNamed >= 1_000_000_000
  }

  lemma NameVerdict(st: State, now: int64, v: Verdict)
    requires StateOk(st) && ClockOk(now)
    ensures Name(st, now, v).1 == if MayName(st, now) then v else DropNamedBudget
  {
    hide Wf;
  }

  /** Each verdict on an authenticated request has its own cause. */
  lemma DecideVerdict(start: int64, st: State, retired: bool, now: int64, r: Request)
    requires StateOk(st) && ClockOk(now) && start >= 0
    ensures var v := Decide(start, st, retired, now, r).1;
      var recent, seen, may := IsFresh(start, r.sent, now), Remembered(st, r.nonce, now), MayName(st, now);
      && (v == ReplyUnknownEpoch <==> retired && may)
      && (v == ReplyStale <==> !retired && !recent && may)
      && (v == DropReplay <==> !retired && recent && seen)
      && (v == ReplyOK || v == ReplyRateLimited ==> !retired && recent && !seen)
      && (v == DropNamedBudget ==> !may)
      && (Replied(v) || v == DropReplay || v == DropNamedBudget)
      && (!retired && recent && !seen && |Live(st.cache.held, now)| >= 2400 ==> v != ReplyOK)
  {
    hide Insert, Wf, Name, Allow, Stale, ExpiryOf, Live, StateOk;
    FreshIsExact(start, r.sent, now);
    NameVerdict(st, now, ReplyUnknownEpoch);
    NameVerdict(st, now, ReplyStale);
    InsertRefused(st, r, now);
    var held := st.(cache := Insert(st.cache, r.nonce, ExpiryOf(r.sent), now).0);
    HeldOk(st, r, now);
    NameVerdict(held, now, ReplyRateLimited);
    AllowKeepsOk(held, now);
    NameVerdict(Allow(held, now).0, now, ReplyRateLimited);
    AllowKeepsNamed(held, now);
  }

  lemma InsertRefused(st: State, r: Request, now: int64)
    requires StateOk(st) && ClockOk(now)
    ensures Insert(st.cache, r.nonce, ExpiryOf(r.sent), now).1 <==> |Live(st.cache.held, now)| < 2400
  {
    hide Insert, Wf, Live, ExpiryOf;
    InsertRefusedIffFull(st.cache, r.nonce, ExpiryOf(r.sent), now);
  }

  lemma HeldOk(st: State, r: Request, now: int64)
    requires StateOk(st) && ClockOk(now)
    ensures StateOk(st.(cache := Insert(st.cache, r.nonce, ExpiryOf(r.sent), now).0))
  {
    hide Insert, Wf, ExpiryOf;
    InsertKeepsWf(st.cache, r.nonce, ExpiryOf(r.sent), now);
  }

  lemma AllowKeepsNamed(st: State, now: int64)
    ensures Allow(st, now).0.lastNamed == st.lastNamed && Allow(st, now).0.cache == st.cache
  {
  }

  /** Framed: "LTB1", version 1, zero padding. */
  predicate IsFramed(pkt: bytes) {
    && |pkt| == 96 && pkt[0] == 0x4C && pkt[1] == 0x54 && pkt[2] == 0x42 && pkt[3] == 0x31 && pkt[4] == 1
    && forall i :: 41 <= i < 80 ==> pkt[i] == 0
  }

  lemma FramedIff(pkt: bytes)
    ensures CheckRequestFrame(pkt).Ok? <==> IsFramed(pkt)
  {
    if |pkt| == 96 {
      var head, pad := pkt[..4], pkt[41..80];
      assert forall i :: 0 <= i < 4 ==> head[i] == pkt[i];
      assert forall i :: 0 <= i < 39 ==> pad[i] == pkt[i + 41];
      assert forall i :: 41 <= i < 80 ==> pkt[i] == pad[i - 41];
    }
  }

  /** An epoch of the given number is listed. */
  predicate ListsEpoch(epochs: seq<Epoch>, number: uint32) {
    exists i :: 0 <= i < |epochs| && epochs[i].epoch == number
  }

  /** Each drop before any state is looked at has its own cause. */
  lemma DropVerdict(mac: Mac, table: Table, pkt: bytes, outLen: nat)
    ensures var m := Authenticate(mac, table, pkt, outLen);
      var room := |pkt| == 96 && outLen >= 64;
      && (m == Dropped(DropLength) <==> !room)
      && (m == Dropped(DropMalformed) <==> room && !IsFramed(pkt))
      && (m == Dropped(DropUnknownSource) <==> room && IsFramed(pkt) && Fields(pkt).sourceId !in table)
      && (m == Dropped(DropUnknownEpoch) <==>
            && room && IsFramed(pkt) && Fields(pkt).sourceId in table
            && !ListsEpoch(table[Fields(pkt).sourceId].epochs, Fields(pkt).epoch))
      && (m.Dropped? ==> m.verdict in {DropLength, DropMalformed, DropUnknownSource, DropUnknownEpoch, DropBadTag})
  {
    hide Fields, CheckRequestFrame, Tag, IsFramed;
    FramedIff(pkt);
    if |pkt| == 96 && Fields(pkt).sourceId in table {
      var epochs := table[Fields(pkt).sourceId].epochs;
      var i := FindEpoch(epochs, Fields(pkt).epoch);
      assert i >= 0 ==> epochs[i].epoch == Fields(pkt).epoch;
      assert i >= 0 <==> ListsEpoch(epochs, Fields(pkt).epoch);
    }
  }

  /** "Last authenticated" moves exactly for a request of a current epoch that
      is fresh and not remembered. */
  lemma LastAuthMoves(mac: Mac, r: Responder, now: int64, pkt: bytes, outLen: nat)
    requires ResponderRuns.Ok(r) && ClockOk(now)
    ensures var m := Authenticate(mac, r.table, pkt, outLen);
      Handle(mac, r, now, pkt, outLen).0.lastAuth ==
        if m.Matched? && !m.epoch.retired && IsFresh(r.start, m.request.sent, now)
          && !Remembered(r.table[m.request.sourceId].state, m.request.nonce, now)
        then now else r.lastAuth
  {
    hide Authenticate, Decide, Stale;
    var m := Authenticate(mac, r.table, pkt, outLen);
    if m.Matched? {
      FreshIsExact(r.start, m.request.sent, now);
    }
  }
}
