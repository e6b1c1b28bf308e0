/** The responder's decisions as functions of its state: what one datagram or
    one table does, and what every run of them keeps. Responder.dfy implements
    these on shared mutable state. */
module ResponderSpec {
  import opened Options
  import opened Bytes
  import opened NonceSpec
  import opened Frames

  const SECOND_NS := 1_000_000_000
  const FRESHNESS_NS := 60 * SECOND_NS
  const COST_NS := SECOND_NS / 20
  const CREDIT_NS := SECOND_NS
  const NAMED_INTERVAL_NS := SECOND_NS
  const MAX_EPOCHS_PER_SOURCE := 2

  datatype Epoch = Epoch(epoch: uint32, retired: bool, key: Key)
  datatype TableEntry = TableEntry(sourceId: uint32, epoch: uint32, key: Key, retired: bool)

  /** What is kept for a source; a cache not yet allocated is an empty one. */
  datatype State = State(cache: Cache, credit: int64, lastNs: int64, lastNamed: int64)
  const FRESH := State(EMPTY, CREDIT_NS, 0, 0)

  datatype Source = Source(epochs: seq<Epoch>, state: State)
  type Table = map<uint32, Source>

  /** No table set yet is an empty table. */
  datatype Responder = Responder(start: int64, table: Table, lastAuth: int64)

  function New(start: int64): Responder { Responder(start, map[], 0) }

  datatype Verdict =
    | DropLength | DropMalformed | DropUnknownSource | DropUnknownEpoch | DropBadTag | DropReplay | DropNamedBudget
    | ReplyOK | ReplyStale | ReplyUnknownEpoch | ReplyRateLimited

  predicate Replied(v: Verdict) { v.ReplyOK? || Named(v) }
  predicate Named(v: Verdict) { v.ReplyStale? || v.ReplyUnknownEpoch? || v.ReplyRateLimited? }

  function StatusOf(v: Verdict): byte
    requires Replied(v)
  {
    match v
    case ReplyOK => STATUS_OK
    case ReplyStale => STATUS_STALE
    case ReplyUnknownEpoch => STATUS_UNKNOWN_EPOCH
    case ReplyRateLimited => STATUS_RATE_LIMITED
  }

  // One datagram

  function FindEpoch(epochs: seq<Epoch>, epoch: uint32): (i: int)
    ensures -1 <= i < |epochs|
    ensures i >= 0 ==> epochs[i].epoch == epoch && forall k :: 0 <= k < i ==> epochs[k].epoch != epoch
    ensures i < 0 ==> forall k :: 0 <= k < |epochs| ==> epochs[k].epoch != epoch
  {
    if epochs == [] then -1
    else if epochs[0].epoch == epoch then 0
    else var i := FindEpoch(epochs[1..], epoch); if i < 0 then -1 else i + 1
  }

  datatype Match = Dropped(verdict: Verdict) | Matched(request: Request, epoch: Epoch)

  /** The checks before any state is looked at: framing, source, epoch, tag. A
      match is of the request's own source and epoch, under that epoch's key. */
  function Authenticate(mac: Mac, table: Table, pkt: bytes, outLen: nat): (m: Match)
    ensures m.Dropped? ==> !Replied(m.verdict)
    ensures m.Matched? ==>
      && |pkt| == REQUEST_LEN && outLen >= REPLY_LEN && m.request == Fields(pkt) && m.request.sourceId in table
      && m.epoch in table[m.request.sourceId].epochs && m.epoch.epoch == m.request.epoch
      && VerifyRequest(mac, m.epoch.key, pkt)
  {
    if |pkt| != REQUEST_LEN || outLen < REPLY_LEN then Dropped(DropLength)
    else if CheckRequestFrame(pkt).Err? then Dropped(DropMalformed)
    else
      var r := Fields(pkt);
      if r.sourceId !in table then Dropped(DropUnknownSource)
      else
        var epochs := table[r.sourceId].epochs;
        var i := FindEpoch(epochs, r.epoch);
        if i < 0 then Dropped(DropUnknownEpoch)
        else if Tag(mac, epochs[i].key, REQ_DOMAIN, pkt[..80]) != pkt[80..] then Dropped(DropBadTag)
        else Matched(r, epochs[i])
  }

  predicate DistinctEpochs(epochs: seq<Epoch>) {
    forall i, j :: 0 <= i < j < |epochs| ==> epochs[i].epoch != epochs[j].epoch
  }

  /** A datagram is matched with an epoch exactly when there is room for a reply
      and the epoch is listed for its source, carries its number and verifies
      its tag. */
  lemma MatchedIff(mac: Mac, table: Table, pkt: bytes, outLen: nat, ep: Epoch)
    requires |pkt| == REQUEST_LEN && forall id :: id in table ==> DistinctEpochs(table[id].epochs)
    ensures Authenticate(mac, table, pkt, outLen) == Matched(Fields(pkt), ep) <==>
      && outLen >= REPLY_LEN && VerifyRequest(mac, ep.key, pkt) && Fields(pkt).sourceId in table
      && ep in table[Fields(pkt).sourceId].epochs && ep.epoch == Fields(pkt).epoch
  {
    hide Fields, Tag, CheckRequestFrame;
    if Fields(pkt).sourceId in table && ep in table[Fields(pkt).sourceId].epochs && ep.epoch == Fields(pkt).epoch {
      var epochs := table[Fields(pkt).sourceId].epochs;
      var i := FindEpoch(epochs, ep.epoch);
      var k :| 0 <= k < |epochs| && epochs[k] == ep;
      assert i == k;
    }
  }

  /** A non-ok reply, at most one per interval. */
  function Name(st: State, now: int64, v: Verdict): (State, Verdict) {
    if st.lastNamed != 0 && Wrap64(now - st.lastNamed) < NAMED_INTERVAL_NS && now >= st.lastNamed
    then (st, DropNamedBudget)
    else (st.(lastNamed := now), v)
  }

  function Refilled(st: State, now: int64): int64 {
    var elapsed := Wrap64(now - st.lastNs);
    if st.lastNs != 0 && elapsed > 0 then
      var credit := Wrap64(st.credit + elapsed);
      if credit < CREDIT_NS then credit else CREDIT_NS
    else st.credit
  }

  /** The credit limiter: an answer costs COST_NS of what has accrued. */
  function Allow(st: State, now: int64): (State, bool) {
    var credit := Refilled(st, now);
    if credit < COST_NS then (st.(credit := credit, lastNs := now), false)
    else (st.(credit := Wrap64(credit - COST_NS), lastNs := now), true)
  }

  predicate Stale(start: int64, sent: int64, now: int64) {
    sent < start || Wrap64(now - sent) > FRESHNESS_NS || Wrap64(sent - now) > FRESHNESS_NS
  }

  function ExpiryOf(sent: int64): int64 { Wrap64(Wrap64(sent + FRESHNESS_NS) + 1) }

  /** What an authenticated request does to its source's state. */
  ghost function Decide(start: int64, st: State, retired: bool, now: int64, r: Request): (State, Verdict) {
    if retired then Name(st, now, ReplyUnknownEpoch)
    else if Stale(start, r.sent, now) then Name(st, now, ReplyStale)
    else if Seen(st.cache, r.nonce, now) then (st, DropReplay)
    else
      var (cache, held) := Insert(st.cache, r.nonce, ExpiryOf(r.sent), now);
      var st1 := st.(cache := cache);
      if !held then Name(st1, now, ReplyRateLimited)
      else
        var (st2, allowed) := Allow(st1, now);
        if allowed then (st2, ReplyOK) else Name(st2, now, ReplyRateLimited)
  }

  /** Only a fresh, new request moves "last authenticated". */
  predicate Counts(start: int64, st: State, retired: bool, now: int64, r: Request) {
    !retired && !Stale(start, r.sent, now) && !Seen(st.cache, r.nonce, now)
  }

  ghost function Handle(mac: Mac, r: Responder, now: int64, pkt: bytes, outLen: nat): (Responder, Verdict) {
    match Authenticate(mac, r.table, pkt, outLen)
    case Dropped(v) => (r, v)
    case Matched(req, ep) =>
      var src := r.table[req.sourceId];
      var (st, v) := Decide(r.start, src.state, ep.retired, now, req);
      (r.(table := r.table[req.sourceId := src.(state := st)],
          lastAuth := if Counts(r.start, src.state, ep.retired, now, req) then now else r.lastAuth), v)
  }

  // One table

  predicate HoldsEpoch(epochs: seq<Epoch>, epoch: uint32) {
    exists i :: 0 <= i < |epochs| && epochs[i].epoch == epoch
  }

  function AddEntry(prev: Table, acc: Table, e: TableEntry): Option<Table> {
    if e.sourceId == 0 || e.epoch == 0 then None
    else
      var src := if e.sourceId in acc then acc[e.sourceId]
                 else Source([], if e.sourceId in prev then prev[e.sourceId].state else FRESH);
      if HoldsEpoch(src.epochs, e.epoch) || |src.epochs| == MAX_EPOCHS_PER_SOURCE then None
      else Some(acc[e.sourceId := src.(epochs := src.epochs + [Epoch(e.epoch, e.retired, e.key)])])
  }

  function Build(prev: Table, entries: seq<TableEntry>): Option<Table> {
    if entries == [] then Some(map[])
    else match Build(prev, entries[..|entries| - 1])
      case None => None
      case Some(acc) => AddEntry(prev, acc, entries[|entries| - 1])
  }

  /** A refused table changes nothing. */
  function SetTable(r: Responder, entries: seq<TableEntry>): (Responder, bool) {
    match Build(r.table, entries)
    case None => (r, false)
    case Some(t) => (r.(table := t), true)
  }

  /** Some entry is of source id. */
  predicate HasSource(entries: seq<TableEntry>, id: uint32) {
    exists i :: 0 <= i < |entries| && entries[i].sourceId == id
  }

  lemma HasSourceMore(entries: seq<TableEntry>, id: uint32)
    requires entries != []
    ensures HasSource(entries, id) <==>
      HasSource(entries[..|entries| - 1], id) || entries[|entries| - 1].sourceId == id
  {
    var n := |entries| - 1;
    var init := entries[..n];
    if i :| 0 <= i < n && init[i].sourceId == id {
      assert entries[i].sourceId == id;
    }
    if i :| 0 <= i < |entries| && entries[i].sourceId == id {
      assert i < n ==> init[i].sourceId == id;
    }
    assert entries[n].sourceId == id ==> HasSource(entries, id);
  }

  /** A table holds exactly the sources listed, each with one or two distinct
      epochs, and a source that stays keeps its state. */
  lemma {:induction false} BuildKeepsState(prev: Table, entries: seq<TableEntry>)
    requires Build(prev, entries).Some?
    ensures var t := Build(prev, entries).value;
      && (forall id :: id in t <==> HasSource(entries, id))
      && (forall id :: id in t ==> t[id].state == if id in prev then prev[id].state else FRESH)
      && (forall id :: id in t ==> 1 <= |t[id].epochs| <= MAX_EPOCHS_PER_SOURCE)
  {
    if entries != [] {
      BuildKeepsState(prev, entries[..|entries| - 1]);
      hide HoldsEpoch, HasSource;
      forall id ensures id in Build(prev, entries).value <==> HasSource(entries, id) {
        HasSourceMore(entries, id);
      }
    }
  }

  lemma {:induction false} BuildStopsAtError(prev: Table, entries: seq<TableEntry>, k: nat)
    requires k <= |entries| && Build(prev, entries[..k]).None?
    ensures Build(prev, entries).None?
    decreases |entries| - k
  {
    if k < |entries| {
      assert entries[..k + 1][..k] == entries[..k];
      BuildStopsAtError(prev, entries, k + 1);
    } else {
      assert entries[..k] == entries;
    }
  }

  // Which tables are accepted

  /** The epochs listed for a source, in order. */
  function EpochsOf(entries: seq<TableEntry>, id: uint32): seq<Epoch> {
    if entries == [] then []
    else
      var e := entries[|entries| - 1];
      EpochsOf(entries[..|entries| - 1], id) + if e.sourceId == id then [Epoch(e.epoch, e.retired, e.key)] else []
  }

  /** No zero id, no epoch of a source twice, at most two epochs a source. */
  ghost predicate Acceptable(entries: seq<TableEntry>) {
    && (forall i :: 0 <= i < |entries| ==> entries[i].sourceId != 0 && entries[i].epoch != 0)
    && (forall i, j :: 0 <= i < j < |entries| && entries[i].sourceId == entries[j].sourceId ==>
        entries[i].epoch != entries[j].epoch)
    && (forall id :: |EpochsOf(entries, id)| <= MAX_EPOCHS_PER_SOURCE)
  }

  predicate NamesEpoch(entries: seq<TableEntry>, i: nat, id: uint32, epoch: uint32) {
    i < |entries| && entries[i].sourceId == id && entries[i].epoch == epoch
  }

  /** A source holds an epoch exactly when some entry lists it. */
  lemma {:induction false} HoldsListed(entries: seq<TableEntry>, id: uint32, epoch: uint32)
    ensures HoldsEpoch(EpochsOf(entries, id), epoch) <==> exists i :: NamesEpoch(entries, i, id, epoch)
  {
    hide HoldsEpoch;
    if entries == [] {
      HoldsNothing(epoch);
    } else {
      var init, e := entries[..|entries| - 1], entries[|entries| - 1];
      HoldsListed(init, id, epoch);
      HoldsMore(EpochsOf(init, id), Epoch(e.epoch, e.retired, e.key), epoch);
      ListsMore(entries, id, epoch);
      assert EpochsOf(init, id) + [] == EpochsOf(init, id);
    }
  }

  lemma HoldsNothing(epoch: uint32)
    ensures !HoldsEpoch([], epoch)
  {
  }

  lemma ListsMore(entries: seq<TableEntry>, id: uint32, epoch: uint32)
    requires entries != []
    ensures var init, e := entries[..|entries| - 1], entries[|entries| - 1];
      (exists i :: NamesEpoch(entries, i, id, epoch)) <==>
        (exists i :: NamesEpoch(init, i, id, epoch)) || (e.sourceId == id && e.epoch == epoch)
  {
    var n := |entries| - 1;
    var init, e := entries[..n], entries[n];
    assert forall i :: 0 <= i < n ==> init[i] == entries[i];
    if i: nat :| NamesEpoch(init, i, id, epoch) {
      assert NamesEpoch(entries, i, id, epoch);
    }
    if i: nat :| NamesEpoch(entries, i, id, epoch) {
      assert i < n ==> NamesEpoch(init, i, id, epoch);
    }
    if e.sourceId == id && e.epoch == epoch {
      assert NamesEpoch(entries, n, id, epoch);
    }
  }

  lemma {:induction false} SomeEpoch(entries: seq<TableEntry>, id: uint32)
    ensures EpochsOf(entries, id) == [] <==> forall i :: 0 <= i < |entries| ==> entries[i].sourceId != id
  {
    if entries != [] {
      var init := entries[..|entries| - 1];
      SomeEpoch(init, id);
      assert forall i :: 0 <= i < |init| ==> init[i] == entries[i];
    }
  }

  lemma HoldsMore(epochs: seq<Epoch>, ep: Epoch, epoch: uint32)
    ensures HoldsEpoch(epochs + [ep], epoch) <==> HoldsEpoch(epochs, epoch) || ep.epoch == epoch
  {
    var more := epochs + [ep];
    assert more[|epochs|] == ep;
    if HoldsEpoch(epochs, epoch) {
      var i :| 0 <= i < |epochs| && epochs[i].epoch == epoch;
      assert more[i].epoch == epoch;
    }
  }

  lemma AcceptableStep(entries: seq<TableEntry>)
    requires entries != []
    ensures var init, e := entries[..|entries| - 1], entries[|entries| - 1];
      Acceptable(entries) <==>
        && Acceptable(init) && e.sourceId != 0 && e.epoch != 0
        && !HoldsEpoch(EpochsOf(init, e.sourceId), e.epoch) && |EpochsOf(init, e.sourceId)| < MAX_EPOCHS_PER_SOURCE
  {
    var init, e := entries[..|entries| - 1], entries[|entries| - 1];
    HoldsListed(init, e.sourceId, e.epoch);
    hide HoldsEpoch;
    assert forall i :: 0 <= i < |init| ==> init[i] == entries[i] && (NamesEpoch(init, i, e.sourceId, e.epoch) <==>
      entries[i].sourceId == e.sourceId && entries[i].epoch == e.epoch);
    assert forall id :: |EpochsOf(entries, id)| == |EpochsOf(init, id)| + if id == e.sourceId then 1 else 0;
  }

  /** A table is accepted exactly when its entries are acceptable, and then
      lists for each source the epochs given for it, in order. */
  lemma {:induction false} BuildIff(prev: Table, entries: seq<TableEntry>)
    ensures Build(prev, entries).Some? <==> Acceptable(entries)
    ensures Build(prev, entries).Some? ==> forall id :: id in Build(prev, entries).value ==>
      Build(prev, entries).value[id].epochs == EpochsOf(entries, id)
  {
    if entries != [] {
      var init, e := entries[..|entries| - 1], entries[|entries| - 1];
      BuildIff(prev, init);
      AcceptableStep(entries);
      SomeEpoch(init, e.sourceId);
      hide HasSource;
      if Build(prev, init).Some? {
        BuildKeepsState(prev, init);
      }
      hide HoldsEpoch, Acceptable;
    }
  }

  /** No source of a table that is built holds an epoch twice. */
  lemma {:induction false} BuildDistinct(prev: Table, entries: seq<TableEntry>)
    requires Build(prev, entries).Some?
    ensures forall id :: id in Build(prev, entries).value ==> DistinctEpochs(Build(prev, entries).value[id].epochs)
  {
    if entries != [] {
      BuildDistinct(prev, entries[..|entries| - 1]);
    }
  }
}
