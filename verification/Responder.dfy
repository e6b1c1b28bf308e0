/** The responder on its own mutable state: sources found by binary search in
    a sorted table, each sharing its state object from one table to the next.
    Every method is proved to act as ResponderSpec says. */
module Responders {
  import opened Options
  import opened Bytes
  import opened NonceSpec
  import opened Frames
  import opened ResponderSpec
  import opened Insertion
  import NonceTables
  import NonceCaches

  class SourceState {
    var nonces: NonceCaches.NonceCache?
    var credit: int64
    var lastNs: int64
    var lastNamed: int64

    ghost function Repr(): set<object>
      reads this, nonces
    {
      if nonces == null then {this} else var c: NonceCaches.NonceCache := nonces; {this, c, c.slots}
    }

    ghost predicate Valid()
      reads this, nonces, if nonces == null then {} else {nonces.slots}
    {
      nonces != null ==> nonces.Valid()
    }

    ghost function Abs(): State
      reads this, nonces, if nonces == null then {} else {nonces.slots}
      requires Valid()
    {
      State(if nonces == null then EMPTY else nonces.Abs(), credit, lastNs, lastNamed)
    }

    constructor ()
      ensures Valid() && nonces == null && Abs() == FRESH
    {
      nonces, credit, lastNs, lastNamed := null, CREDIT_NS, 0, 0;
    }

    method Name(now: int64, v: Verdict) returns (verdict: Verdict)
      requires Valid()
      modifies this`lastNamed
      ensures Valid()
      ensures (Abs(), verdict) == ResponderSpec.Name(old(Abs()), now, v)
    {
      hide Wrap64, NonceCaches.NonceCache.Abs, NonceCaches.NonceCache.Valid, NonceCaches.NonceCache.TableValid;
      if lastNamed != 0 && Wrap64(now - lastNamed) < NAMED_INTERVAL_NS && now >= lastNamed {
        return DropNamedBudget;
      }
      lastNamed := now;
      verdict := v;
    }

    method Allow(now: int64) returns (allowed: bool)
      requires Valid()
      modifies this`credit, this`lastNs
      ensures Valid()
      ensures (Abs(), allowed) == ResponderSpec.Allow(old(Abs()), now)
    {
      hide Wrap64, NonceCaches.NonceCache.Abs, NonceCaches.NonceCache.Valid, NonceCaches.NonceCache.TableValid;
      if lastNs != 0 {
        var elapsed := Wrap64(now - lastNs);
        if elapsed > 0 {
          var sum := Wrap64(credit + elapsed);
          credit := if CREDIT_NS < sum then CREDIT_NS else sum;
        }
      }
      lastNs := now;
      if credit < COST_NS {
        return false;
      }
      credit := Wrap64(credit - COST_NS);
      allowed := true;
    }

    /** What Handle does once the tag verifies: retirement, freshness, replay,
        room and rate, in that order. seed is the hash a new cache draws. */
    method Decide(start: int64, retired: bool, now: int64, r: Request, seed: NonceTables.Hash)
      returns (verdict: Verdict, counted: bool)
      requires Valid() && now >= 0
      modifies Repr()
      ensures Valid() && fresh(Repr() - old(Repr()))
      ensures (Abs(), verdict) == ResponderSpec.Decide(start, old(Abs()), retired, now, r)
      ensures counted == Counts(start, old(Abs()), retired, now, r)
    {
      hide Wf, NonceSpec.Insert, NonceSpec.Seen, ResponderSpec.Name, ResponderSpec.Allow, Stale, ExpiryOf,
        NonceCaches.NonceCache.Abs, NonceCaches.NonceCache.Valid, NonceCaches.NonceCache.TableValid;
      counted := false;
      if retired {
        verdict := Name(now, ReplyUnknownEpoch);
        return;
      }
      if Stale(start, r.sent, now) {
        verdict := Name(now, ReplyStale);
        return;
      }
      var held;
      counted, held := Remember(r.nonce, ExpiryOf(r.sent), now, seed);
      if !counted {
        return DropReplay, false;
      }
      if held {
        var allowed := Allow(now);
        if allowed {
          return ReplyOK, true;
        }
      }
      verdict := Name(now, ReplyRateLimited);
    }

    /** The nonce cache's part: allocated on first use, then a lookup and, for
        a nonce not seen, an insert. */
    method Remember(n: Nonce, expires: int, now: int64, seed: NonceTables.Hash) returns (unseen: bool, held: bool)
      requires Valid() && now >= 0
      modifies this`nonces, Repr() - {this}
      ensures Valid() && fresh(Repr() - old(Repr()))
      ensures unseen == !NonceSpec.Seen(old(Abs()).cache, n, now)
      ensures !unseen ==> Abs() == old(Abs())
      ensures unseen ==>
        (Abs().cache, held) == NonceSpec.Insert(old(Abs()).cache, n, expires, now)
          && Abs() == old(Abs()).(cache := Abs().cache)
    {
      hide Wf, NonceSpec.Insert, NonceSpec.Seen, NonceTables.TableOk, NonceTables.HeldIn;
      held := false;
      if nonces == null {
        nonces := new NonceCaches.NonceCache(seed);
      }
      var seen := nonces.Seen(n, now);
      unseen := !seen;
      if unseen {
        held := nonces.Insert(n, expires, now);
      }
    }
  }

  /** One source of a table; the table is replaced whole, the state shared. */
  datatype TableSource = TableSource(id: uint32, epochs: seq<Epoch>, state: SourceState)

  /** table lists index's sources in increasing order of id. */
  ghost predicate Lists(table: seq<TableSource>, index: map<uint32, TableSource>) {
    && Increasing(table)
    && (forall i :: 0 <= i < |table| ==> table[i].id in index && index[table[i].id] == table[i])
    && (forall id :: id in index ==> exists i :: 0 <= i < |table| && table[i].id == id)
  }

  ghost predicate Increasing(table: seq<TableSource>) {
    forall i, j :: 0 <= i < j < |table| ==> table[i].id < table[j].id
  }

  /** The objects a state is made of all belong to source id. */
  ghost predicate OwnedBy(st: SourceState, id: uint32, owner: map<object, uint32>)
    reads owner.Keys
  {
    && st in owner && owner[st] == id
    && (st.nonces != null ==>
          && st.nonces in owner && owner[st.nonces] == id
          && st.nonces.slots in owner && owner[st.nonces.slots] == id)
  }

  /** Every source's state is valid and shares no object with another's, and t
      is what they mean. */
  ghost predicate Holds(index: map<uint32, TableSource>, t: Table, owner: map<object, uint32>)
    reads owner.Keys
  {
    && index.Keys == t.Keys
    && (forall id :: id in index ==> HoldsSource(index[id], id, t[id], owner))
  }

  ghost predicate HoldsSource(src: TableSource, id: uint32, m: Source, owner: map<object, uint32>)
    reads owner.Keys
  {
    && OwnedBy(src.state, id, owner)
    && src.id == id && src.epochs == m.epochs && src.state.Valid() && src.state.Abs() == m.state
  }

  lemma ClaimGives(owner: map<object, uint32>, objects: set<object>, id: uint32)
    ensures forall o :: o in objects ==> Claim(owner, objects, id)[o] == id
  {
  }

  lemma HeldInside(index: map<uint32, TableSource>, t: Table, owner: map<object, uint32>, id: uint32)
    requires Holds(index, t, owner) && id in index
    ensures id in t && index[id].state.Repr() <= owner.Keys
  {
    assert HoldsSource(index[id], id, t[id], owner);
  }

  ghost function Claim(owner: map<object, uint32>, objects: set<object>, id: uint32): (c: map<object, uint32>)
    ensures c.Keys == owner.Keys + objects
  {
    map o | o in owner.Keys + objects :: if o in objects then id else owner[o]
  }

  /** Objects no source had can be given to one without touching the rest. */
  lemma ClaimKeeps(index: map<uint32, TableSource>, t: Table, owner: map<object, uint32>, objects: set<object>,
      id: uint32)
    requires Holds(index, t, owner) && objects !! owner.Keys
    ensures Holds(index, t, Claim(owner, objects, id))
  {
    hide SourceState.Abs, SourceState.Valid;
    forall k | k in index ensures HoldsSource(index[k], k, t[k], Claim(owner, objects, id)) {
      assert HoldsSource(index[k], k, t[k], owner);
    }
    hide HoldsSource;
  }

  ghost predicate Extends(a: map<object, uint32>, b: map<object, uint32>) {
    a.Keys <= b.Keys && forall o :: o in a ==> b[o] == a[o]
  }

  lemma ExtendKeeps(src: TableSource, id: uint32, m: Source, a: map<object, uint32>, b: map<object, uint32>)
    requires HoldsSource(src, id, m, a) && Extends(a, b)
    ensures HoldsSource(src, id, m, b)
  {
    hide SourceState.Abs, SourceState.Valid;
  }

  lemma HoldsAlso(index: map<uint32, TableSource>, t: Table, owner: map<object, uint32>, id: uint32, src: TableSource,
      m: Source)
    requires Holds(index, t, owner) && HoldsSource(src, id, m, owner)
    ensures Holds(index[id := src], t[id := m], owner)
  {
    hide HoldsSource;
    assert index[id := src].Keys == t[id := m].Keys;
  }

  lemma HoldsAt(index: map<uint32, TableSource>, t: Table, owner: map<object, uint32>, id: uint32)
    requires Holds(index, t, owner)
    ensures id in index <==> id in t
    ensures id in index ==>
      HoldsSource(index[id], id, t[id], owner) && index[id].id == id && index[id].epochs == t[id].epochs
  {
  }

  lemma HoldsIds(index: map<uint32, TableSource>, t: Table, owner: map<object, uint32>)
    requires Holds(index, t, owner)
    ensures forall id :: id in index ==> index[id].id == id
  {
  }

  lemma HoldsNone(owner: map<object, uint32>)
    ensures Holds(map[], map[], owner) && Extends(owner, owner)
  {
  }

  lemma ClaimExtends(a: map<object, uint32>, b: map<object, uint32>, objects: set<object>, id: uint32)
    requires Extends(a, b) && objects !! b.Keys
    ensures Extends(a, Claim(b, objects, id))
  {
  }

  /** The sources of a map in increasing order of id, whatever order the map
      yields them in. */
  method Sorted(byId: map<uint32, TableSource>) returns (table: seq<TableSource>)
    requires forall id :: id in byId ==> byId[id].id == id
    ensures Lists(table, byId)
  {
    table := [];
    var rest := byId.Keys;
    while rest != {}
      invariant rest <= byId.Keys
      invariant Lists(table, byId - rest)
    {
      var id :| id in rest;
      var at := 0;
      while at < |table| && table[at].id < id
        invariant at <= |table|
        invariant forall i :: 0 <= i < at ==> table[i].id < id
      {
        at := at + 1;
      }
      PutInIs(table, at, byId[id]);
      ListsInsert(table, byId - rest, byId[id], at, PutIn(table, at, byId[id]));
      table := PutIn(table, at, byId[id]);
      assert byId - (rest - {id}) == (byId - rest)[id := byId[id]];
      rest := rest - {id};
    }
    assert byId - {} == byId;
  }

  lemma ListsInsert(table: seq<TableSource>, listed: map<uint32, TableSource>, src: TableSource, at: nat,
                    t: seq<TableSource>)
    requires Lists(table, listed) && src.id !in listed && Inserted(t, table, at, src)
    requires forall i :: 0 <= i < at ==> table[i].id < src.id
    requires at < |table| ==> src.id <= table[at].id
    ensures Lists(t, listed[src.id := src])
  {
    hide Increasing, Inserted;
    OrderInsert(table, src, at, t);
    ListedInsert(table, listed, src, at, t, listed[src.id := src]);
  }

  lemma ListedInsert(table: seq<TableSource>, listed: map<uint32, TableSource>, src: TableSource, at: nat,
                     t: seq<TableSource>, m: map<uint32, TableSource>)
    requires Lists(table, listed) && Inserted(t, table, at, src) && src.id !in listed && m == listed[src.id := src]
    ensures forall i :: 0 <= i < |t| ==> t[i].id in m && m[t[i].id] == t[i]
    ensures forall id :: id in m ==> exists i :: 0 <= i < |t| && t[i].id == id
  {
    hide Increasing;
    forall i | 0 <= i < |t| ensures t[i].id in m && m[t[i].id] == t[i] {
      if i != at {
        assert t[i] == table[if i < at then i else i - 1];
      }
    }
    hide Inserted;
    forall id | id in m ensures exists i :: 0 <= i < |t| && t[i].id == id {
      if id == src.id {
        InsertedHolds(t, table, at, src);
        assert t[at].id == id;
      } else {
        var i :| 0 <= i < |table| && table[i].id == id;
        InsertedKeeps(t, table, at, src, i);
        assert t[if i < at then i else i + 1].id == id;
      }
    }
  }

  lemma OrderInsert(table: seq<TableSource>, src: TableSource, at: nat, t: seq<TableSource>)
    requires Increasing(table) && Inserted(t, table, at, src)
    requires forall i :: 0 <= i < at ==> table[i].id < src.id
    requires forall i :: 0 <= i < |table| ==> table[i].id != src.id
    requires at < |table| ==> src.id <= table[at].id
    ensures Increasing(t)
  {
    assert forall i :: at <= i < |table| ==> src.id < table[i].id;
  }

  class Responder {
    const mac: Mac
    const startNs: int64
    /** Sorted by id; empty until the first table is set. */
    var table: seq<TableSource>
    var lastAuth: int64

    ghost var index: map<uint32, TableSource>
    ghost var meaning: Table
    /** Which source each object below the responder belongs to. */
    ghost var owner: map<object, uint32>

    ghost predicate Valid()
      reads this, owner.Keys
    {
      this !in owner && Lists(table, index) && Holds(index, meaning, owner)
    }

    ghost function Abs(): ResponderSpec.Responder
      reads this
    {
      ResponderSpec.Responder(startNs, meaning, lastAuth)
    }

    constructor (mac: Mac, start: int64)
      ensures Valid() && owner == map[] && Abs() == New(start)
    {
      this.mac, startNs := mac, start;
      table, lastAuth, index, meaning, owner := [], 0, map[], map[], map[];
    }

    /** Binary search. */
    method Find(id: uint32) returns (i: nat, found: bool)
      requires Lists(table, index)
      ensures found <==> id in index
      ensures found ==> i < |table| && table[i] == index[id]
    {
      var lo, hi := 0, |table|;
      while lo < hi
        invariant 0 <= lo <= hi <= |table|
        invariant forall k :: 0 <= k < lo ==> table[k].id < id
        invariant forall k :: hi <= k < |table| ==> table[k].id > id
      {
        var mid := (lo + hi) / 2;
        if table[mid].id == id {
          return mid, true;
        } else if table[mid].id < id {
          lo := mid + 1;
        } else {
          hi := mid;
        }
      }
      return 0, false;
    }

    /** SetTable: all of the entries or none of them; a source id already in
        the table brings its state along. */
    method SetTable(entries: seq<TableEntry>) returns (ok: bool)
      requires Valid()
      modifies this
      ensures Valid() && fresh(owner.Keys - old(owner.Keys))
      ensures (Abs(), ok) == ResponderSpec.SetTable(old(Abs()), entries)
    {
      hide Lists, Holds, HoldsSource, Claim, Extends, AddEntry;
      var byId: map<uint32, TableSource> := map[];
      ghost var own, built := owner, map[];
      HoldsNone(own);
      for k := 0 to |entries|
        modifies {}
        invariant Build(meaning, entries[..k]) == Some(built)
        invariant Holds(byId, built, own) && Holds(index, meaning, owner)
        invariant Extends(owner, own) && fresh(own.Keys - owner.Keys) && this !in own
      {
        assert entries[..k + 1][..k] == entries[..k];
        var e := entries[k];
        ghost var next := AddEntry(meaning, built, e);
        var added;
        added, byId, own := Add(byId, e, built, own);
        if !added {
          BuildStopsAtError(meaning, entries, k + 1);
          return false;
        }
        built := next.value;
      }
      assert entries[..|entries|] == entries;
      HoldsIds(byId, built, own);
      table := Sorted(byId);
      index, meaning, owner := byId, built, own;
      ok := true;
    }

    /** The source an entry adds to: the one already listed, else one with the
        state of the current table, else a fresh one. */
    method SourceFor(byId: map<uint32, TableSource>, id: uint32, ghost built: Table, ghost own: map<object, uint32>)
      returns (src: TableSource, ghost m: Source, ghost own': map<object, uint32>)
      requires Valid() && Holds(byId, built, own) && Extends(owner, own) && this !in own
      ensures m == if id in built then built[id] else Source([], if id in meaning then meaning[id].state else FRESH)
      ensures Holds(byId, built, own') && HoldsSource(src, id, m, own') && src.epochs == m.epochs && src.id == id
      ensures Holds(index, meaning, owner)
      ensures Extends(owner, own') && fresh(own'.Keys - own.Keys) && own.Keys <= own'.Keys && this !in own'
    {
      hide Lists, Holds, Claim, Extends, SourceState.Abs, SourceState.Valid;
      own' := own;
      HoldsAt(byId, built, own, id);
      if id in byId {
        return byId[id], built[id], own;
      }
      var at, found := Find(id);
      HoldsAt(index, meaning, owner, id);
      if found {
        src, m := TableSource(id, [], table[at].state), Source([], meaning[id].state);
        assert HoldsSource(src, id, m, owner);
        ExtendKeeps(src, id, m, owner, own);
      } else {
        var st := new SourceState();
        src, m, own' := TableSource(id, [], st), Source([], FRESH), Claim(own, {st}, id);
        ClaimKeeps(byId, built, own, {st}, id);
        ClaimExtends(owner, own, {st}, id);
        ClaimGives(own, {st}, id);
      }
    }

    /** One entry of SetTable. */
    method Add(byId: map<uint32, TableSource>, e: TableEntry, ghost built: Table, ghost own: map<object, uint32>)
      returns (ok: bool, byId': map<uint32, TableSource>, ghost own': map<object, uint32>)
      requires Valid() && Holds(byId, built, own) && Extends(owner, own) && this !in own
      ensures Holds(index, meaning, owner)
      ensures ok <==> AddEntry(meaning, built, e).Some?
      ensures ok ==> Holds(byId', AddEntry(meaning, built, e).value, own')
      ensures Extends(owner, own') && fresh(own'.Keys - own.Keys) && own.Keys <= own'.Keys && this !in own'
    {
      ok, byId', own' := false, byId, own;
      if e.sourceId == 0 || e.epoch == 0 {
        return;
      }
      hide Lists, Holds, SourceState.Abs, SourceState.Valid;
      var src;
      ghost var m;
      src, m, own' := SourceFor(byId, e.sourceId, built, own);
      for i := 0 to |src.epochs|
        invariant forall j :: 0 <= j < i ==> src.epochs[j].epoch != e.epoch
      {
        if src.epochs[i].epoch == e.epoch {
          return;
        }
      }
      if |src.epochs| == MAX_EPOCHS_PER_SOURCE {
        return;
      }
      var ep := Epoch(e.epoch, e.retired, e.key);
      byId' := byId[e.sourceId := src.(epochs := src.epochs + [ep])];
      HoldsAlso(byId, built, own', e.sourceId, byId'[e.sourceId], m.(epochs := src.epochs + [ep]));
      ok := true;
    }

    /** Handle: pkt[..n] is the datagram and out the reply buffer; the caller
        may pass one array for both. A drop leaves out as it was; a reply fills
        its first REPLY_LEN bytes and parses, under the matched key, to the
        request's own seq and nonce, the verdict's status and the clock. */
    method Handle(now: int64, pkt: array<byte>, n: nat, out: array<byte>, seed: NonceTables.Hash)
      returns (len: nat, verdict: Verdict)
      requires Valid() && now >= 0 && n <= pkt.Length && pkt !in owner && out !in owner
      modifies this, owner.Keys, out
      ensures Valid() && fresh(owner.Keys - old(owner.Keys))
      ensures (Abs(), verdict) == ResponderSpec.Handle(mac, old(Abs()), now, old(pkt[..n]), out.Length)
      ensures !Replied(verdict) ==> len == 0 && out[..] == old(out[..])
      ensures Replied(verdict) ==>
        && len == REPLY_LEN <= out.Length && out[REPLY_LEN..] == old(out[REPLY_LEN..])
        && Answers(mac, old(meaning), old(pkt[..n]), out.Length, out[..REPLY_LEN], StatusOf(verdict), now)
    {
      hide Lists, Holds, Authenticate, SignedReply, ParseReply;
      ghost var p := pkt[..n];
      var m, at := Authenticated(pkt, n, out.Length);
      if m.Dropped? {
        return 0, m.verdict;
      }
      var v := Update(table[at], m.epoch.retired, now, m.request, seed);
      if !Replied(v) {
        return 0, v;
      }
      var rep := Reply(StatusOf(v), m.request.seqNo, m.request.nonce, now);
      WriteReply(out, mac, m.epoch.key, rep);
      ReplyRoundTrip(mac, m.epoch.key, rep);
      assert out[..REPLY_LEN] == SignedReply(mac, m.epoch.key, rep);
      return REPLY_LEN, v;
    }

    /** The checks Handle makes before touching any state, reading the fields
        out of the buffer so a reply may overwrite it. */
    method Authenticated(pkt: array<byte>, n: nat, outLen: nat) returns (m: Match, at: nat)
      requires Valid() && n <= pkt.Length
      ensures m == Authenticate(mac, meaning, pkt[..n], outLen)
      ensures m.Matched? ==> at < |table| && table[at].id == m.request.sourceId
      ensures m.Matched? ==> m.request.sourceId in index && index[m.request.sourceId] == table[at]
    {
      at := 0;
      if n != REQUEST_LEN || outLen < REPLY_LEN {
        return Dropped(DropLength), at;
      }
      if CheckRequestFrame(pkt[..n]).Err? {
        return Dropped(DropMalformed), at;
      }
      hide Fields, CheckRequestFrame, Tag, Lists;
      var req := Fields(pkt[..n]);
      var found;
      at, found := Find(req.sourceId);
      if !found {
        return Dropped(DropUnknownSource), at;
      }
      var epochs := table[at].epochs;
      var e := FindEpoch(epochs, req.epoch);
      if e < 0 {
        return Dropped(DropUnknownEpoch), at;
      }
      assert pkt[..n][..80] == pkt[..80] && pkt[..n][80..] == pkt[80..n];
      if Tag(mac, epochs[e].key, REQ_DOMAIN, pkt[..80]) != pkt[80..n] {
        return Dropped(DropBadTag), at;
      }
      m := Matched(req, epochs[e]);
    }

    /** The state change of Handle: one source's state, and nothing of any
        other source's. */
    method Update(src: TableSource, retired: bool, now: int64, req: Request, seed: NonceTables.Hash)
        returns (v: Verdict)
      requires Valid() && now >= 0 && src.id in index && index[src.id] == src
      modifies this`lastAuth, this`meaning, this`owner, owner.Keys
      ensures Valid() && fresh(owner.Keys - old(owner.Keys))
      ensures (meaning[src.id].state, v) == ResponderSpec.Decide(startNs, old(meaning)[src.id].state, retired, now, req)
      ensures meaning == old(meaning)[src.id := old(meaning)[src.id].(state := meaning[src.id].state)]
      ensures lastAuth == if Counts(startNs, old(meaning)[src.id].state, retired, now, req) then now else old(lastAuth)
    {
      hide ResponderSpec.Decide, Counts, Lists, Holds, Claim, SourceState.Repr;
      HeldInside(index, meaning, owner, src.id);
      var counted;
      ghost var objects, after;
      v, counted, objects, after := DecideFor(src, startNs, retired, now, req, seed, index, meaning, owner);
      assert this !in Claim(owner, objects, src.id);
      lastAuth := if counted then now else lastAuth;
      owner := Claim(owner, objects, src.id);
      meaning := meaning[src.id := meaning[src.id].(state := after)];
    }
  }

  /** One source's decision, with every other source's objects left alone. */
  method DecideFor(src: TableSource, start: int64, retired: bool, now: int64, req: Request, seed: NonceTables.Hash,
      ghost index: map<uint32, TableSource>, ghost t: Table, ghost owner: map<object, uint32>)
    returns (v: Verdict, counted: bool, ghost objects: set<object>, ghost after: State)
    requires Holds(index, t, owner) && now >= 0 && src.id in index && index[src.id] == src
    modifies src.state.Repr()
    ensures Holds(index, t[src.id := t[src.id].(state := after)], Claim(owner, objects, src.id))
    ensures fresh(objects - old(src.state.Repr()))
    ensures old(src.state.Repr()) <= owner.Keys
    ensures (after, v) == ResponderSpec.Decide(start, t[src.id].state, retired, now, req)
    ensures counted == Counts(start, t[src.id].state, retired, now, req)
  {
    hide ResponderSpec.Decide, Counts, SourceState.Abs, SourceState.Valid;
    var st := src.state;
    assert HoldsSource(src, src.id, t[src.id], owner);
    v, counted := st.Decide(start, retired, now, req, seed);
    objects, after := st.Repr(), st.Abs();
    forall k | k in index && k != src.id
      ensures HoldsSource(index[k], k, t[k], Claim(owner, objects, src.id))
    {
      assert old(HoldsSource(index[k], k, t[k], owner));
    }
    assert HoldsSource(src, src.id, t[src.id].(state := after), Claim(owner, objects, src.id));
    hide HoldsSource;
  }

  /** The reply parses, under the key of the epoch the request was signed for,
      to the request's seq and nonce, the status and the clock. */
  ghost predicate Answers(mac: Mac, t: Table, pkt: bytes, outLen: nat, reply: bytes, status: byte, now: int64) {
    var m := Authenticate(mac, t, pkt, outLen);
    m.Matched? && ParseReply(mac, m.epoch.key, reply) == Ok(Reply(status, m.request.seqNo, m.request.nonce, now))
  }
}
