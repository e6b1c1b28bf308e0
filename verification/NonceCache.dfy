/** The nonce cache as the responder keeps it: an open-addressed table of
    slots with linear probing, expiring lazily and compacting in place.
    Every operation is proved to act on the table as NonceSpec acts on maps,
    for every hash function. */
module NonceTables {
  import opened Bytes
  import opened NonceSpec

  /** expires == 0 marks an empty slot. */
  datatype Slot = Slot(nonce: Nonce, expires: int)

  const CLEAR := Slot(Nonce(Zeros(NONCE_LEN)), 0)

  type Hash = Nonce -> nat

  /** The slot probing for n starts from. The slot count is a power of two,
      so the source's mask is a remainder. */
  function Home(hash: Hash, n: Nonce, size: nat): (h: nat)
    requires size > 0
    ensures h < size
  {
    hash(n) % size
  }

  function Next(i: nat, size: nat): (j: nat)
    requires i < size
    ensures j < size
  {
    if i + 1 == size then 0 else i + 1
  }

  /** Slot i is passed when probing from h, before j is reached. */
  predicate OnPath(h: nat, j: nat, i: nat) {
    if h <= j then h <= i < j else h <= i || i < j
  }

  /** Steps left before a probe from h would be back at h. */
  function StepsLeft(h: nat, i: nat, size: nat): nat
    requires h < size && i < size
  {
    if h <= i then size - (i - h) else h - i
  }

  /** at finds every occupied slot by its nonce, and nothing else. */
  ghost predicate Located(s: seq<Slot>, at: map<Nonce, nat>) {
    && (forall n :: n in at ==> at[n] < |s| && s[at[n]].expires > 0 && s[at[n]].nonce == n)
    && (forall i :: 0 <= i < |s| && s[i].expires != 0 ==> s[i].nonce in at && at[s[i].nonce] == i)
  }

  /** Every slot probed before a nonce's own is occupied. */
  ghost predicate Chained(hash: Hash, s: seq<Slot>, at: map<Nonce, nat>) {
    forall n, i: nat :: n in at && i < |s| && OnPath(Home(hash, n, |s|), at[n], i) ==> s[i].expires != 0
  }

  ghost predicate TableOk(hash: Hash, s: seq<Slot>, at: map<Nonce, nat>) {
    Located(s, at) && Chained(hash, s, at)
  }

  /** The map a table holds. */
  ghost function HeldIn(s: seq<Slot>, at: map<Nonce, nat>): (m: map<Nonce, int>)
    requires Located(s, at)
    ensures m.Keys == at.Keys && |m| == |at|
  {
    var m := map n | n in at :: s[at[n]].expires;
    assert m.Keys == at.Keys;
    m
  }

  /** All slots passed from n's home to i are occupied by other nonces. */
  ghost predicate Probed(hash: Hash, s: seq<Slot>, n: Nonce, i: nat)
    requires i < |s|
  {
    forall k: nat :: k < |s| && OnPath(Home(hash, n, |s|), i, k) ==> s[k].expires != 0 && s[k].nonce != n
  }

  lemma ProbeStart(hash: Hash, s: seq<Slot>, n: Nonce)
    requires |s| > 0
    ensures Probed(hash, s, n, Home(hash, n, |s|))
  {
  }

  /** With fewer nonces than slots some slot is empty, so a probe never comes
      back to its start. */
  lemma ProbeStep(hash: Hash, s: seq<Slot>, at: map<Nonce, nat>, n: Nonce, i: nat)
    requires TableOk(hash, s, at) && |at| < |s| && i < |s|
    requires Probed(hash, s, n, i) && s[i].expires != 0 && s[i].nonce != n
    ensures Probed(hash, s, n, Next(i, |s|))
    ensures StepsLeft(Home(hash, n, |s|), Next(i, |s|), |s|) < StepsLeft(Home(hash, n, |s|), i, |s|)
  {
    var h := Home(hash, n, |s|);
    if Next(i, |s|) == h {
      forall k: nat | k < |s| ensures s[k].expires != 0 {
        assert k == i || OnPath(h, i, k);
      }
      var all := Occupants(hash, s, at, |s|);
      SubsetSize(all, at.Keys);
      assert false;
    }
    forall k: nat | k < |s| && OnPath(h, Next(i, |s|), k) ensures s[k].expires != 0 && s[k].nonce != n {
      assert k == i || OnPath(h, i, k);
    }
  }

  lemma {:induction false} Occupants(hash: Hash, s: seq<Slot>, at: map<Nonce, nat>, k: nat) returns (all: set<Nonce>)
    requires TableOk(hash, s, at) && k <= |s|
    requires forall i :: 0 <= i < |s| ==> s[i].expires != 0
    ensures |all| == k && all <= at.Keys
    ensures forall n :: n in all ==> at[n] < k
  {
    all := {};
    if k > 0 {
      all := Occupants(hash, s, at, k - 1);
      assert s[k - 1].nonce !in all;
      all := all + {s[k - 1].nonce};
    }
  }

  /** The slot a probe ended at is the nonce's own, or proves it absent. */
  lemma ProbeEnd(hash: Hash, s: seq<Slot>, at: map<Nonce, nat>, n: Nonce, i: nat)
    requires TableOk(hash, s, at) && i < |s| && Probed(hash, s, n, i)
    requires s[i].expires == 0 || s[i].nonce == n
    ensures n in at <==> s[i].expires != 0
    ensures n in at ==> at[n] == i && HeldIn(s, at)[n] == s[i].expires
  {
    var h := Home(hash, n, |s|);
    assert forall j: nat :: j < |s| && j != i ==> OnPath(h, i, j) || OnPath(h, j, i);
  }

  /** Filling the empty slot a probe ended at adds the nonce and keeps the
      table. */
  lemma Place(hash: Hash, s: seq<Slot>, at: map<Nonce, nat>, slot: Slot, i: nat)
    requires TableOk(hash, s, at) && i < |s| && s[i].expires == 0 && Probed(hash, s, slot.nonce, i)
    requires slot.nonce !in at && slot.expires > 0
    ensures TableOk(hash, s[i := slot], at[slot.nonce := i])
    ensures |at[slot.nonce := i]| == |at| + 1
    ensures HeldIn(s[i := slot], at[slot.nonce := i]) == HeldIn(s, at)[slot.nonce := slot.expires]
  {
    hide Chained;
    PlaceKeepsChain(hash, s, at, slot, i);
    PlaceLocates(s, at, slot, i);
    assert at[slot.nonce := i].Keys == at.Keys + {slot.nonce};
  }

  lemma PlaceLocates(s: seq<Slot>, at: map<Nonce, nat>, slot: Slot, i: nat)
    requires Located(s, at) && i < |s| && s[i].expires == 0 && slot.nonce !in at && slot.expires > 0
    ensures Located(s[i := slot], at[slot.nonce := i])
    ensures HeldIn(s[i := slot], at[slot.nonce := i]) == HeldIn(s, at)[slot.nonce := slot.expires]
  {
    var s', at' := s[i := slot], at[slot.nonce := i];
    PlaceFinds(s, at, slot, i, s', at');
    PlaceHolds(s, at, slot, i, s', at');
  }

  lemma PlaceFinds(s: seq<Slot>, at: map<Nonce, nat>, slot: Slot, i: nat, s': seq<Slot>, at': map<Nonce, nat>)
    requires Located(s, at) && i < |s| && s[i].expires == 0 && slot.nonce !in at && slot.expires > 0
    requires s' == s[i := slot] && at' == at[slot.nonce := i]
    ensures Located(s', at')
  {
    hide HeldIn;
    forall n | n in at' ensures at'[n] < |s'| && s'[at'[n]].expires > 0 && s'[at'[n]].nonce == n {
      assert n != slot.nonce ==> n in at && at[n] != i;
    }
    forall k | 0 <= k < |s'| && s'[k].expires != 0 ensures s'[k].nonce in at' && at'[s'[k].nonce] == k {
      assert k != i ==> s'[k] == s[k] && s[k].nonce in at;
    }
  }

  lemma PlaceHolds(s: seq<Slot>, at: map<Nonce, nat>, slot: Slot, i: nat, s': seq<Slot>, at': map<Nonce, nat>)
    requires Located(s, at) && Located(s', at') && i < |s| && s[i].expires == 0 && slot.nonce !in at
    requires s' == s[i := slot] && at' == at[slot.nonce := i]
    ensures HeldIn(s', at') == HeldIn(s, at)[slot.nonce := slot.expires]
  {
    var before, after := HeldIn(s, at), HeldIn(s', at');
    forall n | n in after ensures after[n] == before[slot.nonce := slot.expires][n] {
      assert n != slot.nonce ==> n in at && at[n] != i;
    }
  }

  lemma PlaceKeepsChain(hash: Hash, s: seq<Slot>, at: map<Nonce, nat>, slot: Slot, i: nat)
    requires TableOk(hash, s, at) && i < |s| && s[i].expires == 0 && Probed(hash, s, slot.nonce, i)
    requires slot.nonce !in at && slot.expires > 0
    ensures Chained(hash, s[i := slot], at[slot.nonce := i])
  {
    var s', at' := s[i := slot], at[slot.nonce := i];
    forall m, k: nat | m in at' && k < |s'| && OnPath(Home(hash, m, |s'|), at'[m], k)
      ensures s'[k].expires != 0
    {
      if m != slot.nonce {
        assert m in at && OnPath(Home(hash, m, |s|), at[m], k);
      }
    }
  }

  /** Renewing a held nonce changes its expiry alone. */
  lemma Renew(hash: Hash, s: seq<Slot>, at: map<Nonce, nat>, slot: Slot, i: nat)
    requires TableOk(hash, s, at) && i < |s| && slot.nonce in at && at[slot.nonce] == i && slot.expires > 0
    ensures TableOk(hash, s[i := slot], at)
    ensures HeldIn(s[i := slot], at) == HeldIn(s, at)[slot.nonce := slot.expires]
  {
    var s' := s[i := slot];
    RenewLocates(s, at, slot, i, s');
    hide Located, HeldIn, Home;
    forall m, k: nat | m in at && k < |s'| && OnPath(Home(hash, m, |s'|), at[m], k)
      ensures s'[k].expires != 0
    {
      assert s[k].expires != 0;
    }
  }

  lemma RenewLocates(s: seq<Slot>, at: map<Nonce, nat>, slot: Slot, i: nat, s': seq<Slot>)
    requires Located(s, at) && i < |s| && slot.nonce in at && at[slot.nonce] == i && slot.expires > 0
    requires s' == s[i := slot]
    ensures Located(s', at) && HeldIn(s', at) == HeldIn(s, at)[slot.nonce := slot.expires]
  {
  }

  lemma EmptyTable(hash: Hash, s: seq<Slot>)
    requires forall i :: 0 <= i < |s| ==> s[i] == CLEAR
    ensures TableOk(hash, s, map[]) && HeldIn(s, map[]) == map[]
  {
  }

  // Scans over the slots, as functions of the slots already passed.

  function LiveCount(s: seq<Slot>, now: int): nat {
    if s == [] then 0
    else LiveCount(s[..|s| - 1], now) + if s[|s| - 1].expires > now then 1 else 0
  }

  /** The earliest unexpired expiry, 0 when there is none. */
  function EarliestIn(s: seq<Slot>, now: int): int {
    if s == [] then 0 else
    var before, e := EarliestIn(s[..|s| - 1], now), s[|s| - 1].expires;
    if e > now && (before == 0 || e < before) then e else before
  }

  function LiveSlots(s: seq<Slot>, now: int): seq<Slot> {
    if s == [] then []
    else LiveSlots(s[..|s| - 1], now) + if s[|s| - 1].expires > now then [s[|s| - 1]] else []
  }

  /** Scanning the first k slots counts the unexpired nonces among them. */
  lemma {:induction false} CountAmong(hash: Hash, s: seq<Slot>, at: map<Nonce, nat>, now: int, k: nat)
      returns (live: set<Nonce>)
    requires TableOk(hash, s, at) && now >= 0 && k <= |s|
    ensures forall n :: n in live <==> n in at && at[n] < k && s[at[n]].expires > now
    ensures |live| == LiveCount(s[..k], now)
  {
    live := {};
    if k > 0 {
      live := CountAmong(hash, s, at, now, k - 1);
      assert s[..k][..k - 1] == s[..k - 1];
      if s[k - 1].expires > now {
        live := live + {s[k - 1].nonce};
      }
    }
  }

  lemma {:induction false} EarliestBounds(s: seq<Slot>, now: int)
    requires now >= 0
    ensures forall i :: 0 <= i < |s| && s[i].expires > now ==> 0 < EarliestIn(s, now) <= s[i].expires
    ensures EarliestIn(s, now) != 0 ==> exists i :: 0 <= i < |s| && s[i].expires == EarliestIn(s, now) > now
  {
    if s != [] {
      EarliestBounds(s[..|s| - 1], now);
    }
  }

  lemma LiveScan(hash: Hash, s: seq<Slot>, at: map<Nonce, nat>, now: int)
    requires TableOk(hash, s, at) && now >= 0
    ensures LiveCount(s, now) == |Live(HeldIn(s, at), now)|
  {
    var live := CountAmong(hash, s, at, now, |s|);
    assert s[..|s|] == s;
    assert live == Live(HeldIn(s, at), now).Keys;
  }

  lemma EarliestScan(hash: Hash, s: seq<Slot>, at: map<Nonce, nat>, now: int)
    requires TableOk(hash, s, at) && now >= 0
    requires Live(HeldIn(s, at), now) != map[]
    ensures EarliestIn(s, now) == Earliest(Live(HeldIn(s, at), now))
  {
    EarliestBounds(s, now);
    var m := Live(HeldIn(s, at), now);
    var n :| n in m;
    assert s[at[n]].expires > now;
    var i :| 0 <= i < |s| && s[i].expires == EarliestIn(s, now) > now;
    assert s[i].nonce in m;
    assert forall n :: n in m ==> s[at[n]].expires == m[n];
    assert IsEarliest(m, EarliestIn(s, now));
  }

  /** m is exactly the unexpired part of s, and no nonce is there twice. */
  ghost predicate LivePart(s: seq<Slot>, now: int, m: map<Nonce, int>) {
    && (forall i :: 0 <= i < |s| && s[i].expires > now ==> s[i].nonce in m && m[s[i].nonce] == s[i].expires)
    && (forall n :: n in m ==> exists i :: 0 <= i < |s| && s[i] == Slot(n, m[n]))
    && (forall n :: n in m ==> m[n] > now)
    && (forall i, j :: 0 <= i < j < |s| && s[i].expires > now && s[j].expires > now ==> s[i].nonce != s[j].nonce)
  }

  lemma TableLivePart(hash: Hash, s: seq<Slot>, at: map<Nonce, nat>, now: int)
    requires TableOk(hash, s, at) && now >= 0
    ensures LivePart(s, now, Live(HeldIn(s, at), now))
  {
    var m := Live(HeldIn(s, at), now);
    forall n | n in m ensures exists i :: 0 <= i < |s| && s[i] == Slot(n, m[n]) {
      assert s[at[n]] == Slot(n, m[n]);
    }
  }

  /** Copying the unexpired slots out keeps the same part. */
  lemma {:induction false} KeptLivePart(s: seq<Slot>, now: int, m: map<Nonce, int>)
    requires LivePart(s, now, m)
    ensures LivePart(LiveSlots(s, now), now, m)
  {
    var kept := LiveSlots(s, now);
    KeptMembers(s, now);
    forall n | n in m ensures exists i :: 0 <= i < |kept| && kept[i] == Slot(n, m[n]) {
      var i :| 0 <= i < |s| && s[i] == Slot(n, m[n]);
      assert s[i] in kept;
    }
    forall i, j | 0 <= i < j < |kept| ensures kept[i].nonce != kept[j].nonce {
      var a, b := KeptOrder(s, now, i, j);
    }
  }

  lemma {:induction false} KeptMembers(s: seq<Slot>, now: int)
    ensures forall x :: x in LiveSlots(s, now) <==> x in s && x.expires > now
  {
    if s != [] {
      KeptMembers(s[..|s| - 1], now);
      assert s == s[..|s| - 1] + [s[|s| - 1]];
    }
  }

  lemma {:induction false} KeptOrder(s: seq<Slot>, now: int, i: nat, j: nat) returns (a: nat, b: nat)
    requires i < j < |LiveSlots(s, now)|
    ensures a < b < |s| && s[a] == LiveSlots(s, now)[i] && s[b] == LiveSlots(s, now)[j]
    ensures s[a].expires > now && s[b].expires > now
  {
    KeptMembers(s, now);
    var init := s[..|s| - 1];
    if j < |LiveSlots(init, now)| {
      a, b := KeptOrder(init, now, i, j);
    } else {
      b := |s| - 1;
      KeptMembers(init, now);
      assert LiveSlots(init, now)[i] in init;
      a :| a < |init| && init[a] == LiveSlots(init, now)[i];
    }
  }

  /** held is what the first k slots of s leave in a table being refilled. */
  ghost predicate Refilled(s: seq<Slot>, k: nat, now: int, held: map<Nonce, int>) {
    && k <= |s|
    && (forall i :: 0 <= i < k && s[i].expires > now ==> s[i].nonce in held && held[s[i].nonce] == s[i].expires)
    && (forall n :: n in held ==> exists i :: 0 <= i < k && s[i] == Slot(n, held[n]) && held[n] > now)
  }

  lemma RefillFresh(s: seq<Slot>, k: nat, now: int, held: map<Nonce, int>, m: map<Nonce, int>)
    requires LivePart(s, now, m) && Refilled(s, k, now, held) && k < |s| && s[k].expires > now
    ensures s[k].nonce !in held && |held| < |m|
  {
    FreshAmong(s, k, now, held, m);
    hide LivePart, Refilled;
    SubsetSize(held.Keys, m.Keys - {s[k].nonce});
  }

  lemma FreshAmong(s: seq<Slot>, k: nat, now: int, held: map<Nonce, int>, m: map<Nonce, int>)
    requires LivePart(s, now, m) && Refilled(s, k, now, held) && k < |s| && s[k].expires > now
    ensures held.Keys <= m.Keys - {s[k].nonce} && s[k].nonce in m
  {
    forall n | n in held ensures n in m.Keys - {s[k].nonce} {
      var i :| 0 <= i < k && s[i] == Slot(n, held[n]) && held[n] > now;
      assert s[i].nonce != s[k].nonce && s[i].nonce in m;
    }
  }

  lemma RefillStep(s: seq<Slot>, k: nat, now: int, held: map<Nonce, int>)
    requires Refilled(s, k, now, held) && k < |s|
    ensures s[k].expires > now && s[k].nonce !in held ==> Refilled(s, k + 1, now, held[s[k].nonce := s[k].expires])
    ensures s[k].expires <= now ==> Refilled(s, k + 1, now, held)
  {
    forall n | n in held ensures exists i :: 0 <= i < k + 1 && s[i] == Slot(n, held[n]) && held[n] > now {
      var i :| 0 <= i < k && s[i] == Slot(n, held[n]) && held[n] > now;
    }
  }

  lemma RefillEnd(s: seq<Slot>, now: int, held: map<Nonce, int>, m: map<Nonce, int>)
    requires LivePart(s, now, m) && Refilled(s, |s|, now, held)
    ensures held == m
  {
    forall n | n in m ensures n in held && held[n] == m[n] {
      var i :| 0 <= i < |s| && s[i] == Slot(n, m[n]);
    }
  }
}

module NonceCaches {
  import opened NonceSpec
  import opened NonceTables

  /** Doubles from the least size until one more than live fits. */
  method SizeFor(live: nat) returns (size: nat)
    requires live < NONCE_CACHE_SIZE
    ensures size == Grown(NONCE_SLOTS_MIN, live) && 0 < size && live + 1 <= size * 6 / 10
  {
    size := NONCE_SLOTS_MIN;
    while live + 1 > size * 6 / 10 && size < NONCE_SLOTS_MAX
      invariant size in {256, 512, 1024, 2048, 4096}
      invariant Grown(size, live) == Grown(NONCE_SLOTS_MIN, live)
      decreases NONCE_SLOTS_MAX - size
    {
      size := 2 * size;
    }
    GrownFits(NONCE_SLOTS_MIN, live);
  }

  class NonceCache {
    const hash: Hash
    var slots: array<Slot>
    var used: nat
    var fullUntil: int
    /** Where each held nonce sits. */
    ghost var at: map<Nonce, nat>

    ghost predicate TableValid()
      reads this, slots
    {
      TableOk(hash, slots[..], at) && used == |at|
    }

    ghost function Abs(): (c: Cache)
      reads this, slots
      requires TableValid()
      ensures |c.held| == used
    {
      Cache(HeldIn(slots[..], at), slots.Length, fullUntil)
    }

    ghost predicate Valid()
      reads this, slots
    {
      TableValid() && Wf(Abs())
    }

    constructor (hash: Hash)
      ensures Valid() && fresh(slots)
      ensures Abs() == EMPTY
    {
      this.hash := hash;
      slots := new Slot[0];
      used, fullUntil, at := 0, 0, map[];
    }

    /** The probe loop of Seen and Insert: from the nonce's home to the first
        slot that is empty or holds it. It always ends. */
    method Probe(nonce: Nonce) returns (i: nat)
      requires TableValid() && used < slots.Length
      ensures i < slots.Length
      ensures Probed(hash, slots[..], nonce, i)
      ensures slots[i].expires == 0 || slots[i].nonce == nonce
    {
      hide Located, Chained, Probed;
      var size := slots.Length;
      ghost var h := Home(hash, nonce, size);
      i := Home(hash, nonce, size);
      ProbeStart(hash, slots[..], nonce);
      while slots[i].expires != 0 && slots[i].nonce != nonce
        invariant i < size
        invariant Probed(hash, slots[..], nonce, i)
        decreases StepsLeft(h, i, size)
      {
        ProbeStep(hash, slots[..], at, nonce, i);
        i := Next(i, size);
      }
    }

    method Seen(nonce: Nonce, now: int) returns (seen: bool)
      requires Valid()
      ensures seen == NonceSpec.Seen(Abs(), nonce, now)
    {
      if slots.Length == 0 {
        return false;
      }
      var i := Probe(nonce);
      ProbeEnd(hash, slots[..], at, nonce, i);
      return slots[i].expires != 0 && slots[i].expires > now;
    }

    method Insert(nonce: Nonce, expires: int, now: int) returns (ok: bool)
      requires Valid() && now >= 0
      modifies this, slots
      ensures Valid() && (slots == old(slots) || fresh(slots))
      ensures (Abs(), ok) == NonceSpec.Insert(old(Abs()), nonce, expires, now)
    {
      hide Located, Chained, HeldIn, Probed;
      InsertKeepsWf(Abs(), nonce, expires, now);
      if used >= NONCE_CACHE_SIZE || used + 1 > slots.Length * 6 / 10 {
        if now < fullUntil {
          return false;
        }
        var room := Compact(now);
        if !room {
          return false;
        }
      }
      Put(nonce, if expires <= 0 then 1 else expires);
      ok := true;
    }

    /** The end of Insert: takes the nonce's slot, or the empty one its probe
        ends at. */
    method Put(nonce: Nonce, expires: int)
      requires TableValid() && used < slots.Length && expires > 0
      modifies this`used, this`at, slots
      ensures TableValid()
      ensures Abs() == Store(old(Abs()), nonce, expires)
    {
      hide Located, Chained, HeldIn, Probed;
      var i := Probe(nonce);
      ghost var s, t := slots[..], at;
      ProbeEnd(hash, s, t, nonce, i);
      if slots[i].expires == 0 {
        Place(hash, s, t, Slot(nonce, expires), i);
        at := at[nonce := i];
        used := used + 1;
      } else {
        Renew(hash, s, t, Slot(nonce, expires), i);
      }
      slots[i] := Slot(nonce, expires);
      assert slots[..] == s[i := Slot(nonce, expires)];
    }

    /** Rebuilds the table from its unexpired nonces, in the same array when the
        size comes out the same; gives up when that would free nothing. */
    method Compact(now: int) returns (room: bool)
      requires TableValid() && now >= 0
      modifies this, slots
      ensures TableValid() && (slots == old(slots) || fresh(slots))
      ensures room <==> |Live(old(Abs()).held, now)| < NONCE_CACHE_SIZE
      ensures room ==> Abs() == Compacted(old(Abs()), now)
      ensures !room ==> Abs() == old(Abs()).(fullUntil := Earliest(Live(old(Abs()).held, now)))
      ensures room ==> used + 1 <= slots.Length * 6 / 10
    {
      hide Located, Chained, HeldIn, Live, LivePart, Grown;
      ghost var held := Abs().held;
      var live, earliest := CountLive(now);
      if live >= NONCE_CACHE_SIZE {
        fullUntil := earliest;
        return false;
      }
      fullUntil := 0;
      var size := SizeFor(live);
      var from := slots[..];
      TableLivePart(hash, from, at, now);
      if slots.Length == size {
        KeptLivePart(from, now, Live(held, now));
        from := CopyAndClear(now);
      } else {
        slots := new Slot[size](_ => CLEAR);
      }
      used, at := 0, map[];
      Refill(from, now, Live(held, now));
      room := true;
    }

    /** How many slots are unexpired, and the earliest expiry among them. */
    method CountLive(now: int) returns (live: nat, earliest: int)
      requires TableValid() && now >= 0
      ensures live == |Live(Abs().held, now)|
      ensures live > 0 ==> earliest == Earliest(Live(Abs().held, now))
    {
      live, earliest := 0, 0;
      for i := 0 to slots.Length
        invariant live == LiveCount(slots[..i], now)
        invariant earliest == EarliestIn(slots[..i], now)
      {
        assert slots[..i + 1][..i] == slots[..i];
        var e := slots[i].expires;
        if e > now {
          live := live + 1;
          if earliest == 0 || e < earliest {
            earliest := e;
          }
        }
      }
      assert slots[..slots.Length] == slots[..];
      LiveScan(hash, slots[..], at, now);
      if live > 0 {
        EarliestScan(hash, slots[..], at, now);
      }
    }

    /** The backing array is reused: the unexpired slots are copied out, then
        every slot is cleared. */
    method CopyAndClear(now: int) returns (kept: seq<Slot>)
      modifies slots
      ensures kept == LiveSlots(old(slots[..]), now)
      ensures forall i :: 0 <= i < slots.Length ==> slots[i] == CLEAR
    {
      kept := [];
      for i := 0 to slots.Length
        invariant kept == LiveSlots(slots[..i], now)
        invariant slots[..] == old(slots[..])
      {
        assert slots[..i + 1][..i] == slots[..i];
        if slots[i].expires > now {
          kept := kept + [slots[i]];
        }
      }
      assert slots[..slots.Length] == slots[..];
      for i := 0 to slots.Length
        invariant forall k :: 0 <= k < i ==> slots[k] == CLEAR
      {
        slots[i] := CLEAR;
      }
    }

    /** Places every unexpired slot of `from` into a cleared table. */
    method Refill(from: seq<Slot>, now: int, ghost m: map<Nonce, int>)
      requires now >= 0 && LivePart(from, now, m) && |m| < slots.Length
      requires at == map[] && used == 0 && forall i :: 0 <= i < slots.Length ==> slots[i] == CLEAR
      modifies this`used, this`at, slots
      ensures TableValid()
      ensures Abs().held == m
    {
      hide Located, Chained, HeldIn, LivePart;
      EmptyTable(hash, slots[..]);
      for k := 0 to |from|
        invariant TableValid()
        invariant Refilled(from, k, now, Abs().held)
      {
        hide Refilled;
        RefillStep(from, k, now, Abs().held);
        if from[k].expires > now {
          RefillFresh(from, k, now, Abs().held, m);
          PlaceInEmpty(from[k]);
        }
      }
      RefillEnd(from, now, Abs().held, m);
    }

    method PlaceInEmpty(slot: Slot)
      requires TableValid() && used < slots.Length && slot.expires > 0
      requires slot.nonce !in Abs().held
      modifies this`used, this`at, slots
      ensures TableValid()
      ensures Abs().held == old(Abs().held)[slot.nonce := slot.expires]
    {
      hide Located, Chained, Probed, HeldIn;
      var i := FirstEmpty(slot.nonce);
      ghost var s, t := slots[..], at;
      Place(hash, s, t, slot, i);
      slots[i] := slot;
      at := at[slot.nonce := i];
      used := used + 1;
      assert slots[..] == s[i := slot];
    }

    /** The probe loop of compact, which only looks for an empty slot. */
    method FirstEmpty(nonce: Nonce) returns (i: nat)
      requires TableValid() && used < slots.Length && nonce !in at
      ensures i < slots.Length && slots[i].expires == 0
      ensures Probed(hash, slots[..], nonce, i)
    {
      hide Chained, Probed;
      var size := slots.Length;
      ghost var h := Home(hash, nonce, size);
      i := Home(hash, nonce, size);
      ProbeStart(hash, slots[..], nonce);
      while slots[i].expires != 0
        invariant i < size
        invariant Probed(hash, slots[..], nonce, i)
        decreases StepsLeft(h, i, size)
      {
        assert slots[i] == slots[..][i];
        ProbeStep(hash, slots[..], at, nonce, i);
        i := Next(i, size);
      }
    }
  }
}
