/** What a nonce cache means: the nonces it holds, its slot count and its
    "full until" mark, as values. NonceCache.dfy implements this with an
    open-addressed array; here the same operations are on a map. */
module NonceSpec {
  import opened Bytes

  const NONCE_LEN := 16
  const NONCE_CACHE_SIZE := 2400
  const NONCE_SLOTS_MIN := 256
  const NONCE_SLOTS_MAX := 4096

  /** A request nonce; the frames carry NONCE_LEN octets, which nothing about
      the cache depends on. */
  datatype Nonce = Nonce(octets: bytes)

  /** held maps every occupied slot's nonce to its expiry, expired ones
      included; size is the number of slots. */
  datatype Cache = Cache(held: map<Nonce, int>, size: nat, fullUntil: int)

  const EMPTY := Cache(map[], 0, 0)

  function Live(m: map<Nonce, int>, now: int): map<Nonce, int> {
    map n | n in m && m[n] > now :: m[n]
  }

  predicate Seen(c: Cache, n: Nonce, now: int) {
    n in c.held && c.held[n] > now
  }

  /** The slots a compaction allots, doubling from `size`. */
  function Grown(size: nat, live: nat): nat
    requires 0 < size
    decreases NONCE_SLOTS_MAX - size
  {
    if live + 1 > size * 6 / 10 && size < NONCE_SLOTS_MAX then Grown(2 * size, live) else size
  }

  predicate IsEarliest(m: map<Nonce, int>, e: int) {
    (exists n :: n in m && m[n] == e) && forall n :: n in m ==> e <= m[n]
  }

  lemma EarliestExists(m: map<Nonce, int>) returns (e: int)
    requires m != map[]
    ensures IsEarliest(m, e)
    decreases |m|
  {
    var k :| k in m;
    var rest := m - {k};
    if rest == map[] {
      e := m[k];
      assert forall n :: n in m ==> n == k || n in rest;
    } else {
      assert rest.Keys == m.Keys - {k};
      var f := EarliestExists(rest);
      e := if f <= m[k] then f else m[k];
      assert forall n :: n in m ==> n == k || n in rest;
      var w :| w in rest && rest[w] == f;
    }
  }

  ghost function Earliest(m: map<Nonce, int>): (e: int)
    requires m != map[]
    ensures IsEarliest(m, e)
  {
    assert exists e :: IsEarliest(m, e) by { var e := EarliestExists(m); }
    var e :| IsEarliest(m, e);
    e
  }

  predicate NeedsRoom(c: Cache) {
    |c.held| >= NONCE_CACHE_SIZE || |c.held| + 1 > c.size * 6 / 10
  }

  function Expiry(expires: int): int { if expires <= 0 then 1 else expires }

  /** The cache after dropping what has expired, when that makes room. */
  function Compacted(c: Cache, now: int): Cache {
    Cache(Live(c.held, now), Grown(NONCE_SLOTS_MIN, |Live(c.held, now)|), 0)
  }

  function Store(c: Cache, n: Nonce, expires: int): Cache {
    c.(held := c.held[n := Expiry(expires)])
  }

  /** Insert: the new cache, and whether the nonce was taken. */
  ghost function Insert(c: Cache, n: Nonce, expires: int, now: int): (Cache, bool) {
    if !NeedsRoom(c) then (Store(c, n, expires), true)
    else if now < c.fullUntil then (c, false)
    else if |Live(c.held, now)| >= NONCE_CACHE_SIZE then
      (c.(fullUntil := Earliest(Live(c.held, now))), false)
    else (Store(Compacted(c, now), n, expires), true)
  }

  /** What every cache reached by operations at non-negative times satisfies. */
  ghost predicate Wf(c: Cache) {
    && (forall n :: n in c.held ==> c.held[n] > 0)
    && |c.held| <= NONCE_CACHE_SIZE
    && |c.held| <= c.size * 6 / 10
    && (c.fullUntil != 0 ==>
          && c.fullUntil > 0
          && |c.held| == NONCE_CACHE_SIZE
          && forall n :: n in c.held ==> c.held[n] >= c.fullUntil)
  }

  lemma {:induction false} GrownFits(size: nat, live: nat)
    requires size in {256, 512, 1024, 2048, 4096}
    requires live < NONCE_CACHE_SIZE
    ensures live + 1 <= Grown(size, live) * 6 / 10
    ensures Grown(size, live) in {256, 512, 1024, 2048, 4096}
    decreases NONCE_SLOTS_MAX - size
  {
    if live + 1 > size * 6 / 10 && size < NONCE_SLOTS_MAX {
      GrownFits(2 * size, live);
    }
  }

  lemma LiveSize(m: map<Nonce, int>, now: int)
    ensures |Live(m, now)| <= |m|
    ensures |Live(m, now)| == |m| ==> Live(m, now) == m
  {
    var l := Live(m, now);
    assert l.Keys <= m.Keys;
    SubsetSize(l.Keys, m.Keys);
    if |l| == |m| {
      assert l.Keys == m.Keys;
    }
  }

  lemma {:induction false} SubsetSize(a: set<Nonce>, b: set<Nonce>)
    requires a <= b
    ensures |a| <= |b|
    ensures |a| == |b| ==> a == b
  {
    assert b == a + (b - a);
    assert |b| == |a| + |b - a|;
  }

  lemma StoreSize(m: map<Nonce, int>, n: Nonce, e: int)
    ensures |m[n := e]| <= |m| + 1
    ensures n in m ==> |m[n := e]| == |m|
    ensures n !in m ==> |m[n := e]| == |m| + 1
  {
    assert m[n := e].Keys == m.Keys + {n};
    if n in m {
      assert m[n := e].Keys == m.Keys;
    }
  }

  /** An insert is refused exactly when NONCE_CACHE_SIZE unexpired nonces are
      held: skipping the scan while full never changes the answer. */
  lemma InsertRefusedIffFull(c: Cache, n: Nonce, expires: int, now: int)
    requires Wf(c) && now >= 0
    ensures Insert(c, n, expires, now).1 <==> |Live(c.held, now)| < NONCE_CACHE_SIZE
  {
    LiveSize(c.held, now);
    if c.fullUntil != 0 && now < c.fullUntil {
      assert Live(c.held, now) == c.held;
    }
  }

  /** Every insert keeps the bounds, whatever the nonce, expiry and time. */
  lemma InsertKeepsWf(c: Cache, n: Nonce, expires: int, now: int)
    requires Wf(c) && now >= 0
    ensures Wf(Insert(c, n, expires, now).0)
  {
    var live := Live(c.held, now);
    LiveSize(c.held, now);
    if !NeedsRoom(c) {
      StoreSize(c.held, n, Expiry(expires));
    } else if now < c.fullUntil {
    } else if |live| >= NONCE_CACHE_SIZE {
      assert live == c.held;
    } else {
      GrownFits(NONCE_SLOTS_MIN, |live|);
      StoreSize(live, n, Expiry(expires));
    }
  }

  // Refinement of a plain map that forgets nothing.

  datatype Op = SeenAt(nonce: Nonce, at: int) | InsertAt(nonce: Nonce, expires: int, at: int)

  /** The plain map: an insert is refused when it already holds
      NONCE_CACHE_SIZE nonces unexpired at that time, and is kept otherwise. */
  function PlainStep(m: map<Nonce, int>, op: Op): map<Nonce, int> {
    match op
    case SeenAt(_, _) => m
    case InsertAt(n, e, t) => if |Live(m, t)| < NONCE_CACHE_SIZE then m[n := Expiry(e)] else m
  }

  function Plain(ops: seq<Op>): map<Nonce, int> {
    if ops == [] then map[] else PlainStep(Plain(ops[..|ops| - 1]), ops[|ops| - 1])
  }

  ghost function CacheStep(c: Cache, op: Op): Cache {
    match op
    case SeenAt(_, _) => c
    case InsertAt(n, e, t) => Insert(c, n, e, t).0
  }

  ghost function Run(ops: seq<Op>): Cache {
    if ops == [] then EMPTY else CacheStep(Run(ops[..|ops| - 1]), ops[|ops| - 1])
  }

  /** Times are non-negative and never go back. */
  ghost predicate Nondecreasing(ops: seq<Op>) {
    && (forall i :: 0 <= i < |ops| ==> ops[i].at >= 0)
    && forall i, j :: 0 <= i < j < |ops| ==> ops[i].at <= ops[j].at
  }

  function LastTime(ops: seq<Op>): int { if ops == [] then 0 else ops[|ops| - 1].at }

  lemma LiveLater(a: map<Nonce, int>, b: map<Nonce, int>, t: int, u: int)
    requires Live(a, t) == Live(b, t) && t <= u
    ensures Live(a, u) == Live(b, u)
  {
    assert forall m :: Live(m, u) == Live(Live(m, t), u);
  }

  /** One operation keeps the unexpired nonces the same on both sides. */
  lemma StepAgrees(c: Cache, m: map<Nonce, int>, op: Op, last: int)
    requires Wf(c) && Live(c.held, last) == Live(m, last) && last <= op.at && op.at >= 0
    ensures Wf(CacheStep(c, op))
    ensures Live(CacheStep(c, op).held, op.at) == Live(PlainStep(m, op), op.at)
  {
    LiveLater(c.held, m, last, op.at);
    if op.InsertAt? {
      var n, e := op.nonce, Expiry(op.expires);
      InsertKeepsWf(c, n, op.expires, op.at);
      InsertRefusedIffFull(c, n, op.expires, op.at);
      LiveAfterInsert(c, n, op.expires, op.at);
      assert Live(m[n := e], op.at) == Live(Live(m, op.at)[n := e], op.at);
      hide Live, Insert, Wf;
    }
  }

  lemma {:induction false} RunAgrees(ops: seq<Op>)
    requires Nondecreasing(ops)
    ensures Wf(Run(ops))
    ensures Live(Run(ops).held, LastTime(ops)) == Live(Plain(ops), LastTime(ops))
  {
    if ops != [] {
      var before, op := ops[..|ops| - 1], ops[|ops| - 1];
      RunAgrees(before);
      hide Live, Insert, Wf, CacheStep, PlainStep;
      StepAgrees(Run(before), Plain(before), op, LastTime(before));
    }
  }

  /** What is unexpired after an insert: the old unexpired nonces and, unless
      refused, the new one. */
  lemma LiveAfterInsert(c: Cache, n: Nonce, expires: int, now: int)
    ensures var (d, ok) := Insert(c, n, expires, now);
      Live(d.held, now) ==
        if ok then Live(Live(c.held, now)[n := Expiry(expires)], now) else Live(c.held, now)
  {
  }

  /** After any operations at nondecreasing times, a lookup at any later time
      answers as the plain map does. */
  lemma CacheRefinesMap(ops: seq<Op>, n: Nonce, t: int)
    requires Nondecreasing(ops) && LastTime(ops) <= t
    ensures Seen(Run(ops), n, t) <==> n in Plain(ops) && Plain(ops)[n] > t
  {
    RunAgrees(ops);
    LiveLater(Run(ops).held, Plain(ops), LastTime(ops), t);
    assert Seen(Run(ops), n, t) <==> n in Live(Run(ops).held, t);
    assert n in Live(Plain(ops), t) <==> n in Plain(ops) && Plain(ops)[n] > t;
  }

  /** The bound on what any run, at any non-negative times, occupies. */
  lemma {:induction false} RunBounds(ops: seq<Op>)
    requires forall i :: 0 <= i < |ops| ==> ops[i].at >= 0
    ensures Wf(Run(ops))
  {
    if ops != [] {
      RunBounds(ops[..|ops| - 1]);
      var op := ops[|ops| - 1];
      if op.InsertAt? {
        InsertKeepsWf(Run(ops[..|ops| - 1]), op.nonce, op.expires, op.at);
      }
    }
  }

  /** No smaller of the five sizes would do. */
  lemma GrownIsLeast(live: nat, size: nat)
    requires live < NONCE_CACHE_SIZE && size in {256, 512, 1024, 2048, 4096} && live + 1 <= size * 6 / 10
    ensures Grown(NONCE_SLOTS_MIN, live) <= size
  {
    assert Grown(4096, live) == 4096;
    assert Grown(2048, live) == if live + 1 > 1228 then 4096 else 2048;
    assert Grown(1024, live) == if live + 1 > 614 then Grown(2048, live) else 1024;
    assert Grown(512, live) == if live + 1 > 307 then Grown(1024, live) else 512;
    assert Grown(256, live) == if live + 1 > 153 then Grown(512, live) else 256;
  }
}
