/** eachIndex: a loop over [0, n) spread over workers that draw blocks of 32
    indexes from one counter and hand a panic back to the caller. */
module Parallel {
  import opened Options

  /** What one call fn(i) does to the slot index i owns. */
  datatype Outcome<S, P> = Returned(slot: S) | Panicked(slot: S, panic: P)

  /** What eachIndex leaves behind: the slots, and the panic it ends with. */
  datatype Result<S, P> = Result(slots: seq<S>, panic: Option<P>)

  const BLOCK := 32
  const MIN_PARALLEL := 128
  const MAX_WORKERS := 8

  // The plain loop

  /** A plain loop from index i on, which stops at the first panic. */
  function Loop<S, P>(f: (nat, S) -> Outcome<S, P>, slots: seq<S>, i: nat): Result<S, P>
    requires i <= |slots|
    decreases |slots| - i
  {
    if i == |slots| then Result(slots, None)
    else match f(i, slots[i])
      case Returned(x) => Loop(f, slots[i := x], i + 1)
      case Panicked(x, v) => Result(slots[i := x], Some(v))
  }

  ghost predicate AnyPanics<S(!new), P(!new)>(f: (nat, S) -> Outcome<S, P>, slots: seq<S>) {
    exists i :: 0 <= i < |slots| && f(i, slots[i]).Panicked?
  }

  /** Without a panic from i on, the loop does every index its own work. */
  lemma {:induction false} LoopPoints<S(!new), P(!new)>(f: (nat, S) -> Outcome<S, P>, slots: seq<S>, i: nat)
    requires i <= |slots|
    ensures Loop(f, slots, i).panic.Some? <==> exists j :: i <= j < |slots| && f(j, slots[j]).Panicked?
    ensures |Loop(f, slots, i).slots| == |slots|
    ensures Loop(f, slots, i).panic.None? ==>
      forall j :: 0 <= j < |slots| ==> Loop(f, slots, i).slots[j] == if j < i then slots[j] else f(j, slots[j]).slot
    decreases |slots| - i
  {
    if i < |slots| && f(i, slots[i]).Returned? {
      var after := slots[i := f(i, slots[i]).slot];
      LoopPoints(f, after, i + 1);
      assert forall j :: i < j < |slots| ==> after[j] == slots[j];
    }
  }

  /** The sequential path, on the slots in place. */
  method Sequential<S, P>(slots: array<S>, f: (nat, S) -> Outcome<S, P>) returns (panic: Option<P>)
    modifies slots
    ensures Result(slots[..], panic) == Loop(f, old(slots[..]), 0)
  {
    var i := 0;
    while i < slots.Length
      invariant 0 <= i <= slots.Length
      invariant Loop(f, slots[..], i) == Loop(f, old(slots[..]), 0)
    {
      ghost var before := slots[..];
      var out := f(i, slots[i]);
      slots[i] := out.slot;
      assert slots[..] == before[i := out.slot];
      if out.Panicked? {
        return Some(out.panic);
      }
      i := i + 1;
    }
    panic := None;
  }

  // Workers

  datatype Worker<P> =
    | Fetching
    | InBlock(i: nat, end: nat)
    | Calling(i: nat, end: nat)      // fn(i) is running
    | Caught(value: P)               // recovered, not yet recorded
    | Storing                        // recorded, counter not yet stored
    | Gone

  datatype State<S, P> = State(next: nat, first: Option<P>, workers: seq<Worker<P>>, slots: seq<S>, started: seq<nat>)

  function Start<S, P>(slots: seq<S>, workers: nat): State<S, P> {
    State(0, None, seq(workers, w => Fetching), slots, [])
  }

  function Min(a: nat, b: nat): (r: nat) { if a < b then a else b }

  function At<S, P>(s: State<S, P>, w: nat, pc: Worker<P>): State<S, P>
    requires w < |s.workers|
  {
    s.(workers := s.workers[w := pc])
  }

  predicate CanStep<S, P>(s: State<S, P>, w: nat) {
    w < |s.workers| && !s.workers[w].Gone? && (s.workers[w].Calling? ==> s.workers[w].i < |s.slots|)
  }

  /** The next step of worker w, alone and whole: an atomic operation, the
      start of a call, or its return. */
  function Step<S, P>(f: (nat, S) -> Outcome<S, P>, s: State<S, P>, w: nat): State<S, P>
    requires CanStep(s, w)
  {
    var n := |s.slots|;
    match s.workers[w]
    case Fetching =>
      var pc := if s.next >= n then Gone else InBlock(s.next, Min(s.next + BLOCK, n));
      At(s, w, pc).(next := s.next + BLOCK)
    case InBlock(i, end) =>
      if i < end then At(s, w, Calling(i, end)).(started := s.started + [i]) else At(s, w, Fetching)
    case Calling(i, end) =>
      var out := f(i, s.slots[i]);
      At(s, w, if out.Returned? then InBlock(i + 1, end) else Caught(out.panic)).(slots := s.slots[i := out.slot])
    case Caught(v) => At(s, w, Storing).(first := if s.first.None? then Some(v) else s.first)
    case Storing => At(s, w, Gone).(next := n)
  }

  /** The workers step in the order given. */
  ghost predicate Legal<S, P>(f: (nat, S) -> Outcome<S, P>, s: State<S, P>, order: seq<nat>)
    decreases |order|
  {
    order == [] || (CanStep(s, order[0]) && Legal(f, Step(f, s, order[0]), order[1..]))
  }

  ghost function After<S, P>(f: (nat, S) -> Outcome<S, P>, s: State<S, P>, order: seq<nat>): State<S, P>
    requires Legal(f, s, order)
    decreases |order|
  {
    if order == [] then s else After(f, Step(f, s, order[0]), order[1..])
  }

  predicate AllGone<P>(workers: seq<Worker<P>>) { forall w :: 0 <= w < |workers| ==> workers[w].Gone? }

  /** Every way eachIndex can end, on a machine that runs procs at once. */
  ghost predicate Ends<S(!new), P(!new)>(procs: nat, f: (nat, S) -> Outcome<S, P>, slots: seq<S>, r: Result<S, P>) {
    var workers := Min(procs, MAX_WORKERS);
    if |slots| < MIN_PARALLEL || workers < 2 then r == Loop(f, slots, 0)
    else exists order :: EndsBy(f, Start(slots, workers), order, r)
  }

  ghost predicate EndsBy<S, P>(f: (nat, S) -> Outcome<S, P>, s: State<S, P>, order: seq<nat>, r: Result<S, P>) {
    Legal(f, s, order) && AllGone(After(f, s, order).workers)
      && r == Result(After(f, s, order).slots, After(f, s, order).first)
  }

  // Which indexes are whose

  predicate Active<P>(w: Worker<P>) { w.InBlock? || w.Calling? }

  /** Index j is in the block worker w holds and has not returned from. */
  predicate Holds<P>(w: Worker<P>, j: nat) { Active(w) && w.i <= j < w.end }

  /** Index j is in that block and has not started. */
  predicate Awaits<P>(w: Worker<P>, j: nat) { Holds(w, j) && !(w.Calling? && w.i == j) }

  /** Blocks lie below the counter and n, apart from each other. */
  ghost predicate Apart<S, P>(s: State<S, P>) {
    && (forall w :: 0 <= w < |s.workers| && Active(s.workers[w]) ==>
        s.workers[w].i <= s.workers[w].end <= Min(s.next, |s.slots|))
    && (forall w :: 0 <= w < |s.workers| && s.workers[w].Calling? ==> s.workers[w].i < s.workers[w].end)
    && (forall w, x, j ::
          0 <= w < |s.workers| && 0 <= x < |s.workers| && Holds(s.workers[w], j) && Holds(s.workers[x], j) ==> w == x)
  }

  lemma ApartKept<S, P>(f: (nat, S) -> Outcome<S, P>, s: State<S, P>, w: nat)
    requires Apart(s) && CanStep(s, w)
    ensures Apart(Step(f, s, w))
  {
  }

  ghost predicate Distinct(s: seq<nat>) { forall i, j :: 0 <= i < j < |s| ==> s[i] != s[j] }

  /** Nothing starts twice: what has started lies below the counter and no
      worker awaits it. */
  ghost predicate Once<S, P>(s: State<S, P>) {
    && Distinct(s.started)
    && (forall j :: j in s.started ==> j < Min(s.next, |s.slots|))
    && (forall w, j :: 0 <= w < |s.workers| && j in s.started ==> !Awaits(s.workers[w], j))
    && (forall w :: 0 <= w < |s.workers| && s.workers[w].Calling? ==> s.workers[w].i in s.started)
  }

  lemma OnceKept<S, P>(f: (nat, S) -> Outcome<S, P>, s: State<S, P>, w: nat)
    requires Apart(s) && Once(s) && CanStep(s, w)
    ensures Once(Step(f, s, w))
  {
    hide Distinct;
    if s.workers[w].InBlock? && s.workers[w].i < s.workers[w].end {
      StartedKept(f, s, w);
    }
  }

  lemma StartedKept<S, P>(f: (nat, S) -> Outcome<S, P>, s: State<S, P>, w: nat)
    requires Apart(s) && Once(s) && CanStep(s, w) && s.workers[w].InBlock? && s.workers[w].i < s.workers[w].end
    ensures Once(Step(f, s, w))
  {
    var i := s.workers[w].i;
    var started := s.started + [i];
    assert Awaits(s.workers[w], i);
    DistinctGrows(s.started, i);
    assert forall j :: j in started <==> j in s.started || j == i;
    assert Holds(s.workers[w], i);
    hide Distinct;
  }

  lemma DistinctGrows(s: seq<nat>, i: nat)
    requires Distinct(s) && i !in s
    ensures Distinct(s + [i])
  {
  }

  // What the slots hold

  ghost predicate Running<S, P>(s: State<S, P>, j: nat) {
    exists w :: 0 <= w < |s.workers| && s.workers[w].Calling? && s.workers[w].i == j
  }

  /** A slot holds its own work once its call has returned, and until then what
      it held. */
  ghost predicate SlotsDone<S, P>(f: (nat, S) -> Outcome<S, P>, was: seq<S>, s: State<S, P>) {
    && |s.slots| == |was|
    && (forall j :: 0 <= j < |was| ==>
          s.slots[j] == if j in s.started && !Running(s, j) then f(j, was[j]).slot else was[j])
  }

  lemma SlotsKept<S, P>(f: (nat, S) -> Outcome<S, P>, was: seq<S>, s: State<S, P>, w: nat)
    requires Apart(s) && Once(s) && SlotsDone(f, was, s) && CanStep(s, w)
    ensures SlotsDone(f, was, Step(f, s, w))
  {
    hide Distinct;
    var t := Step(f, s, w);
    forall j | 0 <= j < |was|
      ensures t.slots[j] == if j in t.started && !Running(t, j) then f(j, was[j]).slot else was[j]
    {
      SlotKept(f, was, s, w, j);
    }
  }

  /** A worker keeps what it was calling unless it is the one that steps. */
  lemma StillRunning<S, P>(f: (nat, S) -> Outcome<S, P>, s: State<S, P>, w: nat, j: nat)
    requires CanStep(s, w) && Apart(s)
    ensures var t := Step(f, s, w);
      Running(t, j) <==>
        (Running(s, j) && !(s.workers[w].Calling? && s.workers[w].i == j))
          || (t.workers[w].Calling? && t.workers[w].i == j)
  {
    var t := Step(f, s, w);
    if Running(s, j) {
      var x :| 0 <= x < |s.workers| && s.workers[x].Calling? && s.workers[x].i == j;
      assert Holds(s.workers[x], j);
      if x != w {
        assert t.workers[x].Calling? && t.workers[x].i == j;
      }
    }
    if Running(t, j) {
      var x :| 0 <= x < |t.workers| && t.workers[x].Calling? && t.workers[x].i == j;
      if x != w {
        assert s.workers[x].Calling? && s.workers[x].i == j;
        assert Holds(s.workers[x], j);
        assert !Holds(s.workers[w], j);
      }
    }
  }

  lemma SlotKept<S, P>(f: (nat, S) -> Outcome<S, P>, was: seq<S>, s: State<S, P>, w: nat, j: nat)
    requires Apart(s) && Once(s) && SlotsDone(f, was, s) && CanStep(s, w) && j < |was|
    ensures var t := Step(f, s, w);
      |t.slots| == |was| && t.slots[j] == if j in t.started && !Running(t, j) then f(j, was[j]).slot else was[j]
  {
    hide Distinct, Running, Apart;
    StillRunning(f, s, w, j);
    if s.workers[w].Calling? {
      ItsOwn(s, w);
    }
  }

  lemma ItsOwn<S, P>(s: State<S, P>, w: nat)
    requires w < |s.workers| && s.workers[w].Calling?
    ensures Running(s, s.workers[w].i)
  {
  }

  // Panics

  ghost predicate Panicky<S, P>(s: State<S, P>) {
    s.first.Some? || exists w :: 0 <= w < |s.workers| && s.workers[w].Caught?
  }

  ghost predicate PanicsWith<S(!new), P(!new)>(f: (nat, S) -> Outcome<S, P>, slots: seq<S>, v: P) {
    exists j :: 0 <= j < |slots| && f(j, slots[j]).Panicked? && f(j, slots[j]).panic == v
  }

  /** A value on its way to the caller was panicked with by some call. */
  ghost predicate Honest<S(!new), P(!new)>(f: (nat, S) -> Outcome<S, P>, was: seq<S>, s: State<S, P>) {
    && (s.first.Some? ==> PanicsWith(f, was, s.first.value))
    && (forall w :: 0 <= w < |s.workers| && s.workers[w].Caught? ==> PanicsWith(f, was, s.workers[w].value))
  }

  lemma HonestKept<S(!new), P(!new)>(f: (nat, S) -> Outcome<S, P>, was: seq<S>, s: State<S, P>, w: nat)
    requires Apart(s) && Once(s) && SlotsDone(f, was, s) && Honest(f, was, s) && CanStep(s, w)
    ensures Honest(f, was, Step(f, s, w))
  {
    hide Distinct, Running, Apart;
    if s.workers[w].Calling? {
      ItsOwn(s, w);
      var j := s.workers[w].i;
      if f(j, s.slots[j]).Panicked? {
        assert PanicsWith(f, was, f(j, was[j]).panic);
      }
    }
  }

  ghost predicate Awaited<S, P>(s: State<S, P>, j: nat) { exists w :: 0 <= w < |s.workers| && Awaits(s.workers[w], j) }

  /** While nothing has panicked, every index below the counter has started or
      waits in some worker's block, and workers leave only at the end. */
  ghost predicate Complete<S(!new), P(!new)>(f: (nat, S) -> Outcome<S, P>, was: seq<S>, s: State<S, P>) {
    && (forall w :: 0 <= w < |s.workers| && s.workers[w].Storing? ==> s.first.Some?)
    && (Panicky(s) ||
        (&& (forall j :: 0 <= j < Min(s.next, |s.slots|) ==> j in s.started || Awaited(s, j))
         && (forall j :: 0 <= j < |was| && j in s.started && !Running(s, j) ==> f(j, was[j]).Returned?)
         && (forall w :: 0 <= w < |s.workers| && s.workers[w].Gone? ==> s.next >= |s.slots|)))
  }

  lemma PanickyKept<S, P>(f: (nat, S) -> Outcome<S, P>, s: State<S, P>, w: nat)
    requires Panicky(s) && CanStep(s, w)
    ensures Panicky(Step(f, s, w))
  {
    var t := Step(f, s, w);
    if s.first.None? {
      var x :| 0 <= x < |s.workers| && s.workers[x].Caught?;
      if x != w {
        assert t.workers[x].Caught?;
      }
    }
  }

  /** Without a panic, no index below the counter is lost. */
  lemma AwaitedKept<S, P>(f: (nat, S) -> Outcome<S, P>, s: State<S, P>, w: nat, j: nat)
    requires Apart(s) && CanStep(s, w) && !Panicky(Step(f, s, w)) && !s.workers[w].Storing?
    requires j < Min(s.next, |s.slots|) ==> j in s.started || Awaited(s, j)
    ensures var t := Step(f, s, w); j < Min(t.next, |t.slots|) ==> j in t.started || Awaited(t, j)
  {
    var t := Step(f, s, w);
    if j < Min(t.next, |t.slots|) && j !in t.started {
      if j < s.next {
        assert forall i :: i in s.started ==> i in t.started;
        var x :| 0 <= x < |s.workers| && Awaits(s.workers[x], j);
        if x == w {
          AwaitsOn(f, s, w, j);
        }
        assert Awaits(t.workers[x], j);
      } else {
        assert Awaits(t.workers[w], j);
      }
    }
  }

  lemma AwaitsOn<S, P>(f: (nat, S) -> Outcome<S, P>, s: State<S, P>, w: nat, j: nat)
    requires CanStep(s, w) && Awaits(s.workers[w], j) && !Panicky(Step(f, s, w))
    ensures Awaits(Step(f, s, w).workers[w], j) || j in Step(f, s, w).started
  {
    var t := Step(f, s, w);
    assert !t.workers[w].Caught?;
    if s.workers[w].InBlock? {
      assert t.started[|s.started|] == s.workers[w].i;
    }
  }

  lemma CompleteKept<S(!new), P(!new)>(f: (nat, S) -> Outcome<S, P>, was: seq<S>, s: State<S, P>, w: nat)
    requires Apart(s) && Once(s) && SlotsDone(f, was, s) && Complete(f, was, s) && CanStep(s, w)
    ensures Complete(f, was, Step(f, s, w))
  {
    hide Distinct, Running, Apart, Awaited, Panicky;
    var t := Step(f, s, w);
    if !Panicky(t) {
      if Panicky(s) {
        PanickyKept(f, s, w);
      }
      assert t.first.None? && !t.workers[w].Caught? by { CalmState(t, w); }
      CalmState(s, w);
      forall j | 0 <= j < Min(t.next, |t.slots|) ensures j in t.started || Awaited(t, j) {
        AwaitedKept(f, s, w, j);
      }
      forall j | 0 <= j < |was| && j in t.started && !Running(t, j) ensures f(j, was[j]).Returned? {
        StillRunning(f, s, w, j);
        ReturnedKept(f, was, s, w, j);
      }
    }
  }

  lemma CalmState<S, P>(s: State<S, P>, w: nat)
    requires !Panicky(s) && w < |s.workers|
    ensures s.first.None? && !s.workers[w].Caught?
  {
  }

  lemma ReturnedKept<S(!new), P(!new)>(f: (nat, S) -> Outcome<S, P>, was: seq<S>, s: State<S, P>, w: nat, j: nat)
    requires Apart(s) && Once(s) && SlotsDone(f, was, s) && Complete(f, was, s) && CanStep(s, w)
    requires !Panicky(s) && !Panicky(Step(f, s, w)) && j < |was| && j in Step(f, s, w).started
      && !Running(Step(f, s, w), j)
    ensures f(j, was[j]).Returned?
  {
    hide Distinct, Running, Awaited, Panicky;
    var t := Step(f, s, w);
    CalmState(t, w);
    StillRunning(f, s, w, j);
    if s.workers[w].Calling? {
      ItsOwn(s, w);
    }
  }

  // The counter

  ghost function GoneSet<S, P>(s: State<S, P>): set<nat> { set w | 0 <= w < |s.workers| && s.workers[w].Gone? }

  /** The counter overshoots n by one block for each worker that has left. */
  ghost predicate Bounded<S, P>(s: State<S, P>) { s.next <= |s.slots| + 31 + 32 * |GoneSet(s)| }

  lemma GoneGrows<S, P>(f: (nat, S) -> Outcome<S, P>, s: State<S, P>, w: nat)
    requires CanStep(s, w)
    ensures |GoneSet(Step(f, s, w))| == |GoneSet(s)| + if Step(f, s, w).workers[w].Gone? then 1 else 0
  {
    var t := Step(f, s, w);
    StepOther(f, s, w);
    hide Step;
    if t.workers[w].Gone? {
      assert GoneSet(t) == GoneSet(s) + {w};
    } else {
      assert GoneSet(t) == GoneSet(s);
    }
  }

  lemma StepOther<S, P>(f: (nat, S) -> Outcome<S, P>, s: State<S, P>, w: nat)
    requires CanStep(s, w)
    ensures var t := Step(f, s, w);
      |t.workers| == |s.workers| && forall x :: 0 <= x < |s.workers| && x != w ==> t.workers[x] == s.workers[x]
  {
  }

  lemma BoundedKept<S, P>(f: (nat, S) -> Outcome<S, P>, s: State<S, P>, w: nat)
    requires Bounded(s) && CanStep(s, w)
    ensures Bounded(Step(f, s, w))
  {
    hide GoneSet;
    GoneGrows(f, s, w);
  }

  lemma {:induction false} Fewer(s: set<nat>, n: nat)
    requires forall x :: x in s ==> x < n
    ensures |s| <= n
  {
    if n > 0 {
      var rest := s - {n - 1};
      Fewer(rest, n - 1);
      assert s == rest || s == rest + {n - 1};
    } else {
      assert s == {};
    }
  }

  // Every interleaving

  ghost predicate Inv<S(!new), P(!new)>(f: (nat, S) -> Outcome<S, P>, was: seq<S>, s: State<S, P>) {
    Apart(s) && Once(s) && SlotsDone(f, was, s) && Honest(f, was, s) && Complete(f, was, s) && Bounded(s)
  }

  lemma StepSame<S, P>(f: (nat, S) -> Outcome<S, P>, s: State<S, P>, w: nat)
    requires CanStep(s, w)
    ensures |Step(f, s, w).workers| == |s.workers| && |Step(f, s, w).slots| == |s.slots|
  {
  }

  lemma {:induction false} InvRun<S(!new), P(!new)>(
      f: (nat, S) -> Outcome<S, P>, was: seq<S>, s: State<S, P>, order: seq<nat>)
    requires Inv(f, was, s) && Legal(f, s, order)
    ensures Inv(f, was, After(f, s, order)) && |After(f, s, order).workers| == |s.workers|
    decreases |order|
  {
    hide Apart, Once, SlotsDone, Honest, Complete, Bounded, CanStep, Step;
    if order != [] {
      var w := order[0];
      ApartKept(f, s, w);
      OnceKept(f, s, w);
      SlotsKept(f, was, s, w);
      HonestKept(f, was, s, w);
      CompleteKept(f, was, s, w);
      BoundedKept(f, s, w);
      StepSame(f, s, w);
      InvRun(f, was, Step(f, s, w), order[1..]);
    }
  }

  lemma StartInv<S(!new), P(!new)>(f: (nat, S) -> Outcome<S, P>, slots: seq<S>, workers: nat)
    ensures Inv(f, slots, Start(slots, workers)) && |Start<S, P>(slots, workers).workers| == workers
  {
    var s: State<S, P> := Start(slots, workers);
    assert GoneSet(s) == {};
  }

  /** In every interleaving, no index starts twice, and the counter stays
      within a block per worker of n, so it cannot overflow. */
  lemma StartsOnce<S(!new), P(!new)>(f: (nat, S) -> Outcome<S, P>, slots: seq<S>, workers: nat, order: seq<nat>)
    requires Legal(f, Start(slots, workers), order)
    ensures var s := After(f, Start(slots, workers), order);
      && (forall i, j :: 0 <= i < j < |s.started| ==> s.started[i] != s.started[j])
      && (forall j :: j in s.started ==> j < |slots|)
      && s.next <= |slots| + 31 + 32 * workers
  {
    StartInv(f, slots, workers);
    InvRun(f, slots, Start(slots, workers), order);
    var s := After(f, Start(slots, workers), order);
    Fewer(GoneSet(s), workers);
  }

  /** An interleaving that has ended without a panic to report has done every
      index its own work, once. */
  lemma QuietEnd<S(!new), P(!new)>(f: (nat, S) -> Outcome<S, P>, was: seq<S>, s: State<S, P>)
    requires Inv(f, was, s) && AllGone(s.workers) && |s.workers| > 0 && s.first.None?
    ensures forall j :: 0 <= j < |was| ==> j in s.started && f(j, was[j]).Returned? && s.slots[j] == f(j, was[j]).slot
  {
    hide Distinct, Apart, Honest, Bounded;
    assert s.workers[0].Gone?;
    assert !Panicky(s);
    forall j | 0 <= j < |was| ensures j in s.started && !Running(s, j) {
      assert !Awaited(s, j);
    }
  }

  /** eachIndex ends as the plain loop does, on every interleaving: it panics
      exactly when some call does, with the value of one that did; otherwise it
      leaves the slots the loop leaves. Even then a slot is untouched or holds
      its own work. */
  lemma EachIndexIsLoop<S(!new), P(!new)>(procs: nat, f: (nat, S) -> Outcome<S, P>, slots: seq<S>, r: Result<S, P>)
    requires Ends(procs, f, slots, r)
    ensures r.panic.Some? <==> AnyPanics(f, slots)
    ensures r.panic.Some? <==> Loop(f, slots, 0).panic.Some?
    ensures r.panic.Some? ==> PanicsWith(f, slots, r.panic.value)
    ensures r.panic.None? ==> r == Loop(f, slots, 0)
    ensures |r.slots| == |slots|
    ensures forall j :: 0 <= j < |slots| ==> r.slots[j] == slots[j] || r.slots[j] == f(j, slots[j]).slot
  {
    hide Inv;
    LoopPoints(f, slots, 0);
    var workers := Min(procs, MAX_WORKERS);
    if |slots| < MIN_PARALLEL || workers < 2 {
      LoopHonest(f, slots, 0);
    } else {
      var order :| EndsBy(f, Start(slots, workers), order, r);
      StartInv(f, slots, workers);
      InvRun(f, slots, Start(slots, workers), order);
      EndIsLoop(f, slots, After(f, Start(slots, workers), order));
    }
  }

  lemma EndIsLoop<S(!new), P(!new)>(f: (nat, S) -> Outcome<S, P>, was: seq<S>, s: State<S, P>)
    requires Inv(f, was, s) && AllGone(s.workers) && |s.workers| > 0
    ensures s.first.Some? <==> AnyPanics(f, was)
    ensures s.first.Some? ==> PanicsWith(f, was, s.first.value)
    ensures s.first.None? ==> s.slots == Loop(f, was, 0).slots
    ensures |s.slots| == |was|
    ensures forall j :: 0 <= j < |was| ==> s.slots[j] == was[j] || s.slots[j] == f(j, was[j]).slot
  {
    hide Apart, Once, Bounded, Complete, Loop;
    LoopPoints(f, was, 0);
    if s.first.None? {
      QuietEnd(f, was, s);
    }
  }

  lemma {:induction false} LoopHonest<S(!new), P(!new)>(f: (nat, S) -> Outcome<S, P>, slots: seq<S>, i: nat)
    requires i <= |slots|
    ensures Loop(f, slots, i).panic.Some? ==>
      exists j :: i <= j < |slots| && f(j, slots[j]).Panicked? && f(j, slots[j]).panic == Loop(f, slots, i).panic.value
    ensures |Loop(f, slots, i).slots| == |slots|
    ensures forall j :: 0 <= j < |slots| ==>
      Loop(f, slots, i).slots[j] == slots[j] || (j >= i && Loop(f, slots, i).slots[j] == f(j, slots[j]).slot)
    decreases |slots| - i
  {
    if i < |slots| && f(i, slots[i]).Returned? {
      var after := slots[i := f(i, slots[i]).slot];
      LoopHonest(f, after, i + 1);
      assert forall j :: i < j < |slots| ==> after[j] == slots[j];
    }
  }

  // Every interleaving ends

  /** How many steps a worker may still take for the block it holds. */
  function Weight<P>(w: Worker<P>): nat {
    match w
    case Fetching => 4
    case InBlock(i, end) => if i <= end then 3 * (end - i) + 5 else 5
    case Calling(i, end) => if i <= end then 3 * (end - i) + 4 else 4
    case Caught(_) => 2
    case Storing => 1
    case Gone => 0
  }

  function Weights<P>(workers: seq<Worker<P>>): nat {
    if workers == [] then 0 else Weight(workers[0]) + Weights(workers[1..])
  }

  lemma {:induction false} WeightsMove<P>(workers: seq<Worker<P>>, w: nat, pc: Worker<P>)
    requires w < |workers|
    ensures Weights(workers[w := pc]) == Weights(workers) - Weight(workers[w]) + Weight(pc)
  {
    var after := workers[w := pc];
    if w == 0 {
      assert after[1..] == workers[1..];
    } else {
      WeightsMove(workers[1..], w - 1, pc);
      assert after[1..] == workers[1..][w - 1 := pc];
    }
  }

  function Left<S, P>(s: State<S, P>): nat {
    5 * (if s.next < |s.slots| then |s.slots| - s.next else 0) + Weights(s.workers)
  }

  lemma LeftFalls<S, P>(f: (nat, S) -> Outcome<S, P>, s: State<S, P>, w: nat)
    requires CanStep(s, w) && Apart(s)
    ensures Left(Step(f, s, w)) < Left(s)
  {
    hide Weights;
    WeightsMove(s.workers, w, Step(f, s, w).workers[w]);
  }

  lemma {:induction false} OrderBounded<S(!new), P(!new)>(f: (nat, S) -> Outcome<S, P>, s: State<S, P>, order: seq<nat>)
    requires Apart(s) && Legal(f, s, order)
    ensures |order| <= Left(s) && Apart(After(f, s, order))
    decreases |order|
  {
    hide Apart, CanStep, Step, Left;
    if order != [] {
      ApartKept(f, s, order[0]);
      LeftFalls(f, s, order[0]);
      OrderBounded(f, Step(f, s, order[0]), order[1..]);
    }
  }

  lemma {:induction false} StartWeight<P>(workers: seq<Worker<P>>)
    requires forall w :: 0 <= w < |workers| ==> workers[w].Fetching?
    ensures Weights(workers) == 4 * |workers|
  {
    if workers != [] {
      StartWeight(workers[1..]);
    }
  }

  /** No interleaving goes on for ever, and none stops early: a worker that has
      not left can step, and only so many steps can be taken. */
  lemma EveryOrderEnds<S(!new), P(!new)>(f: (nat, S) -> Outcome<S, P>, slots: seq<S>, workers: nat, order: seq<nat>)
    requires Legal(f, Start(slots, workers), order)
    ensures |order| <= 5 * |slots| + 4 * workers
    ensures var s := After(f, Start(slots, workers), order); AllGone(s.workers) || exists w :: CanStep(s, w)
  {
    StartInv(f, slots, workers);
    StartWeight(Start<S, P>(slots, workers).workers);
    OrderBounded(f, Start(slots, workers), order);
    var s := After(f, Start(slots, workers), order);
    if !AllGone(s.workers) {
      var w :| 0 <= w < |s.workers| && !s.workers[w].Gone?;
      assert CanStep(s, w);
    }
  }

  // After a panic

  /** The counter is past the end, and whatever is held or started by now was
      held before. */
  ghost predicate NoneNew<S, P>(s: State<S, P>, t: State<S, P>) {
    && |t.workers| == |s.workers| && |t.slots| == |s.slots| && t.next >= |t.slots|
    && (forall w, j :: 0 <= w < |t.workers| && Holds(t.workers[w], j) ==> Holds(s.workers[w], j))
    && (forall j :: j in t.started && j !in s.started ==> exists w :: 0 <= w < |s.workers| && Holds(s.workers[w], j))
  }

  lemma NoneNewStep<S, P>(f: (nat, S) -> Outcome<S, P>, s: State<S, P>, t: State<S, P>, w: nat)
    requires NoneNew(s, t) && CanStep(t, w)
    ensures NoneNew(s, Step(f, t, w))
  {
    var u := Step(f, t, w);
    StepOther(f, t, w);
    if t.workers[w].InBlock? && t.workers[w].i < t.workers[w].end {
      var i := t.workers[w].i;
      assert Holds(t.workers[w], i) && Holds(s.workers[w], i);
      assert forall j :: j in u.started ==> j in t.started || j == i;
    }
  }

  lemma {:induction false} NoneNewRun<S,
      P>(f: (nat, S) -> Outcome<S, P>, s: State<S, P>, t: State<S, P>, order: seq<nat>)
    requires NoneNew(s, t) && Legal(f, t, order)
    ensures NoneNew(s, After(f, t, order))
    decreases |order|
  {
    hide NoneNew, CanStep, Step;
    if order != [] {
      NoneNewStep(f, s, t, order[0]);
      NoneNewRun(f, s, Step(f, t, order[0]), order[1..]);
    }
  }

  /** Once a worker that panicked has stored its mark, the others stop taking
      indexes: only those of the blocks already held are still started. */
  lemma StopsTaking<S, P>(f: (nat, S) -> Outcome<S, P>, s: State<S, P>, w: nat, order: seq<nat>)
    requires CanStep(s, w) && s.workers[w].Storing? && Legal(f, Step(f, s, w), order)
    ensures var t := After(f, Step(f, s, w), order);
      forall j :: j in t.started && j !in s.started ==> exists x :: 0 <= x < |s.workers| && Holds(s.workers[x], j)
  {
    hide Legal, After;
    var t := Step(f, s, w);
    assert NoneNew(t, t);
    NoneNewRun(f, t, t, order);
    assert forall x, j :: 0 <= x < |t.workers| && Holds(t.workers[x], j) ==> Holds(s.workers[x], j);
  }
}
