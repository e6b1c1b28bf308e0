/** The shortest gap a cron expression can leave between two runs. */
module Cron {
  import opened Options
  import opened Decimal
  import opened Text
  import opened Sorting

  const MAX_CRON_BYTES := 128
  const MIN_INTERVAL := 5
  const DAY := 1440

  // One item of a field

  /** start, start + step, start + 2 step and so on up to end. */
  datatype Span = Span(start: nat, end: nat, step: nat)

  predicate IsNumber(s: string) { 1 <= |s| <= 2 && AllDigits(s) }

  function Number(s: string): Option<nat> { if IsNumber(s) then Some(Value(s)) else None }

  /** One item of a comma list. */
  function ParseItem(item: string, lo: nat, hi: nat): Option<Span> {
    var h := Cut(item, '/');
    var step := if h.found then Number(h.after) else Some(1);
    if step.None? || step.value < 1 then None
    else if h.before == "*" then Some(Span(lo, hi, step.value))
    else if '-' in h.before then
      var r := Cut(h.before, '-');
      var a, b := Number(r.before), Number(r.after);
      if a.None? || b.None? || a.value > b.value || a.value < lo || b.value > hi then None
      else Some(Span(a.value, b.value, step.value))
    else if h.found then None
    else
      var n := Number(h.before);
      if n.None? || n.value < lo || n.value > hi then None else Some(Span(n.value, n.value, 1))
  }

  /** The written forms: "*", "*" with a step, a number, a range, and a range
      with a step. */
  ghost predicate Denotes(item: string, lo: nat, hi: nat, sp: Span) {
    || (item == "*" && sp == Span(lo, hi, 1))
    || (exists n :: IsNumber(n) && item == "*/" + n && Value(n) >= 1 && sp == Span(lo, hi, Value(n)))
    || (IsNumber(item) && lo <= Value(item) <= hi && sp == Span(Value(item), Value(item), 1))
    || (exists a, b :: IsRange(a, b, lo, hi) && item == a + "-" + b && sp == Span(Value(a), Value(b), 1))
    || (exists a, b, n :: IsRange(a, b, lo, hi) && IsNumber(n) && item == a + "-" + b + "/" + n && Value(n) >= 1
                          && sp == Span(Value(a), Value(b), Value(n)))
  }

  predicate IsRange(a: string, b: string, lo: nat, hi: nat) {
    IsNumber(a) && IsNumber(b) && lo <= Value(a) <= Value(b) <= hi
  }

  lemma NoMarks(n: string)
    requires IsNumber(n)
    ensures '/' !in n && '-' !in n && '*' !in n && n != "*"
  {
  }

  /** What a parsed item was written as. */
  lemma ItemIsWritten(item: string, lo: nat, hi: nat)
    requires ParseItem(item, lo, hi).Some?
    ensures Denotes(item, lo, hi, ParseItem(item, lo, hi).value)
  {
    hide Cut, Value, IsNumber;
    var h := Cut(item, '/');
    CutNone(item, '/');
    if h.found {
      CutIff(item, '/', h.before, h.after);
    }
    if h.before == "*" {
      if h.found {
        assert item == "*/" + h.after;
      }
    } else if '-' in h.before {
      var r := Cut(h.before, '-');
      CutNone(h.before, '-');
      CutIff(h.before, '-', r.before, r.after);
      assert IsRange(r.before, r.after, lo, hi);
      if h.found {
        assert item == r.before + "-" + r.after + "/" + h.after;
      }
    }
  }

  lemma RangeHasDash(a: string, b: string)
    requires IsNumber(a) && IsNumber(b)
    ensures var s := a + "-" + b; '-' in s && s != "*" && '/' !in s && Cut(s, '-') == Halves(a, b, true)
  {
    var s := a + "-" + b;
    assert s[|a|] == '-';
    NoMarks(a);
    NoMarks(b);
    CutIff(s, '-', a, b);
  }

  // Every written form parses to what it denotes

  lemma StarParses(lo: nat, hi: nat)
    ensures ParseItem("*", lo, hi) == Some(Span(lo, hi, 1))
  {
    hide Cut;
    CutNone("*", '/');
  }

  lemma StarStepParses(n: string, lo: nat, hi: nat)
    requires IsNumber(n) && Value(n) >= 1
    ensures ParseItem("*/" + n, lo, hi) == Some(Span(lo, hi, Value(n)))
  {
    hide Cut, Value;
    assert "*/" + n == "*" + ['/'] + n;
    CutIff("*/" + n, '/', "*", n);
  }

  lemma NumberParses(n: string, lo: nat, hi: nat)
    requires IsNumber(n) && lo <= Value(n) <= hi
    ensures ParseItem(n, lo, hi) == Some(Span(Value(n), Value(n), 1))
  {
    hide Cut, Value;
    NoMarks(n);
    CutNone(n, '/');
  }

  lemma RangeParses(a: string, b: string, lo: nat, hi: nat)
    requires IsRange(a, b, lo, hi)
    ensures ParseItem(a + "-" + b, lo, hi) == Some(Span(Value(a), Value(b), 1))
  {
    hide Cut, Value;
    RangeHasDash(a, b);
    CutNone(a + "-" + b, '/');
  }

  lemma RangeStepParses(a: string, b: string, n: string, lo: nat, hi: nat)
    requires IsRange(a, b, lo, hi) && IsNumber(n) && Value(n) >= 1
    ensures ParseItem(a + "-" + b + "/" + n, lo, hi) == Some(Span(Value(a), Value(b), Value(n)))
  {
    hide Cut, Value;
    var range := a + "-" + b;
    RangeHasDash(a, b);
    assert a + "-" + b + "/" + n == range + ['/'] + n;
    CutIff(a + "-" + b + "/" + n, '/', range, n);
  }

  lemma WrittenParses(item: string, lo: nat, hi: nat, sp: Span)
    requires Denotes(item, lo, hi, sp)
    ensures ParseItem(item, lo, hi) == Some(sp)
  {
    hide ParseItem, Value;
    if item == "*" && sp == Span(lo, hi, 1) {
      StarParses(lo, hi);
    } else if n :| IsNumber(n) && item == "*/" + n && Value(n) >= 1 && sp == Span(lo, hi, Value(n)) {
      StarStepParses(n, lo, hi);
    } else if IsNumber(item) && lo <= Value(item) <= hi && sp == Span(Value(item), Value(item), 1) {
      NumberParses(item, lo, hi);
    } else if a, b :| IsRange(a, b, lo, hi) && item == a + "-" + b && sp == Span(Value(a), Value(b), 1) {
      RangeParses(a, b, lo, hi);
    } else {
      var a, b, n :| IsRange(a, b, lo, hi) && IsNumber(n) && item == a + "-" + b + "/" + n && Value(n) >= 1
                     && sp == Span(Value(a), Value(b), Value(n));
      RangeStepParses(a, b, n, lo, hi);
    }
  }

  /** An item parses to a span exactly when it is written as one. */
  lemma ItemMeaning(item: string, lo: nat, hi: nat, sp: Span)
    ensures ParseItem(item, lo, hi) == Some(sp) <==> Denotes(item, lo, hi, sp)
  {
    hide ParseItem, Denotes;
    if ParseItem(item, lo, hi) == Some(sp) {
      ItemIsWritten(item, lo, hi);
    }
    if Denotes(item, lo, hi, sp) {
      WrittenParses(item, lo, hi, sp);
    }
  }

  lemma SpanWithin(item: string, lo: nat, hi: nat)
    requires lo <= hi && ParseItem(item, lo, hi).Some?
    ensures var sp := ParseItem(item, lo, hi).value; lo <= sp.start <= sp.end <= hi && sp.step >= 1
  {
    hide Cut, Number;
  }

  // A field

  function Tick(sp: Span, k: nat): nat { if k == 0 then sp.start else Tick(sp, k - 1) + sp.step }

  ghost predicate InSpan(sp: Span, v: int) { v <= sp.end && exists k: nat :: Tick(sp, k) == v }

  /** v is selected by one of the first n items. */
  ghost predicate SelectedBy(items: seq<string>, lo: nat, hi: nat, n: nat, v: int)
    requires n <= |items|
  {
    exists i :: 0 <= i < n && ItemSelects(items[i], lo, hi, v)
  }

  ghost predicate ItemSelects(item: string, lo: nat, hi: nat, v: int) {
    ParseItem(item, lo, hi).Some? && InSpan(ParseItem(item, lo, hi).value, v)
  }

  ghost predicate FieldOk(field: string, lo: nat, hi: nat) {
    forall i :: 0 <= i < |Split(field, ',')| ==> ParseItem(Split(field, ',')[i], lo, hi).Some?
  }

  ghost predicate Selects(field: string, lo: nat, hi: nat, v: int) {
    SelectedBy(Split(field, ','), lo, hi, |Split(field, ',')|, v)
  }

  lemma {:induction false} TickGrows(sp: Span, j: nat, k: nat)
    requires j <= k
    ensures Tick(sp, j) <= Tick(sp, k)
    decreases k
  {
    if j < k {
      TickGrows(sp, j, k - 1);
    }
  }

  method AddSpan(selected: set<int>, sp: Span) returns (after: set<int>)
    requires sp.step >= 1
    ensures forall v :: v in after <==> v in selected || InSpan(sp, v)
  {
    after := selected;
    var v := sp.start;
    ghost var k: nat := 0;
    while v <= sp.end
      invariant v == Tick(sp, k)
      invariant forall x :: x in after ==> x in selected || InSpan(sp, x)
      invariant forall x :: x in selected ==> x in after
      invariant forall j :: 0 <= j < k ==> Tick(sp, j) in after
      decreases sp.end + 1 - v
    {
      assert InSpan(sp, v);
      after := after + {v};
      v := v + sp.step;
      k := k + 1;
    }
    forall x | InSpan(sp, x) ensures x in after {
      var j: nat :| Tick(sp, j) == x;
      if j >= k {
        TickGrows(sp, k, j);
      }
    }
  }

  lemma AnyOf<T>(s: set<T>) returns (x: T)
    requires |s| > 0
    ensures x in s
  {
    x :| x in s;
  }

  /** The values of a set, in whatever order a map gives them, then sorted. */
  method SortedValues(selected: set<int>) returns (out: seq<int>)
    ensures Strict(out) && forall v :: v in out <==> v in selected
  {
    var left := selected;
    var s: seq<int> := [];
    while |left| > 0
      invariant left <= selected && Distinct(s)
      invariant forall v :: v in s <==> v in selected && v !in left
      decreases |left|
    {
      ghost var some := AnyOf(left);
      var v :| v in left;
      s := s + [v];
      left := left - {v};
    }
    SortMembers(s);
    SortStrict(s);
    out := Sort(s);
  }

  /** The distinct values a field selects, in order, or None when an item is not
      well written or out of bounds. */
  method ParseField(field: string, lo: nat, hi: nat) returns (r: Option<seq<int>>)
    requires lo <= hi
    ensures r.Some? <==> FieldOk(field, lo, hi)
    ensures r.Some? ==> Strict(r.value) && |r.value| > 0
    ensures r.Some? ==> forall v :: v in r.value <==> Selects(field, lo, hi, v)
    ensures r.Some? ==> forall v :: v in r.value ==> lo <= v <= hi
  {
    hide ParseItem, InSpan;
    var items := Split(field, ',');
    var selected: set<int> := {};
    for i := 0 to |items|
      invariant forall j :: 0 <= j < i ==> ParseItem(items[j], lo, hi).Some?
      invariant forall v :: v in selected <==> SelectedBy(items, lo, hi, i, v)
      invariant forall v :: v in selected ==> lo <= v <= hi
      invariant i > 0 ==> exists v :: v in selected
    {
      var sp := ParseItem(items[i], lo, hi);
      if sp.None? {
        return None;
      }
      SpanWithin(items[i], lo, hi);
      SpanHolds(sp.value, lo, hi);
      selected := AddSpan(selected, sp.value);
      SelectedGrows(items, lo, hi, i);
      assert sp.value.start in selected;
    }
    var out := SortedValues(selected);
    r := Some(out);
  }

  lemma SpanHolds(sp: Span, lo: nat, hi: nat)
    requires lo <= sp.start <= sp.end <= hi
    ensures InSpan(sp, sp.start) && forall v :: InSpan(sp, v) ==> lo <= v <= hi
  {
    assert Tick(sp, 0) == sp.start;
    forall v | InSpan(sp, v) ensures lo <= v <= hi {
      var k: nat :| Tick(sp, k) == v;
      TickGrows(sp, 0, k);
    }
  }

  lemma SelectedGrows(items: seq<string>, lo: nat, hi: nat, n: nat)
    requires n < |items|
    ensures forall v :: SelectedBy(items, lo, hi, n + 1, v) <==>
      SelectedBy(items, lo, hi, n, v) || ItemSelects(items[n], lo, hi, v)
  {
  }

  // An expression, read as its words

  function Lo(i: nat): nat { if i == 2 || i == 3 then 1 else 0 }

  function Hi(i: nat): nat {
    if i == 0 then 59 else if i == 1 then 23 else if i == 2 then 31 else if i == 3 then 12 else 7
  }

  /** Five words: minutes, hours, days of the month, months, days of the week. */
  ghost predicate ExprOk(expr: string, words: seq<string>) {
    && ByteLength(expr) <= 128 && |words| == 5
    && FieldOk(words[0], 0, 59) && FieldOk(words[1], 0, 23) && FieldOk(words[2], 1, 31)
    && FieldOk(words[3], 1, 12) && FieldOk(words[4], 0, 7)
  }

  /** The minutes of a day the minute and hour words select. */
  ghost predicate RunsAt(words: seq<string>, m: int)
    requires |words| == 5
  {
    0 <= m < DAY && Selects(words[0], 0, 59, m % 60) && Selects(words[1], 0, 23, m / 60)
  }

  /** Minute t of an unbounded timeline is a run when only some days run. */
  ghost predicate Instant(words: seq<string>, days: int -> bool, t: int)
    requires |words| == 5
  {
    days(t / DAY) && RunsAt(words, t % DAY)
  }

  ghost predicate Apart(words: seq<string>, days: int -> bool, gap: int)
    requires |words| == 5
  {
    forall t, u :: Instant(words, days, t) && Instant(words, days, u) && t < u ==> u - t >= gap
  }

  function EveryDay(): int -> bool { (day: int) => true }

  ghost predicate Attained(words: seq<string>, gap: int)
    requires |words| == 5
  {
    exists t, u :: Instant(words, EveryDay(), t) && Instant(words, EveryDay(), u) && t < u && u - t == gap
  }

  /** r is the exact lower bound of the gaps, None for anything but five
      well-written words. */
  ghost predicate IsMinGap(expr: string, words: seq<string>, r: Option<int>) {
    && (r.Some? <==> ExprOk(expr, words))
    && (r.Some? ==>
          && |words| == 5 && 1 <= r.value <= DAY
          && (forall days :: Apart(words, days, r.value)) && Attained(words, r.value))
  }

  // The fold over one day's runs

  /** The shortest gap between neighbours of the first n runs. */
  function Gap(runs: seq<int>, n: nat): int
    requires 1 <= n <= |runs|
  {
    if n == 1 then runs[0] + DAY - runs[|runs| - 1]
    else
      var g := Gap(runs, n - 1);
      if runs[n - 1] - runs[n - 2] < g then runs[n - 1] - runs[n - 2] else g
  }

  lemma {:induction false} GapBelow(runs: seq<int>, n: nat, i: nat)
    requires 1 <= i < n <= |runs|
    ensures Gap(runs, n) <= runs[i] - runs[i - 1]
    decreases n
  {
    if i < n - 1 {
      GapBelow(runs, n - 1, i);
    }
  }

  lemma {:induction false} GapWrap(runs: seq<int>, n: nat)
    requires 1 <= n <= |runs|
    ensures Gap(runs, n) <= runs[0] + DAY - runs[|runs| - 1]
  {
    if n > 1 {
      GapWrap(runs, n - 1);
    }
  }

  /** The gap is the wrap or that of two neighbours. */
  lemma {:induction false} GapReached(runs: seq<int>, n: nat) returns (i: nat)
    requires 1 <= n <= |runs|
    ensures i < n && Gap(runs, n) == if i == 0 then runs[0] + DAY - runs[|runs| - 1] else runs[i] - runs[i - 1]
  {
    if n == 1 {
      i := 0;
    } else {
      i := GapReached(runs, n - 1);
      if runs[n - 1] - runs[n - 2] < Gap(runs, n - 1) {
        i := n - 1;
      }
    }
  }

  predicate DayRuns(runs: seq<int>) { |runs| > 0 && Strict(runs) && forall i :: 0 <= i < |runs| ==> 0 <= runs[i] < DAY }

  /** On the timeline, two runs are never closer than the gap, whatever days
      lie between. */
  lemma GapHolds(runs: seq<int>, t: int, u: int)
    requires DayRuns(runs) && t < u && t % DAY in runs && u % DAY in runs
    ensures u - t >= Gap(runs, |runs|)
  {
    var last := |runs| - 1;
    var i :| 0 <= i < |runs| && runs[i] == t % DAY;
    var j :| 0 <= j < |runs| && runs[j] == u % DAY;
    if t / DAY == u / DAY {
      assert i < j;
      GapBelow(runs, |runs|, i + 1);
      assert runs[i + 1] <= runs[j];
    } else {
      GapWrap(runs, |runs|);
      assert runs[i] <= runs[last] && runs[0] <= runs[j];
      DaysApart(t, u);
    }
  }

  lemma DaysApart(t: int, u: int)
    requires t < u && t / DAY != u / DAY
    ensures u - t >= DAY + u % DAY - t % DAY
  {
    assert t == DAY * (t / DAY) + t % DAY && u == DAY * (u / DAY) + u % DAY;
  }

  /** Two runs of the first two days are exactly the gap apart. */
  lemma GapMet(runs: seq<int>) returns (t: int, u: int)
    requires DayRuns(runs)
    ensures t < u && u - t == Gap(runs, |runs|) && t % DAY in runs && u % DAY in runs
  {
    var i := GapReached(runs, |runs|);
    if i == 0 {
      t, u := runs[|runs| - 1], runs[0] + DAY;
      assert u % DAY == runs[0];
    } else {
      t, u := runs[i - 1], runs[i];
    }
  }

  // The runs of a day

  /** The product of the hours and the minutes, hour by hour. */
  method Product(hours: seq<int>, minutes: seq<int>) returns (runs: seq<int>)
    requires Strict(hours) && Strict(minutes)
    requires forall m :: m in minutes ==> 0 <= m <= 59
    ensures Strict(runs)
    ensures forall r :: r in runs <==> r % 60 in minutes && r / 60 in hours
  {
    runs := [];
    for i := 0 to |hours|
      invariant Strict(runs)
      invariant forall r :: r in runs <==> r % 60 in minutes && r / 60 in hours[..i]
    {
      ghost var before := runs;
      for j := 0 to |minutes|
        invariant Strict(runs)
        invariant forall r :: r in runs <==> r in before || (r % 60 in minutes[..j] && r / 60 == hours[i])
      {
        var run := hours[i] * 60 + minutes[j];
        assert minutes[j] in minutes;
        Follows(runs, before, hours, minutes, i, j);
        StrictGrows(runs, run);
        MinuteGrows(minutes, j, hours[i]);
        runs := runs + [run];
      }
      assert minutes[..|minutes|] == minutes;
      assert forall h :: h in hours[..i + 1] <==> h in hours[..i] || h == hours[i] by {
        assert hours[..i + 1] == hours[..i] + [hours[i]];
      }
    }
    assert hours[..|hours|] == hours;
  }

  lemma MinuteGrows(minutes: seq<int>, j: nat, hour: int)
    requires j < |minutes| && 0 <= minutes[j] <= 59
    ensures forall r ::
      r % 60 in minutes[..j + 1] && r / 60 == hour <==>
        (r % 60 in minutes[..j] && r / 60 == hour) || r == hour * 60 + minutes[j]
  {
    assert minutes[..j + 1] == minutes[..j] + [minutes[j]];
  }

  /** The next run comes after all before it. */
  lemma Follows(runs: seq<int>, before: seq<int>, hours: seq<int>, minutes: seq<int>, i: nat, j: nat)
    requires i < |hours| && j < |minutes| && Strict(hours) && Strict(minutes) && 0 <= minutes[j] <= 59
    requires forall r :: r in before ==> r / 60 in hours[..i]
    requires forall r :: r in runs ==> r in before || (r % 60 in minutes[..j] && r / 60 == hours[i])
    ensures forall r :: r in runs ==> r < hours[i] * 60 + minutes[j]
  {
    forall r | r in runs ensures r < hours[i] * 60 + minutes[j] {
      if r in before {
        assert r / 60 in hours[..i];
        var k :| 0 <= k < i && hours[k] == r / 60;
        assert hours[k] < hours[i];
      } else {
        var k :| 0 <= k < j && minutes[k] == r % 60;
        assert minutes[k] < minutes[j];
      }
    }
  }

  lemma StrictGrows(s: seq<int>, x: int)
    requires Strict(s) && forall y :: y in s ==> y < x
    ensures Strict(s + [x]) && forall y :: y in s + [x] <==> y in s || y == x
  {
    assert forall i :: 0 <= i < |s| ==> s[i] in s;
  }

  lemma SortAgain(s: seq<int>)
    requires Strict(s)
    ensures Strict(Sort(s)) && |Sort(s)| == |s| && forall x :: x in Sort(s) <==> x in s
  {
    SortMembers(s);
    SortStrict(s);
  }

  method FoldGap(runs: seq<int>) returns (gap: int)
    requires |runs| > 0
    ensures gap == Gap(runs, |runs|)
  {
    gap := runs[0] + DAY - runs[|runs| - 1];
    for i := 1 to |runs|
      invariant gap == Gap(runs, i)
    {
      gap := if runs[i] - runs[i - 1] < gap then runs[i] - runs[i - 1] else gap;
    }
  }

  /** The bound holds on every choice of days and is met when all days run. */
  method MinInterval(expr: string) returns (r: Option<int>)
    ensures forall words :: ReadsAs(expr, words) ==> IsMinGap(expr, words, r)
  {
    hide Fields, IsMinGap, ReadsAs;
    r := GapOfWords(expr, Fields(expr));
    forall words | ReadsAs(expr, words) ensures IsMinGap(expr, words, r) {
      FieldsIff(expr, words);
    }
  }

  method GapOfWords(expr: string, words: seq<string>) returns (r: Option<int>)
    ensures IsMinGap(expr, words, r)
  {
    hide ByteLength, FieldOk, Selects, Gap, Sort, Apart, Attained, RunsAt;
    if ByteLength(expr) > MAX_CRON_BYTES {
      return None;
    }
    if |words| != 5 {
      return None;
    }
    var sets: seq<seq<int>> := [];
    for i := 0 to 5
      invariant |sets| == i
      invariant forall j :: 0 <= j < i ==> FieldOk(words[j], Lo(j), Hi(j))
      invariant forall j :: 0 <= j < i ==> FieldSet(words[j], Lo(j), Hi(j), sets[j])
    {
      var parsed := ParseField(words[i], Lo(i), Hi(i));
      if parsed.None? {
        assert !FieldOk(words[i], Lo(i), Hi(i));
        return None;
      }
      sets := sets + [parsed.value];
    }
    AllFieldsOk(words);
    var runs := Product(sets[1], sets[0]);
    SortAgain(runs);
    runs := Sort(runs);
    RunsOfDay(words, sets[0], sets[1], runs);
    var gap := FoldGap(runs);
    GapOfRuns(words, runs);
    r := Some(gap);
  }

  lemma AllFieldsOk(words: seq<string>)
    requires |words| == 5 && forall i :: 0 <= i < 5 ==> FieldOk(words[i], Lo(i), Hi(i))
    ensures FieldOk(words[0], 0, 59) && FieldOk(words[1], 0, 23) && FieldOk(words[2], 1, 31)
    ensures FieldOk(words[3], 1, 12) && FieldOk(words[4], 0, 7)
  {
    hide FieldOk;
    assert FieldOk(words[0], Lo(0), Hi(0)) && FieldOk(words[1], Lo(1), Hi(1)) && FieldOk(words[2], Lo(2), Hi(2));
    assert FieldOk(words[3], Lo(3), Hi(3)) && FieldOk(words[4], Lo(4), Hi(4));
  }

  ghost predicate FieldSet(field: string, lo: nat, hi: nat, s: seq<int>) {
    Strict(s) && |s| > 0 && (forall v :: v in s <==> Selects(field, lo, hi, v)) && forall v :: v in s ==> lo <= v <= hi
  }

  lemma RunsOfDay(words: seq<string>, minutes: seq<int>, hours: seq<int>, runs: seq<int>)
    requires |words| == 5 && FieldSet(words[0], 0, 59, minutes) && FieldSet(words[1], 0, 23, hours)
    requires Strict(runs) && forall r :: r in runs <==> r % 60 in minutes && r / 60 in hours
    ensures DayRuns(runs) && forall m :: m in runs <==> RunsAt(words, m)
  {
    hide Selects;
    var r := hours[0] * 60 + minutes[0];
    assert minutes[0] in minutes && hours[0] in hours;
    assert r % 60 == minutes[0] && r / 60 == hours[0];
    assert r in runs;
    forall m ensures m in runs <==> RunsAt(words, m) {
    }
    forall i | 0 <= i < |runs| ensures 0 <= runs[i] < DAY {
      assert runs[i] in runs;
    }
  }

  lemma GapOfRuns(words: seq<string>, runs: seq<int>)
    requires |words| == 5 && DayRuns(runs) && forall m :: m in runs <==> RunsAt(words, m)
    ensures forall days :: Apart(words, days, Gap(runs, |runs|))
    ensures Attained(words, Gap(runs, |runs|))
    ensures 1 <= Gap(runs, |runs|) <= DAY
  {
    hide Gap, RunsAt;
    var gap := Gap(runs, |runs|);
    forall days ensures Apart(words, days, gap) {
      forall t, u | Instant(words, days, t) && Instant(words, days, u) && t < u ensures u - t >= gap {
        GapHolds(runs, t, u);
      }
    }
    var t, u := GapMet(runs);
    assert Instant(words, EveryDay(), t) && Instant(words, EveryDay(), u);
    GapWrap(runs, |runs|);
  }

  // The schedule

  /** The expression is well written and its runs, every day running, are never
      closer than five minutes. */
  ghost predicate Spaced(expr: string, words: seq<string>) {
    ExprOk(expr, words) && Apart(words, EveryDay(), 5)
  }

  lemma ShortGap(expr: string, words: seq<string>, r: Option<int>)
    requires IsMinGap(expr, words, r)
    ensures r.Some? && r.value >= 5 <==> Spaced(expr, words)
    ensures Spaced(expr, words) ==> forall days :: Apart(words, days, 5)
  {
    hide Instant, FieldOk, ByteLength;
    if r.Some? && r.value >= 5 {
      forall days ensures Apart(words, days, 5) {
        assert Apart(words, days, r.value);
      }
    }
  }

  /** The interval check of TaskSchedule.Validate: exactly the spaced
      expressions, and those keep the distance on any choice of days. */
  method ValidateSchedule(expr: string) returns (ok: bool)
    ensures forall words :: ReadsAs(expr, words) ==> (ok <==> Spaced(expr, words))
    ensures forall words :: ok && ReadsAs(expr, words) ==> |words| == 5 && forall days :: Apart(words, days, 5)
  {
    hide ReadsAs, IsMinGap, Apart, ByteLength, FieldOk;
    var interval := MinInterval(expr);
    ok := interval.Some? && interval.value >= MIN_INTERVAL;
    forall words | ReadsAs(expr, words)
      ensures (ok <==> Spaced(expr, words)) && (ok ==> |words| == 5 && forall days :: Apart(words, days, 5))
    {
      ShortGap(expr, words, interval);
    }
  }
}
