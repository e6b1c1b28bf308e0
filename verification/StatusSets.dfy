/** Sets of HTTP status codes, written as a list of codes and ranges and held
    as sorted, merged ranges. */
module StatusSets {
  import opened Options
  import opened Decimal
  import opened Text
  import opened Insertion

  datatype Range = Range(lo: int, hi: int)

  const DEFAULT := "200-399"
  const MAX_PARTS := 16

  predicate IsCode(n: int) { 100 <= n <= 599 }

  // The written list

  function ParseCode(raw: string): Option<int> {
    var t := TrimSpace(raw);
    if ByteLength(t) != 3 then None
    else
      var p := ParseInt64(t);
      if p.Error? || !IsCode(p.n) then None else Some(p.n)
  }

  function ParseEntry(part: string): Option<Range> {
    var h := Cut(TrimSpace(part), '-');
    var a := ParseCode(h.before);
    if a.None? then None
    else if !h.found then Some(Range(a.value, a.value))
    else
      var b := ParseCode(h.after);
      if b.None? || b.value < a.value then None else Some(Range(a.value, b.value))
  }

  /** A code or a range as written: three digits, white space around each
      number. */
  ghost predicate Entry(part: string, r: Range) {
    || (IsCode(r.lo) && r.lo == r.hi && Padded(part, Format(r.lo)))
    || (IsCode(r.lo) && IsCode(r.hi) && r.lo <= r.hi
        && exists x, y :: part == x + "-" + y && Padded(x, Format(r.lo)) && Padded(y, Format(r.hi)))
  }

  function Listed(raw: string): seq<string> {
    var t := TrimSpace(raw);
    Split(if t == "" then DEFAULT else t, ',')
  }

  // Codes

  /** A code is written with exactly three digits. */
  lemma CodeDigits(n: int)
    requires IsCode(n)
    ensures |Format(n)| == 3 && AllDigits(Format(n)) && NoSpace(Format(n)) && '-' !in Format(n)
    ensures ByteLength(Format(n)) == 3 && ParseInt64(Format(n)) == Number(n)
  {
    FormatCanonical(n);
    assert |Format(n / 10 / 10)| == 1;
    assert |Format(n / 10)| == 2;
    DigitBytes(Format(n));
  }

  lemma {:induction false} DigitBytes(s: string)
    requires AllDigits(s)
    ensures ByteLength(s) == |s| && NoSpace(s)
  {
    if s != "" {
      DigitBytes(s[1..]);
    }
  }

  lemma {:induction false} BytesAtLeast(s: string)
    ensures ByteLength(s) >= |s|
  {
    if s != "" {
      BytesAtLeast(s[1..]);
    }
  }

  /** Three bytes that parse to a code are its three digits. */
  lemma ThreeBytes(t: string)
    requires ByteLength(t) == 3 && ParseInt64(t).Number? && IsCode(ParseInt64(t).n)
    ensures t == Format(ParseInt64(t).n)
  {
    var signed := t[0] == '+' || t[0] == '-';
    var digits := if signed then t[1..] else t;
    if signed {
      BytesAtLeast(t);
      SmallValue(digits);
    } else {
      DigitBytes(t);
      if t[0] == '0' {
        LeadingZero(t);
      } else {
        ValueFormats(t);
      }
    }
  }

  /** At most two digits stay under 100. */
  lemma SmallValue(s: string)
    requires AllDigits(s) && |s| <= 2
    ensures Value(s) < 100
  {
    if |s| == 2 {
      assert |s[..1]| == 1 && s[..1][..0] == "";
      assert Value(s[..1]) < 10;
    } else if |s| == 1 {
      assert s[..0] == "";
    }
  }

  lemma LeadingZero(s: string)
    requires AllDigits(s) && |s| == 3 && s[0] == '0'
    ensures Value(s) < 100
  {
    var init := s[..2];
    assert init[..1] == [s[0]];
    assert Value(init[..1]) == 0 by { assert init[..1][..0] == ""; }
    assert Value(init) < 10;
  }

  lemma CodeMeaning(raw: string, n: int)
    ensures ParseCode(raw) == Some(n) <==> IsCode(n) && Padded(raw, Format(n))
  {
    hide ByteLength, ParseInt64, TrimSpace, Padded, Format;
    if ParseCode(raw) == Some(n) {
      ThreeBytes(TrimSpace(raw));
    }
    if IsCode(n) {
      CodeDigits(n);
      TrimWord(raw, Format(n));
    }
  }

  // Entries

  lemma PadLeft(a: string, s: string, w: string)
    requires AllSpace(a) && Padded(s, w)
    ensures Padded(a + s, w)
  {
    var c, d :| PaddedBy(s, c, w, d);
    assert a + (c + w + d) == (a + c) + w + d;
    assert PaddedBy(a + s, a + c, w, d);
  }

  lemma PadRight(s: string, b: string, w: string)
    requires AllSpace(b) && Padded(s, w)
    ensures Padded(s + b, w)
  {
    var c, d :| PaddedBy(s, c, w, d);
    assert (c + w + d) + b == c + w + (d + b);
    assert PaddedBy(s + b, c, w, d + b);
  }

  lemma EntryIsWritten(part: string)
    requires ParseEntry(part).Some?
    ensures Entry(part, ParseEntry(part).value)
  {
    hide ParseCode, Cut, TrimSpace, Padded, Format;
    var p := TrimSpace(part);
    var r := ParseEntry(part).value;
    var h := Cut(p, '-');
    var a, b := Around(part);
    CutNone(p, '-');
    CodeMeaning(h.before, r.lo);
    if h.found {
      CutIff(p, '-', h.before, h.after);
      CodeMeaning(h.after, r.hi);
      PadLeft(a, h.before, Format(r.lo));
      PadRight(h.after, b, Format(r.hi));
      assert part == (a + h.before) + "-" + (h.after + b);
    } else {
      PadLeft(a, p, Format(r.lo));
      PadRight(a + p, b, Format(r.lo));
    }
  }

  lemma Around(s: string) returns (a: string, b: string)
    ensures AllSpace(a) && AllSpace(b) && s == a + TrimSpace(s) + b
  {
    TrimPads(s);
    a, b :| PaddedBy(s, a, TrimSpace(s), b);
  }

  lemma CodeParses(part: string, n: int)
    requires IsCode(n) && Padded(part, Format(n))
    ensures ParseEntry(part) == Some(Range(n, n))
  {
    hide ParseCode, Cut, TrimSpace, Padded, Format;
    CodeDigits(n);
    TrimWord(part, Format(n));
    CutNone(Format(n), '-');
    PadNothing(Format(n));
    CodeMeaning(Format(n), n);
  }

  lemma PadNothing(w: string)
    ensures Padded(w, w)
  {
    assert PaddedBy(w, "", w, "");
  }

  lemma TrimCore(a: string, core: string, b: string)
    requires AllSpace(a) && AllSpace(b) && core != "" && !IsSpace(core[0]) && !IsSpace(core[|core| - 1])
    ensures TrimSpace(a + core + b) == core
  {
    assert a + core + b == a + (core + b);
    TrimLeftDrops(a, core + b);
    TrimRightDrops(core, b);
  }

  /** Trimmed and cut, a padded range is its two padded codes. */
  lemma RangeCuts(a: string, m: string, b: string, c: string, n: string, d: string)
    requires AllSpace(a) && AllSpace(b) && AllSpace(c) && AllSpace(d)
    requires m != "" && n != "" && NoSpace(m) && NoSpace(n) && '-' !in m
    ensures Cut(TrimSpace((a + m + b) + "-" + (c + n + d)), '-') == Halves(m + b, c + n, true)
  {
    hide Cut, TrimSpace;
    var left, right := m + b, c + n;
    var core := left + "-" + right;
    assert core[0] == m[0] && core[|core| - 1] == n[|n| - 1];
    assert (a + m + b) + "-" + (c + n + d) == a + core + d;
    TrimCore(a, core, d);
    NoDash(m, b);
    CutIff(core, '-', left, right);
  }

  lemma RangeParses(part: string, x: string, y: string, r: Range)
    requires IsCode(r.lo) && IsCode(r.hi) && r.lo <= r.hi && part == x + "-" + y && Padded(x, Format(r.lo))
      && Padded(y, Format(r.hi))
    ensures ParseEntry(part) == Some(r)
  {
    hide ParseCode, Cut, TrimSpace, Format, AllSpace, NoSpace;
    CodeDigits(r.lo);
    CodeDigits(r.hi);
    var m, n := Format(r.lo), Format(r.hi);
    var a, b :| PaddedBy(x, a, m, b);
    var c, d :| PaddedBy(y, c, n, d);
    RangeCuts(a, m, b, c, n, d);
    PadNothing(m);
    PadRight(m, b, m);
    PadNothing(n);
    PadLeft(c, n, n);
    CodeMeaning(m + b, r.lo);
    CodeMeaning(c + n, r.hi);
  }

  lemma NoDash(m: string, b: string)
    requires '-' !in m && AllSpace(b)
    ensures '-' !in m + b
  {
  }

  /** An entry parses to a range exactly when it is written as one. */
  lemma EntryMeaning(part: string, r: Range)
    ensures ParseEntry(part) == Some(r) <==> Entry(part, r)
  {
    hide ParseEntry, Padded, Format;
    if ParseEntry(part) == Some(r) {
      EntryIsWritten(part);
    }
    if Entry(part, r) {
      if IsCode(r.lo) && r.lo == r.hi && Padded(part, Format(r.lo)) {
        CodeParses(part, r.lo);
      } else {
        var x, y :| part == x + "-" + y && Padded(x, Format(r.lo)) && Padded(y, Format(r.hi));
        RangeParses(part, x, y, r);
      }
    }
  }

  // Sets

  predicate Within(r: Range, code: int) { r.lo <= code <= r.hi }

  /** A code passes. */
  predicate In(ranges: seq<Range>, code: int) { exists i :: 0 <= i < |ranges| && Within(ranges[i], code) }

  /** Sorted, with at least one code between neighbours. */
  predicate Canonical(ranges: seq<Range>) {
    && (forall i :: 0 <= i < |ranges| ==> IsCode(ranges[i].lo) && IsCode(ranges[i].hi) && ranges[i].lo <= ranges[i].hi)
    && (forall i, j :: 0 <= i < j < |ranges| ==> ranges[i].hi + 1 < ranges[j].lo)
  }

  /** MonitorStatusSet.Contains. */
  method Contains(ranges: seq<Range>, code: int) returns (yes: bool)
    ensures yes <==> In(ranges, code)
  {
    for i := 0 to |ranges|
      invariant forall j :: 0 <= j < i ==> !Within(ranges[j], code)
    {
      if code >= ranges[i].lo && code <= ranges[i].hi {
        assert Within(ranges[i], code);
        return true;
      }
    }
    yes := false;
  }

  /** The first range of a canonical set ends where membership does. */
  lemma FirstRange(s: seq<Range>, t: seq<Range>)
    requires Canonical(s) && Canonical(t) && s != [] && forall code :: In(s, code) ==> In(t, code)
    ensures t != [] && t[0].lo <= s[0].lo && (t[0].lo == s[0].lo ==> s[0].hi <= t[0].hi)
  {
    assert Within(s[0], s[0].lo);
    assert In(s, s[0].lo);
    var i :| 0 <= i < |t| && Within(t[i], s[0].lo);
    assert t[0].lo <= t[i].lo;
    var next := t[0].hi + 1;
    assert !In(t, next);
    assert !In(s, next) ==> !Within(s[0], next);
  }

  lemma TailMembers(s: seq<Range>, code: int)
    requires Canonical(s) && s != []
    ensures In(s[1..], code) <==> In(s, code) && !Within(s[0], code)
    ensures Canonical(s[1..])
  {
    var rest := s[1..];
    if In(rest, code) {
      var i :| 0 <= i < |rest| && Within(rest[i], code);
      assert Within(s[i + 1], code);
    }
    if In(s, code) && !Within(s[0], code) {
      var i :| 0 <= i < |s| && Within(s[i], code);
      assert Within(rest[i - 1], code);
    }
  }

  /** A set of codes has one canonical form. */
  lemma {:induction false} CanonicalUnique(s: seq<Range>, t: seq<Range>)
    requires Canonical(s) && Canonical(t) && forall code :: In(s, code) <==> In(t, code)
    ensures s == t
    decreases |s|
  {
    if s == [] {
      if t != [] {
        FirstRange(t, s);
      }
    } else {
      FirstRange(s, t);
      FirstRange(t, s);
      assert s[0] == t[0];
      forall code ensures In(s[1..], code) <==> In(t[1..], code) {
        TailMembers(s, code);
        TailMembers(t, code);
      }
      TailMembers(s, 0);
      TailMembers(t, 0);
      CanonicalUnique(s[1..], t[1..]);
      assert s == [s[0]] + s[1..] && t == [t[0]] + t[1..];
    }
  }

  // Sorting and merging

  predicate ByLo(s: seq<Range>) { forall i, j :: 0 <= i < j < |s| ==> s[i].lo <= s[j].lo }

  predicate Sound(s: seq<Range>) {
    forall i :: 0 <= i < |s| ==> IsCode(s[i].lo) && IsCode(s[i].hi) && s[i].lo <= s[i].hi
  }

  /** One range put in its place; nothing is said of the order of equal keys. */
  method Place(s: seq<Range>, r: Range) returns (t: seq<Range>)
    requires ByLo(s)
    ensures ByLo(t) && multiset(t) == multiset(s) + multiset{r}
  {
    var i := 0;
    while i < |s| && s[i].lo < r.lo
      invariant 0 <= i <= |s| && forall j :: 0 <= j < i ==> s[j].lo < r.lo
    {
      i := i + 1;
    }
    t := PutIn(s, i, r);
    PutInIs(s, i, r);
    hide PutIn;
    StillByLo(t, s, i, r);
  }

  lemma StillByLo(t: seq<Range>, s: seq<Range>, at: nat, r: Range)
    requires ByLo(s) && Inserted(t, s, at, r)
    requires (forall i :: 0 <= i < at ==> s[i].lo < r.lo) && (at < |s| ==> r.lo <= s[at].lo)
    ensures ByLo(t)
  {
    assert forall i :: at <= i < |s| ==> r.lo <= s[i].lo;
  }

  /** slices.SortFunc by Lo. */
  method SortByLo(s: seq<Range>) returns (t: seq<Range>)
    ensures ByLo(t) && multiset(t) == multiset(s)
  {
    t := [];
    for i := 0 to |s|
      invariant ByLo(t) && multiset(t) == multiset(s[..i])
    {
      assert s[..i + 1] == s[..i] + [s[i]];
      t := Place(t, s[i]);
    }
    assert s[..|s|] == s;
  }

  lemma SameMembers(s: seq<Range>, t: seq<Range>)
    requires multiset(s) == multiset(t)
    ensures |s| == |t| && (forall r :: r in s <==> r in t) && (Sound(s) ==> Sound(t))
      && forall code :: In(s, code) <==> In(t, code)
  {
    assert |multiset(s)| == |multiset(t)|;
    assert forall r :: r in s <==> r in multiset(s);
    assert forall r :: r in t <==> r in multiset(t);
    forall code ensures In(s, code) <==> In(t, code) {
      InMembers(s, code);
      InMembers(t, code);
    }
    if Sound(s) {
      forall i | 0 <= i < |t| ensures IsCode(t[i].lo) && IsCode(t[i].hi) && t[i].lo <= t[i].hi {
        assert t[i] in s;
      }
    }
  }

  lemma InMembers(s: seq<Range>, code: int)
    ensures In(s, code) <==> exists r :: r in s && Within(r, code)
  {
    if r :| r in s && Within(r, code) {
      var i :| 0 <= i < |s| && s[i] == r;
      assert Within(s[i], code);
    }
  }

  ghost predicate Same(s: seq<Range>, t: seq<Range>) { forall code :: In(s, code) <==> In(t, code) }

  /** t holds the codes of s and those of r. */
  ghost predicate Adds(t: seq<Range>, s: seq<Range>, r: Range) {
    forall code :: In(t, code) <==> In(s, code) || Within(r, code)
  }

  lemma AddsToBoth(s: seq<Range>, t: seq<Range>, more: seq<Range>, also: seq<Range>, r: Range)
    requires Same(s, t) && Adds(more, s, r) && Adds(also, t, r)
    ensures Same(more, also)
  {
    hide In, Within;
    forall code ensures In(more, code) <==> In(also, code) {
      assert In(s, code) <==> In(t, code);
    }
  }

  /** Neighbours that touch or overlap become one range. */
  method Merge(ranges: seq<Range>) returns (merged: seq<Range>)
    requires |ranges| > 0 && Sound(ranges) && ByLo(ranges)
    ensures Canonical(merged) && 1 <= |merged| <= |ranges|
    ensures forall code :: In(merged, code) <==> In(ranges, code)
  {
    merged := [ranges[0]];
    assert ranges[..1] == merged;
    hide In, Within, Adds;
    for i := 1 to |ranges|
      invariant Canonical(merged) && 1 <= |merged| <= i
      invariant merged[|merged| - 1].lo <= ranges[i - 1].lo
      invariant Same(merged, ranges[..i])
    {
      ghost var before := merged;
      var r := ranges[i];
      var last := merged[|merged| - 1];
      assert ranges[i - 1].lo <= r.lo;
      OneMore(ranges, i);
      if r.lo <= last.hi + 1 {
        Widened(merged, r);
        merged := merged[|merged| - 1 := Range(last.lo, if last.hi > r.hi then last.hi else r.hi)];
      } else {
        Appended(merged, r);
        merged := merged + [r];
      }
      AddsToBoth(before, ranges[..i], merged, ranges[..i + 1], r);
    }
    assert ranges[..|ranges|] == ranges;
  }

  lemma OneMore(ranges: seq<Range>, i: nat)
    requires i < |ranges|
    ensures Adds(ranges[..i + 1], ranges[..i], ranges[i])
  {
    hide In, Within;
    assert ranges[..i + 1] == ranges[..i] + [ranges[i]];
    forall code ensures In(ranges[..i + 1], code) <==> In(ranges[..i], code) || Within(ranges[i], code) {
      InAppended(ranges[..i], ranges[i], code);
    }
  }

  lemma InAppended(s: seq<Range>, r: Range, code: int)
    ensures In(s + [r], code) <==> In(s, code) || Within(r, code)
  {
    var t := s + [r];
    if In(s, code) {
      var i :| 0 <= i < |s| && Within(s[i], code);
      assert Within(t[i], code);
    }
    assert t[|s|] == r;
  }

  lemma Appended(merged: seq<Range>, r: Range)
    requires Canonical(merged) && merged != [] && IsCode(r.lo) && IsCode(r.hi) && r.lo <= r.hi
    requires r.lo > merged[|merged| - 1].hi + 1
    ensures Canonical(merged + [r]) && Adds(merged + [r], merged, r)
  {
    forall code ensures In(merged + [r], code) <==> In(merged, code) || Within(r, code) {
      InAppended(merged, r, code);
    }
  }

  lemma Widened(merged: seq<Range>, r: Range)
    requires Canonical(merged) && merged != [] && IsCode(r.lo) && IsCode(r.hi) && r.lo <= r.hi
    requires merged[|merged| - 1].lo <= r.lo <= merged[|merged| - 1].hi + 1
    ensures var last := merged[|merged| - 1];
      var wide := merged[|merged| - 1 := Range(last.lo, if last.hi > r.hi then last.hi else r.hi)];
      Canonical(wide) && Adds(wide, merged, r)
  {
    var n := |merged| - 1;
    var last := merged[n];
    var w := Range(last.lo, if last.hi > r.hi then last.hi else r.hi);
    var wide := merged[n := w];
    assert merged == merged[..n] + [last] && wide == merged[..n] + [w];
    forall code ensures In(wide, code) <==> In(merged, code) || Within(r, code) {
      InAppended(merged[..n], last, code);
      InAppended(merged[..n], w, code);
    }
  }

  // Parsing

  ghost predicate ListOk(raw: string) {
    |Listed(raw)| <= MAX_PARTS && forall i :: 0 <= i < |Listed(raw)| ==> ParseEntry(Listed(raw)[i]).Some?
  }

  /** A code lies in some written entry. */
  ghost predicate Written(raw: string, code: int) {
    exists i :: 0 <= i < |Listed(raw)| && ParseEntry(Listed(raw)[i]).Some?
      && Within(ParseEntry(Listed(raw)[i]).value, code)
  }

  /** What ParseMonitorStatusSet promises: at most sixteen well-written entries,
      held canonically, with exactly the codes written. */
  ghost predicate Parses(raw: string, r: Option<seq<Range>>) {
    && (r.Some? <==> ListOk(raw))
    && (r.Some? ==>
          && Canonical(r.value) && 1 <= |r.value| <= MAX_PARTS
          && forall code :: In(r.value, code) <==> Written(raw, code))
  }

  method Parse(raw: string) returns (r: Option<seq<Range>>)
    ensures Parses(raw, r)
  {
    hide ParseEntry, TrimSpace, Canonical;
    var parts := Listed(raw);
    if |parts| > MAX_PARTS {
      return None;
    }
    var ranges: seq<Range> := [];
    for i := 0 to |parts|
      invariant |ranges| == i && Sound(ranges)
      invariant forall j :: 0 <= j < i ==> ParseEntry(parts[j]) == Some(ranges[j])
    {
      var e := ParseEntry(parts[i]);
      if e.None? {
        return None;
      }
      EntrySound(parts[i]);
      ranges := ranges + [e.value];
    }
    var sorted := SortByLo(ranges);
    SameMembers(ranges, sorted);
    var merged := Merge(sorted);
    r := Some(merged);
    WrittenIsIn(raw, ranges);
  }

  lemma EntrySound(part: string)
    requires ParseEntry(part).Some?
    ensures var r := ParseEntry(part).value; IsCode(r.lo) && IsCode(r.hi) && r.lo <= r.hi
  {
    hide Cut, TrimSpace;
  }

  lemma WrittenIsIn(raw: string, ranges: seq<Range>)
    requires |ranges| == |Listed(raw)| && forall j :: 0 <= j < |ranges| ==>
      ParseEntry(Listed(raw)[j]) == Some(ranges[j])
    ensures forall code :: In(ranges, code) <==> Written(raw, code)
  {
    hide ParseEntry, Listed, Within;
    forall code ensures In(ranges, code) <==> Written(raw, code) {
      if In(ranges, code) {
        var i :| 0 <= i < |ranges| && Within(ranges[i], code);
        assert Within(ParseEntry(Listed(raw)[i]).value, code);
      }
      if Written(raw, code) {
        var i :| 0 <= i < |Listed(raw)| && ParseEntry(Listed(raw)[i]).Some?
          && Within(ParseEntry(Listed(raw)[i]).value, code);
        assert Within(ranges[i], code);
      }
    }
  }

  /** Two lists that denote the same codes parse to the same set. */
  lemma SameCodesSameSet(raw: string, other: string, r: Option<seq<Range>>, q: Option<seq<Range>>)
    requires Parses(raw, r) && Parses(other, q) && r.Some? && q.Some?
    ensures r == q <==> forall code :: Written(raw, code) <==> Written(other, code)
  {
    hide Canonical, In, Written, ListOk;
    if forall code :: Written(raw, code) <==> Written(other, code) {
      CanonicalUnique(r.value, q.value);
    }
  }

  // Writing

  function Piece(r: Range): string
    requires 0 <= r.lo && 0 <= r.hi
  {
    if r.lo == r.hi then Format(r.lo) else Format(r.lo) + "-" + Format(r.hi)
  }

  function Pieces(s: seq<Range>): (p: seq<string>)
    requires Sound(s)
    ensures |p| == |s| && forall i :: 0 <= i < |s| ==> p[i] == Piece(s[i])
  {
    seq(|s|, i requires 0 <= i < |s| => Piece(s[i]))
  }

  /** MonitorStatusSet.String. */
  method String(s: seq<Range>) returns (text: string)
    requires Sound(s)
    ensures text == Join(Pieces(s), ',')
  {
    hide Format, Join;
    var parts: seq<string> := [];
    for i := 0 to |s|
      invariant |parts| == i && forall j :: 0 <= j < i ==> parts[j] == Piece(s[j])
    {
      if s[i].lo == s[i].hi {
        parts := parts + [Format(s[i].lo)];
      } else {
        parts := parts + [Format(s[i].lo) + "-" + Format(s[i].hi)];
      }
    }
    assert parts == Pieces(s);
    text := Join(parts, ',');
  }

  lemma PieceParses(r: Range)
    requires IsCode(r.lo) && IsCode(r.hi) && r.lo <= r.hi
    ensures ParseEntry(Piece(r)) == Some(r) && Piece(r) != "" && NoSpace(Piece(r)) && ',' !in Piece(r)
  {
    hide ParseEntry, Format;
    CodeDigits(r.lo);
    CodeDigits(r.hi);
    PadNothing(Format(r.lo));
    PadNothing(Format(r.hi));
    EntryMeaning(Piece(r), r);
  }

  lemma {:induction false} JoinNoSpace(parts: seq<string>)
    requires |parts| > 0 && forall i :: 0 <= i < |parts| ==> NoSpace(parts[i]) && parts[i] != ""
    ensures NoSpace(Join(parts, ',')) && Join(parts, ',') != ""
  {
    if |parts| > 1 {
      JoinNoSpace(parts[1..]);
    }
  }

  /** What String writes is listed as one entry for each range. */
  lemma ListedPieces(s: seq<Range>)
    requires Canonical(s) && s != []
    ensures Listed(Join(Pieces(s), ',')) == Pieces(s)
  {
    hide TrimSpace, Piece, Join, Split;
    var parts := Pieces(s);
    forall i | 0 <= i < |s| ensures parts[i] != "" && NoSpace(parts[i]) && ',' !in parts[i] {
      PieceParses(s[i]);
    }
    JoinNoSpace(parts);
    TrimNothing(Join(parts, ','));
    SplitIff(Join(parts, ','), ',', parts);
  }

  /** Parsing what String writes of a canonical set returns the set, exactly
      when it has one to sixteen ranges; every parsed set has. */
  lemma RoundTrip(s: seq<Range>, r: Option<seq<Range>>)
    requires Canonical(s) && Parses(Join(Pieces(s), ','), r)
    ensures r == Some(s) <==> 1 <= |s| <= MAX_PARTS
  {
    hide Pieces, Join, Listed, ParseEntry, Piece, Within;
    var text := Join(Pieces(s), ',');
    if 1 <= |s| <= MAX_PARTS {
      ListedPieces(s);
      forall i | 0 <= i < |s| ensures ParseEntry(Listed(text)[i]) == Some(s[i]) {
        PieceParses(s[i]);
      }
      WrittenIsIn(text, s);
      assert ListOk(text);
      hide Canonical, In, Written, ListOk;
      CanonicalUnique(r.value, s);
    }
  }

  /** No entry for a range is shorter than the one String writes. */
  lemma PieceShortest(part: string, r: Range)
    requires Entry(part, r)
    ensures |part| >= |Piece(r)| && |Piece(r)| == if r.lo == r.hi then 3 else 7
  {
    hide Format;
    CodeDigits(r.lo);
    CodeDigits(r.hi);
    if !(r.lo == r.hi && Padded(part, Format(r.lo))) {
      var x, y :| part == x + "-" + y && Padded(x, Format(r.lo)) && Padded(y, Format(r.hi));
    }
  }

  /** A list that says nothing is 200 to 399. */
  lemma EmptyIsDefault(raw: string, r: Option<seq<Range>>)
    requires AllSpace(raw) && Parses(raw, r)
    ensures r == Some([Range(200, 399)])
  {
    hide ParseEntry, Split, Canonical, In;
    TrimBlank(raw);
    DefaultEntry();
    assert Listed(raw) == [DEFAULT];
    WrittenIsIn(raw, [Range(200, 399)]);
    OneRange();
    CanonicalUnique(r.value, [Range(200, 399)]);
  }

  lemma TrimBlank(s: string)
    requires AllSpace(s)
    ensures TrimSpace(s) == ""
  {
    TrimLeftDrops(s, "");
    assert s + "" == s;
  }

  lemma DefaultEntry()
    ensures Split(DEFAULT, ',') == [DEFAULT] && ParseEntry(DEFAULT) == Some(Range(200, 399))
  {
    hide ParseEntry, Split;
    NotSplit(DEFAULT);
    DefaultParses(Range(200, 399));
  }

  lemma DefaultParses(r: Range)
    requires r == Range(200, 399)
    ensures ParseEntry(DEFAULT) == Some(r)
  {
    hide Format, ParseEntry, Value;
    DefaultDigits();
    PieceParses(r);
    assert Piece(r) == DEFAULT;
  }

  lemma DefaultDigits()
    ensures Format(200) + "-" + Format(399) == DEFAULT
  {
    hide Format, Value;
    ThreeDigits("200");
    ThreeDigits("399");
  }

  lemma NotSplit(s: string)
    requires ',' !in s
    ensures Split(s, ',') == [s]
  {
    CutNone(s, ',');
  }

  lemma ThreeDigits(s: string)
    requires |s| == 3 && AllDigits(s) && s[0] != '0'
    ensures Format(100 * (s[0] as int - 48) + 10 * (s[1] as int - 48) + (s[2] as int - 48)) == s
  {
    ValueFormats(s);
    assert s[..2][..1] == [s[0]] && s[..2][1] == s[1];
    assert Value(s[..2][..1]) == s[0] as int - 48 by { assert s[..2][..1][..0] == ""; }
    assert Value(s[..2]) == 10 * Value(s[..2][..1]) + (s[1] as int - 48);
  }

  lemma OneRange()
    ensures Canonical([Range(200, 399)])
  {
  }
}
