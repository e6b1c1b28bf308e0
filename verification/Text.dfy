/** Go's string helpers, on text of Unicode code points; those that only
    compare elements, on any sequence. */
module Text {
  /** unicode.IsSpace. */
  predicate IsSpace(c: char) {
    '\t' <= c <= '\r' || c == ' ' || c == '\U{85}' || c == '\U{A0}' || c == '\U{1680}' || '\U{2000}' <= c <= '\U{200A}'
    || c == '\U{2028}' || c == '\U{2029}' || c == '\U{202F}' || c == '\U{205F}' || c == '\U{3000}'
  }

  /** The length of a text in UTF-8 bytes (section 3 of RFC 3629). */
  function ByteLength(s: string): nat {
    if s == "" then 0
    else
      var c := s[0] as int;
      (if c < 0x80 then 1 else if c < 0x800 then 2 else if c < 0x1_0000 then 3 else 4) + ByteLength(s[1..])
  }

  /** The first place of c in s, |s| if it has none. */
  function IndexOf(s: string, c: char): (i: nat)
    ensures i <= |s| && c !in s[..i] && (i < |s| ==> s[i] == c)
  {
    if s == "" || s[0] == c then 0
    else
      var i := 1 + IndexOf(s[1..], c);
      assert s[..i] == [s[0]] + s[1..][..i - 1];
      i
  }

  lemma IndexOfIs(a: string, c: char, b: string)
    requires c !in a
    ensures IndexOf(a + [c] + b, c) == |a|
  {
    var s := a + [c] + b;
    var i := IndexOf(s, c);
    assert s[|a|] == c;
    assert forall j :: 0 <= j < |a| ==> s[j] == a[j];
    assert forall j :: 0 <= j < i ==> s[..i][j] == s[j];
  }

  datatype Halves = Halves(before: string, after: string, found: bool)

  /** strings.Cut around the first c. */
  function Cut(s: string, c: char): Halves {
    var i := IndexOf(s, c);
    if i < |s| then Halves(s[..i], s[i + 1..], true) else Halves(s, "", false)
  }

  lemma CutIff(s: string, c: char, a: string, b: string)
    ensures s == a + [c] + b && c !in a <==> Cut(s, c) == Halves(a, b, true)
  {
    if s == a + [c] + b && c !in a {
      IndexOfIs(a, c, b);
      assert s[..|a|] == a && s[|a| + 1..] == b;
    }
    if Cut(s, c) == Halves(a, b, true) {
      assert s == a + [c] + b;
    }
  }

  lemma CutNone(s: string, c: char)
    ensures Cut(s, c).found <==> c in s
    ensures c !in s ==> Cut(s, c) == Halves(s, "", false)
  {
    assert IndexOf(s, c) == |s| ==> s[..|s|] == s;
  }

  /** strings.Join. */
  function Join<T>(parts: seq<seq<T>>, c: T): seq<T> {
    if |parts| == 0 then [] else if |parts| == 1 then parts[0] else parts[0] + [c] + Join(parts[1..], c)
  }

  /** strings.Split. */
  function Split(s: string, c: char): (parts: seq<string>)
    ensures |parts| >= 1
    decreases |s|
  {
    var h := Cut(s, c);
    if h.found then [h.before] + Split(h.after, c) else [s]
  }

  predicate NoneHold(parts: seq<string>, c: char) { forall i :: 0 <= i < |parts| ==> c !in parts[i] }

  lemma {:induction false} SplitJoins(s: string, c: char)
    ensures Join(Split(s, c), c) == s && NoneHold(Split(s, c), c)
    decreases |s|
  {
    hide Cut;
    var h := Cut(s, c);
    CutNone(s, c);
    if h.found {
      CutIff(s, c, h.before, h.after);
      SplitJoins(h.after, c);
      assert Split(s, c)[1..] == Split(h.after, c);
    }
  }

  lemma {:induction false} JoinSplits(parts: seq<string>, c: char)
    requires |parts| >= 1 && NoneHold(parts, c)
    ensures Split(Join(parts, c), c) == parts
  {
    hide Cut;
    var s := Join(parts, c);
    assert c !in parts[0];
    if |parts| == 1 {
      CutNone(s, c);
      assert parts == [parts[0]];
    } else {
      var rest := Join(parts[1..], c);
      CutIff(s, c, parts[0], rest);
      JoinSplits(parts[1..], c);
      assert parts == [parts[0]] + parts[1..];
    }
  }

  /** Splitting finds the one way to write s as parts without c. */
  lemma SplitIff(s: string, c: char, parts: seq<string>)
    ensures Split(s, c) == parts <==> |parts| >= 1 && Join(parts, c) == s && NoneHold(parts, c)
  {
    hide Split, Join;
    SplitJoins(s, c);
    if |parts| >= 1 && NoneHold(parts, c) {
      JoinSplits(parts, c);
    }
  }

  // White space

  function TrimLeft(s: string): string { if s != "" && IsSpace(s[0]) then TrimLeft(s[1..]) else s }

  function TrimRight(s: string): string { if s != "" && IsSpace(s[|s| - 1]) then TrimRight(s[..|s| - 1]) else s }

  function TrimSpace(s: string): string { TrimRight(TrimLeft(s)) }

  predicate NoSpace(s: string) { forall i :: 0 <= i < |s| ==> !IsSpace(s[i]) }

  /** Nothing to trim. */
  lemma TrimNothing(s: string)
    requires NoSpace(s)
    ensures TrimSpace(s) == s
  {
  }

  predicate AllSpace(s: string) { forall i :: 0 <= i < |s| ==> IsSpace(s[i]) }

  /** w with white space around it. */
  ghost predicate Padded(s: string, w: string) { exists a, b :: PaddedBy(s, a, w, b) }

  predicate PaddedBy(s: string, a: string, w: string, b: string) { AllSpace(a) && AllSpace(b) && s == a + w + b }

  lemma {:induction false} TrimLeftSplits(s: string) returns (a: string)
    ensures AllSpace(a) && s == a + TrimLeft(s) && (TrimLeft(s) != "" ==> !IsSpace(TrimLeft(s)[0]))
  {
    if s != "" && IsSpace(s[0]) {
      var rest := TrimLeftSplits(s[1..]);
      a := [s[0]] + rest;
    } else {
      a := "";
    }
  }

  lemma {:induction false} TrimRightSplits(s: string) returns (b: string)
    ensures AllSpace(b) && s == TrimRight(s) + b && (TrimRight(s) != "" ==> !IsSpace(TrimRight(s)[|TrimRight(s)| - 1]))
  {
    if s != "" && IsSpace(s[|s| - 1]) {
      var rest := TrimRightSplits(s[..|s| - 1]);
      b := rest + [s[|s| - 1]];
      assert s == TrimRight(s) + b;
    } else {
      b := "";
    }
  }

  lemma TrimPads(s: string)
    ensures Padded(s, TrimSpace(s))
  {
    var a := TrimLeftSplits(s);
    var b := TrimRightSplits(TrimLeft(s));
    assert PaddedBy(s, a, TrimSpace(s), b);
  }

  lemma {:induction false} TrimLeftDrops(a: string, s: string)
    requires AllSpace(a)
    ensures TrimLeft(a + s) == TrimLeft(s)
  {
    if a == "" {
      assert a + s == s;
    } else {
      assert (a + s)[1..] == a[1..] + s;
      TrimLeftDrops(a[1..], s);
    }
  }

  lemma {:induction false} TrimRightDrops(s: string, b: string)
    requires AllSpace(b)
    ensures TrimRight(s + b) == TrimRight(s)
  {
    if b == "" {
      assert s + b == s;
    } else {
      assert (s + b)[..|s + b| - 1] == s + b[..|b| - 1];
      TrimRightDrops(s, b[..|b| - 1]);
    }
  }

  /** White space around a word is what trimming drops. */
  lemma TrimWord(s: string, w: string)
    requires w != "" && NoSpace(w)
    ensures TrimSpace(s) == w <==> Padded(s, w)
  {
    if TrimSpace(s) == w {
      TrimPads(s);
    }
    if Padded(s, w) {
      var a, b :| PaddedBy(s, a, w, b);
      assert s == a + (w + b);
      TrimLeftDrops(a, w + b);
      TrimRightDrops(w, b);
    }
  }

  /** The length of the leading run of s that is not white space. */
  function WordLength(s: string): (n: nat)
    ensures n <= |s| && NoSpace(s[..n]) && (n < |s| ==> IsSpace(s[n]))
  {
    if s == "" || IsSpace(s[0]) then 0
    else
      var n := 1 + WordLength(s[1..]);
      assert s[..n] == [s[0]] + s[1..][..n - 1];
      n
  }

  /** strings.Fields. */
  function Fields(s: string): (words: seq<string>)
    ensures forall i :: 0 <= i < |words| ==> words[i] != "" && NoSpace(words[i])
    decreases |s|
  {
    if s == "" then []
    else if IsSpace(s[0]) then Fields(s[1..])
    else
      var n := WordLength(s);
      [s[..n]] + Fields(s[n..])
  }

  // Words and the gaps between them

  /** gap, word, gap, ... word, gap. */
  function Weave(gaps: seq<string>, words: seq<string>): string
    requires |gaps| == |words| + 1
  {
    if words == [] then gaps[0] else gaps[0] + words[0] + Weave(gaps[1..], words[1..])
  }

  /** White space all through, and some of it between any two words. */
  predicate AreGaps(gaps: seq<string>) {
    (forall i :: 0 <= i < |gaps| ==> AllSpace(gaps[i])) && forall i :: 0 < i < |gaps| - 1 ==> gaps[i] != ""
  }

  predicate AreWords(words: seq<string>) { forall i :: 0 <= i < |words| ==> words[i] != "" && NoSpace(words[i]) }

  /** s is these words in this order, with white space between neighbours and
      any white space at the ends. */
  ghost predicate ReadsAs(s: string, words: seq<string>) {
    AreWords(words) && exists gaps :: IsWoven(s, gaps, words)
  }

  ghost predicate IsWoven(s: string, gaps: seq<string>, words: seq<string>) {
    |gaps| == |words| + 1 && AreGaps(gaps) && s == Weave(gaps, words)
  }

  lemma {:induction false} FieldsWoven(s: string) returns (gaps: seq<string>)
    ensures IsWoven(s, gaps, Fields(s)) && (s != "" && IsSpace(s[0]) ==> gaps[0] != "")
    decreases |s|
  {
    hide IsSpace;
    if s == "" {
      gaps := [""];
    } else if IsSpace(s[0]) {
      var rest := FieldsWoven(s[1..]);
      gaps := [[s[0]] + rest[0]] + rest[1..];
      WiderGap(s, rest, gaps, Fields(s[1..]));
    } else {
      var n := WordLength(s);
      var rest := FieldsWoven(s[n..]);
      gaps := [""] + rest;
      WordFirst(s, n, rest, Fields(s[n..]));
    }
  }

  lemma WiderGap(s: string, rest: seq<string>, gaps: seq<string>, words: seq<string>)
    requires s != "" && IsSpace(s[0]) && IsWoven(s[1..], rest, words) && gaps == [[s[0]] + rest[0]] + rest[1..]
    ensures IsWoven(s, gaps, words)
  {
    hide IsSpace;
    assert gaps[1..] == rest[1..];
    assert s == [s[0]] + s[1..];
    assert forall i :: 0 < i < |gaps| ==> gaps[i] == rest[i];
    if words != [] {
      var more := Weave(rest[1..], words[1..]);
      assert [s[0]] + (rest[0] + words[0] + more) == ([s[0]] + rest[0]) + words[0] + more;
    }
  }

  lemma WordFirst(s: string, n: nat, rest: seq<string>, words: seq<string>)
    requires 0 < n <= |s| && IsWoven(s[n..], rest, words) && (words != [] ==> rest[0] != "")
    ensures IsWoven(s, [""] + rest, [s[..n]] + words)
  {
    var gaps, all := [""] + rest, [s[..n]] + words;
    assert gaps[1..] == rest && all[1..] == words;
    assert Weave(gaps, all) == "" + s[..n] + Weave(rest, words);
    assert s == "" + s[..n] + s[n..];
    MoreGaps(rest, words);
    hide Weave, AreGaps;
  }

  lemma MoreGaps(rest: seq<string>, words: seq<string>)
    requires |rest| == |words| + 1 && AreGaps(rest) && (words != [] ==> rest[0] != "")
    ensures AreGaps([""] + rest)
  {
    assert AllSpace("");
    hide AllSpace;
    var gaps := [""] + rest;
    assert forall i :: 0 < i < |gaps| ==> gaps[i] == rest[i - 1];
  }

  lemma {:induction false} FieldsSkip(a: string, s: string)
    requires AllSpace(a)
    ensures Fields(a + s) == Fields(s)
  {
    if a == "" {
      assert a + s == s;
    } else {
      assert (a + s)[1..] == a[1..] + s;
      FieldsSkip(a[1..], s);
    }
  }

  lemma {:induction false} WordLengthIs(w: string, rest: string)
    requires NoSpace(w) && (rest == "" || IsSpace(rest[0]))
    ensures WordLength(w + rest) == |w|
  {
    if w == "" {
      assert w + rest == rest;
    } else {
      assert (w + rest)[1..] == w[1..] + rest;
      WordLengthIs(w[1..], rest);
    }
  }

  lemma FieldsWord(w: string, rest: string)
    requires w != "" && NoSpace(w) && (rest == "" || IsSpace(rest[0]))
    ensures Fields(w + rest) == [w] + Fields(rest)
  {
    hide IsSpace;
    WordLengthIs(w, rest);
    var s := w + rest;
    assert s[0] == w[0] && s[..|w|] == w && s[|w|..] == rest;
  }

  lemma {:induction false} WovenFields(gaps: seq<string>, words: seq<string>)
    requires |gaps| == |words| + 1 && AreGaps(gaps) && AreWords(words)
    ensures Fields(Weave(gaps, words)) == words
    decreases |words|
  {
    hide IsSpace, Fields;
    if words == [] {
      FieldsSkip(gaps[0], "");
      assert gaps[0] + "" == gaps[0] && Fields("") == [] by { NoFields(); }
    } else {
      var rest := Weave(gaps[1..], words[1..]);
      assert gaps[0] + words[0] + rest == gaps[0] + (words[0] + rest);
      FieldsSkip(gaps[0], words[0] + rest);
      assert rest == "" || IsSpace(rest[0]);
      FieldsWord(words[0], rest);
      WovenFields(gaps[1..], words[1..]);
      assert words == [words[0]] + words[1..];
    }
  }

  lemma NoFields()
    ensures Fields("") == []
  {
  }

  /** Fields finds the one way to read a text as words. */
  lemma FieldsIff(s: string, words: seq<string>)
    ensures Fields(s) == words <==> ReadsAs(s, words)
  {
    hide Fields, AreGaps, Weave;
    if Fields(s) == words {
      var gaps := FieldsWoven(s);
    }
    if ReadsAs(s, words) {
      var gaps :| IsWoven(s, gaps, words);
      WovenFields(gaps, words);
    }
  }

  // Substrings

  predicate OccursAt<T(==)>(s: seq<T>, i: nat, p: seq<T>) { i + |p| <= |s| && s[i..i + |p|] == p }

  /** strings.Index from position i on; -1 if p does not occur. */
  function Find<T(==)>(s: seq<T>, p: seq<T>, i: nat): (at: int)
    requires i <= |s|
    ensures at == -1 || (i <= at && OccursAt(s, at, p))
    ensures forall j :: i <= j < |s| && OccursAt(s, j, p) ==> 0 <= at <= j
    decreases |s| - i
  {
    if i == |s| then (if p == [] then i else -1) else if OccursAt(s, i, p) then i else Find(s, p, i + 1)
  }
}
