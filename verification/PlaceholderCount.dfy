/** Counting the placeholders of a document in one pass, against the number of
    positions where each occurs. */
module PlaceholderCount {
  import opened Placeholders
  import opened Text

  // The expression as a search at the start of a text

  /** How many field bytes follow position i, up to most. */
  function FieldRun(s: string, i: nat, most: nat): (m: nat)
    requires i <= |s|
    ensures m <= most && i + m <= |s|
    ensures forall j :: i <= j < i + m ==> IsFieldByte(s[j])
    ensures m < most && i + m < |s| ==> !IsFieldByte(s[i + m])
    decreases most
  {
    if most > 0 && i < |s| && IsFieldByte(s[i]) then 1 + FieldRun(s, i + 1, most - 1) else 0
  }

  /** The length of the match of the body expression at the start of s, zero if
      there is none. */
  function BodyLength(s: string): nat {
    if |s| < 71 || !IsUuid(s[..36]) || s[36] != '-' || !('a' <= s[37] <= 'z') then 0
    else
      var e := 38 + FieldRun(s, 38, 31);
      if e + 33 <= |s| && s[e] == '-' && IsRandom(s[e + 1..e + 33]) then e + 33 else 0
  }

  lemma FoundMatches(s: string)
    requires BodyLength(s) > 0
    ensures BodyLength(s) <= |s| && WellFormed(s[..BodyLength(s)])
  {
    hide In, UuidClass;
    var e := 38 + FieldRun(s, 38, 31);
    var body := s[..e + 33];
    assert body[..36] == s[..36];
    assert body[37..e] == s[37..e];
    assert body[e + 1..] == s[e + 1..e + 33];
  }

  /** No two prefixes of a text match: a field holds no hyphen. */
  lemma MatchIsFound(s: string, k: nat)
    requires k <= |s| && WellFormed(s[..k])
    ensures BodyLength(s) == k
  {
    hide In, UuidClass;
    var body := s[..k];
    assert body[..36] == s[..36];
    var field := body[37..k - 33];
    assert forall j :: 0 <= j < |field| ==> field[j] == s[37 + j];
    assert forall j :: 38 <= j < k - 33 ==> IsFieldByte(s[j]) by {
      assert forall j :: 38 <= j < k - 33 ==> s[j] == field[j - 37];
    }
    assert s[k - 33] == body[k - 33] == '-';
    assert FieldRun(s, 38, 31) == k - 71;
    assert body[k - 32..] == s[k - 32..k];
  }

  // Occurrences

  ghost function Starts(s: string, p: string, n: nat): set<nat> { set i: nat | i < n && OccursAt(s, i, p) }

  /** The number of positions before n where p occurs in s. */
  ghost function Occurrences(s: string, p: string, n: nat): nat { |Starts(s, p, n)| }

  lemma OccurrencesSkip(s: string, p: string, a: nat, b: nat)
    requires a <= b && forall i :: a <= i < b ==> !OccursAt(s, i, p)
    ensures Occurrences(s, p, b) == Occurrences(s, p, a)
  {
    hide OccursAt;
    assert Starts(s, p, b) == Starts(s, p, a);
  }

  lemma OccurrencesHit(s: string, p: string, a: nat)
    requires OccursAt(s, a, p)
    ensures Occurrences(s, p, a + 1) == Occurrences(s, p, a) + 1
  {
    hide OccursAt;
    assert Starts(s, p, a + 1) == Starts(s, p, a) + {a};
  }

  // The capital L starts the prefix and is nowhere else in a placeholder

  lemma PrefixOnce(s: string, i: nat, j: nat)
    requires OccursAt(s, i, PREFIX) && i < j < i + 12
    ensures s[j] != 'L'
  {
    assert s[i..i + 12][j - i] == s[j];
  }

  lemma BodyHasNoL(body: string, j: nat)
    requires WellFormed(body) && j < |body|
    ensures body[j] != 'L'
  {
    var n := |body|;
    if j < 36 {
      assert body[..36][j] == body[j];
    } else if 37 <= j < n - 33 {
      assert body[37..n - 33][j - 37] == body[j];
    } else if j >= n - 32 {
      assert body[n - 32..][j - (n - 32)] == body[j];
    }
  }

  lemma StartsWithPrefix(s: string, i: nat, p: string)
    requires IsPlaceholder(p) && OccursAt(s, i, p)
    ensures i + 12 <= |s| && OccursAt(s, i, PREFIX) && s[i] == 'L' && i + |p| <= |s| && WellFormed(s[i + 12..i + |p|])
  {
    hide WellFormed;
    assert p[..12] == s[i..i + 12];
    assert s[i..i + 12][0] == s[i];
    assert p[12..] == s[i + 12..i + |p|];
  }

  /** What the search at a prefix decides about that position. */
  lemma Here(s: string, i: nat, m: nat)
    requires OccursAt(s, i, PREFIX) && m == BodyLength(s[i + 12..][..if |s| - i - 12 < 114 then |s| - i - 12 else 114])
    ensures m > 0 ==> i + 12 + m <= |s| && WellFormed(s[i + 12..i + 12 + m]) && IsPlaceholder(s[i..i + 12 + m])
    ensures forall p :: IsPlaceholder(p) ==> (OccursAt(s, i, p) <==> m > 0 && p == s[i..i + 12 + m])
  {
    hide WellFormed, BodyLength;
    var body := s[i + 12..];
    var w := if |body| < 114 then |body| else 114;
    if m > 0 {
      FoundMatches(body[..w]);
      assert body[..w][..m] == s[i + 12..i + 12 + m];
      var q := s[i..i + 12 + m];
      assert q[..12] == s[i..i + 12] && q[12..] == s[i + 12..i + 12 + m];
    }
    forall p | IsPlaceholder(p) && OccursAt(s, i, p) ensures m > 0 && p == s[i..i + 12 + m] {
      StartsWithPrefix(s, i, p);
      var k := |p| - 12;
      WellFormedLength(s[i + 12..i + |p|]);
      assert s[i + 12..i + |p|] == body[..w][..k];
      MatchIsFound(body[..w], k);
    }
  }

  /** No placeholder starts where there is no capital L. */
  lemma NoneBetween(s: string, p: string, a: nat, b: nat)
    requires IsPlaceholder(p) && a <= b <= |s| && forall i :: a <= i < b ==> s[i] != 'L' || !OccursAt(s, i, PREFIX)
    ensures Occurrences(s, p, b) == Occurrences(s, p, a)
  {
    hide OccursAt, IsPlaceholder;
    forall i | a <= i < b ensures !OccursAt(s, i, p) {
      if OccursAt(s, i, p) {
        StartsWithPrefix(s, i, p);
      }
    }
    OccurrencesSkip(s, p, a, b);
  }

  // Counting

  /** A document text as a key. */
  datatype Key = Key(text: string)

  function Get(counts: map<Key, nat>, p: string): nat { if Key(p) in counts then counts[Key(p)] else 0 }

  /** The counts are those of the positions before n. */
  ghost predicate CountsBefore(counts: map<Key, nat>, s: string, n: nat) {
    && (forall p :: IsPlaceholder(p) ==> Get(counts, p) == Occurrences(s, p, n))
    && (forall k :: k in counts ==> IsPlaceholder(k.text) && counts[k] > 0)
  }

  lemma CountsSkip(counts: map<Key, nat>, s: string, a: nat, b: nat)
    requires CountsBefore(counts, s, a) && a <= b <= |s|
    requires forall i :: a <= i < b ==> s[i] != 'L' || !OccursAt(s, i, PREFIX)
    ensures CountsBefore(counts, s, b)
  {
    hide OccursAt, IsPlaceholder, Occurrences;
    forall p | IsPlaceholder(p) ensures Get(counts, p) == Occurrences(s, p, b) {
      NoneBetween(s, p, a, b);
    }
  }

  /** At a prefix with a match the count of that one placeholder goes up. */
  lemma CountsHit(counts: map<Key, nat>, s: string, i: nat, q: string)
    requires CountsBefore(counts, s, i) && IsPlaceholder(q)
    requires forall p :: IsPlaceholder(p) ==> (OccursAt(s, i, p) <==> p == q)
    ensures CountsBefore(counts[Key(q) := Get(counts, q) + 1], s, i + 1)
  {
    hide OccursAt, IsPlaceholder, Occurrences;
    forall p | IsPlaceholder(p) ensures Get(counts[Key(q) := Get(counts, q) + 1], p) == Occurrences(s, p, i + 1) {
      if p == q {
        OccurrencesHit(s, p, i);
      } else {
        OccurrencesSkip(s, p, i, i + 1);
      }
    }
  }

  lemma CountsMiss(counts: map<Key, nat>, s: string, i: nat)
    requires CountsBefore(counts, s, i) && forall p :: IsPlaceholder(p) ==> !OccursAt(s, i, p)
    ensures CountsBefore(counts, s, i + 1)
  {
    hide OccursAt, IsPlaceholder, Occurrences;
    forall p | IsPlaceholder(p) ensures Get(counts, p) == Occurrences(s, p, i + 1) {
      OccurrencesSkip(s, p, i, i + 1);
    }
  }

  /** A prefix and the body matched after it hold one capital L. */
  lemma Skipped(s: string, i: nat, m: nat, j: nat)
    requires OccursAt(s, i, PREFIX) && i + 12 + m <= |s| && (m > 0 ==> WellFormed(s[i + 12..i + 12 + m]))
      && i < j < i + 12 + m
    ensures s[j] != 'L'
  {
    hide WellFormed;
    if j < i + 12 {
      PrefixOnce(s, i, j);
    } else {
      BodyHasNoL(s[i + 12..i + 12 + m], j - i - 12);
    }
  }

  /** For every placeholder, the count is the number of positions where it
      occurs in the document; nothing else is counted. */
  method CountPlaceholders(document: string) returns (counts: map<Key, nat>)
    ensures forall p :: IsPlaceholder(p) ==> Get(counts, p) == Occurrences(document, p, |document|)
    ensures forall k :: k in counts ==> IsPlaceholder(k.text) && counts[k] > 0
  {
    hide OccursAt, IsPlaceholder, WellFormed, BodyLength, Occurrences;
    counts := map[];
    var pos := 0;
    NothingYet(document);
    while true
      invariant pos <= |document|
      invariant CountsBefore(counts, document, pos)
      decreases |document| - pos
    {
      var at := Find(document, PREFIX, pos);
      if at < 0 {
        CountsSkip(counts, document, pos, |document|);
        return;
      }
      var i: nat := at;
      PrefixFits(document, i);
      CountsSkip(counts, document, pos, i);
      var body := document[i + 12..];
      var m := BodyLength(body[..if |body| < 114 then |body| else 114]);
      Here(document, i, m);
      if m > 0 {
        var q := document[i..i + 12 + m];
        CountsHit(counts, document, i, q);
        counts := counts[Key(q) := Get(counts, q) + 1];
      } else {
        CountsMiss(counts, document, i);
      }
      forall j | i < j < i + 12 + m ensures document[j] != 'L' {
        Skipped(document, i, m, j);
      }
      CountsSkip(counts, document, i + 1, i + 12 + m);
      pos := i + 12 + m;
    }
  }

  lemma NothingYet(s: string)
    ensures CountsBefore(map[], s, 0)
  {
    hide OccursAt, IsPlaceholder;
    forall p ensures Occurrences(s, p, 0) == 0 {
      assert Starts(s, p, 0) == {};
    }
  }

  lemma PrefixFits(s: string, i: nat)
    requires OccursAt(s, i, PREFIX)
    ensures i + 12 <= |s|
  {
  }
}
