/** What a scan reports beside its verdict: whether whitespace was passed, and
    the top-level members or elements, with how both build up one member or
    element at a time. */
module JsonScans {
  import opened Bytes
  import opened JsonStrings
  import opened JsonGrammar
  import opened JsonReads
  import opened JsonParse
  import opened JsonSound

  /** A member of the top-level object: its decoded key and where in the text
      its value starts and ends. */
  datatype Field = Field(key: bytes, start: nat, end: nat)
  datatype Span = Span(start: nat, end: nat)

  function FieldsOf(m: Members, p: nat): seq<Field> {
    if m.NoMembers? then [] else
    var l := p + Lead(m);
    [Field(Decode(m.key), l, l + Size(m.value))] + FieldsOf(m.rest, l + Size(m.value) + |m.after| + 1)
  }

  function SpansOf(i: Items, p: nat): seq<Span> {
    if i.NoItems? then [] else
    var q := p + |i.before|;
    [Span(q, q + Size(i.value))] + SpansOf(i.rest, q + Size(i.value) + |i.after| + 1)
  }

  datatype Scan<T> = Fail | Done(end: nat, tight: bool, found: seq<T>)

  function Prepend<T>(tight: bool, found: seq<T>, r: Scan<T>): Scan<T> {
    if r.Fail? then Fail else Done(r.end, tight && r.tight, found + r.found)
  }

  lemma PrependTwice<T>(t: bool, f: seq<T>, u: bool, g: seq<T>, r: Scan<T>)
    ensures Prepend(t, f, Prepend(u, g, r)) == Prepend(t && u, f + g, r)
  {
    if r.Done? {
      assert f + (g + r.found) == f + g + r.found;
    }
  }

  function ScanMembers(fits: FloatRange, s: bytes, p: nat, depth: nat, seen: set<bytes>): Scan<Field>
    requires p <= |s|
  {
    match ParseMembers(fits, s, p, depth, seen)
    case Bad => Fail
    case Good(m, e) => Done(e, TightMembers(m), FieldsOf(m, p))
  }

  function ScanItems(fits: FloatRange, s: bytes, p: nat, depth: nat): Scan<Span>
    requires p <= |s|
  {
    match ParseItems(fits, s, p, depth)
    case Bad => Fail
    case Good(i, e) => Done(e, TightItems(i), SpansOf(i, p))
  }

  /** A key that is new, its colon and a value: where they are. */
  datatype PairAt = NoPair | PairAt(k: KeyAt, name: bytes, l: nat, v: Value, f: nat)

  function ParsePair(fits: FloatRange, s: bytes, p: nat, depth: nat, seen: set<bytes>): (r: PairAt)
    requires p <= |s|
    ensures r.PairAt? ==> r.k.KeyAt? && r.f <= |s|
  {
    var k := ParseKey(s, p);
    if k.NoKey? || Decode(Slice(s, k.start, k.end)) in seen then NoPair else
    var l := SpaceEnd(s, k.colon + 1);
    match ParseValue(fits, s, l, depth)
    case Bad => NoPair
    case Good(v, f) => PairAt(k, Decode(Slice(s, k.start, k.end)), l, v, f)
  }

  /** No whitespace in a pair or before it. */
  predicate PairTight(p: nat, m: PairAt)
    requires m.PairAt? && m.k.KeyAt?
  {
    m.k.start == p + 1 && m.k.colon == m.k.end + 1 && m.l == m.k.colon + 1 && Tight(m.v)
  }

  /** One member, then the rest. */
  lemma MembersScanStep(fits: FloatRange, s: bytes, p: nat, depth: nat, seen: set<bytes>, m: PairAt, a: nat)
    requires ShortNumbersFit(fits)
    requires p <= |s| && m == ParsePair(fits, s, p, depth, seen) && m.PairAt? && a == SpaceEnd(s, m.f)
    ensures
      var tight := PairTight(p, m) && a == m.f;
      var field := Field(m.name, m.l, m.f);
      var r := ScanMembers(fits, s, p, depth, seen);
      if a < |s| && s[a] == RBRACE then r == Done(a + 1, tight, [field])
      else if a < |s| && s[a] == COMMA then
        r == Prepend(tight, [field], ScanMembers(fits, s, a + 1, depth, seen + {m.name}))
      else r == Fail
  {
    hide ParseKey, ParseValue, SpaceEnd, Slice, Decode, Tight, ShortNumbersFit, ScanMembers, Spaces;
    MembersScanAt(fits, s, p, depth, seen, m.k, m.l, m.v, m.f, a);
  }

  lemma MembersScanAt(fits: FloatRange, s: bytes, p: nat, depth: nat, seen: set<bytes>, k: KeyAt, l: nat, v: Value,
      f: nat, a: nat)
    requires ShortNumbersFit(fits)
    requires p <= |s| && k == ParseKey(s, p) && k.KeyAt? && Decode(Slice(s, k.start, k.end)) !in seen
    requires l == SpaceEnd(s, k.colon + 1) && ParseValue(fits, s, l, depth) == Good(v, f) && a == SpaceEnd(s, f)
    ensures
      var tight := k.start == p + 1 && k.colon == k.end + 1 && l == k.colon + 1 && a == f && Tight(v);
      var field := Field(Decode(Slice(s, k.start, k.end)), l, f);
      var r := ScanMembers(fits, s, p, depth, seen);
      if a < |s| && s[a] == RBRACE then r == Done(a + 1, tight, [field])
      else if a < |s| && s[a] == COMMA then
        r == Prepend(tight, [field], ScanMembers(fits, s, a + 1, depth, seen + {Decode(Slice(s, k.start, k.end))}))
      else r == Fail
  {
    hide ParseKey, ParseMembers, ParseValue, SpaceEnd, Slice, Decode, Tight, Size, ShortNumbersFit, Spaces, Reads,
      Admissible;
    MembersUnfold(fits, s, p, depth, seen, k, l, v, f, a);
    ValueSound(fits, s, l, depth);
    if a < |s| && s[a] == RBRACE {
      MemberAtScan(s, p, k, l, v, f, a, NoMembers);
    } else if a < |s| && s[a] == COMMA {
      var r := ParseMembers(fits, s, a + 1, depth, seen + {Decode(Slice(s, k.start, k.end))});
      if r.Good? {
        MemberAtScan(s, p, k, l, v, f, a, r.tree);
      }
    }
  }

  lemma MemberAtScan(s: bytes, p: nat, k: KeyAt, l: nat, v: Value, f: nat, a: nat, rest: Members)
    requires p <= |s| && k == ParseKey(s, p) && k.KeyAt? && l == SpaceEnd(s, k.colon + 1) && f == l + Size(v)
    requires f <= |s| && a == SpaceEnd(s, f)
    ensures var m := MemberAt(s, p, k, l, v, f, a, rest);
      && FieldsOf(m, p) == [Field(Decode(Slice(s, k.start, k.end)), l, f)] + FieldsOf(rest, a + 1)
      && (TightMembers(m) <==>
            (k.start == p + 1 && k.colon == k.end + 1 && l == k.colon + 1 && a == f && Tight(v)) && TightMembers(rest))
  {
    hide ParseKey, SpaceEnd, Slice, Decode, Tight, Size, Spaces, FieldsOf, TightMembers;
    MemberScan(MemberAt(s, p, k, l, v, f, a, rest), p, l, f, a);
  }

  lemma MemberScan(m: Members, p: nat, l: nat, f: nat, a: nat)
    requires m.Members? && l == p + Lead(m) && f == l + Size(m.value) && a == f + |m.after|
    ensures FieldsOf(m, p) == [Field(Decode(m.key), l, f)] + FieldsOf(m.rest, a + 1)
    ensures TightMembers(m) <==>
      (|m.before| == 0 && |m.gap| == 0 && |m.lead| == 0 && |m.after| == 0 && Tight(m.value)) && TightMembers(m.rest)
  {
    hide Decode, Tight, Size;
  }

  /** One element, then the rest. */
  lemma ItemsScanStep(fits: FloatRange, s: bytes, p: nat, depth: nat, q: nat, v: Value, e: nat, a: nat)
    requires ShortNumbersFit(fits)
    requires p <= |s| && q == SpaceEnd(s, p) && ParseValue(fits, s, q, depth) == Good(v, e) && a == SpaceEnd(s, e)
    ensures
      var tight := q == p && a == e && Tight(v);
      var r := ScanItems(fits, s, p, depth);
      if a < |s| && s[a] == RBRACKET then r == Done(a + 1, tight, [Span(q, e)])
      else if a < |s| && s[a] == COMMA then r == Prepend(tight, [Span(q, e)], ScanItems(fits, s, a + 1, depth))
      else r == Fail
  {
    hide ParseValue, SpaceEnd, Slice, Tight, Size, ShortNumbersFit, Spaces, Reads, Admissible;
    ValueSound(fits, s, q, depth);
    if a < |s| && s[a] == RBRACKET {
      ItemAtScan(s, p, q, v, e, a, NoItems);
    } else if a < |s| && s[a] == COMMA && ParseItems(fits, s, a + 1, depth).Good? {
      ItemAtScan(s, p, q, v, e, a, ParseItems(fits, s, a + 1, depth).tree);
    }
  }

  lemma ItemAtScan(s: bytes, p: nat, q: nat, v: Value, e: nat, a: nat, rest: Items)
    requires p <= q <= e <= a <= |s| && e == q + Size(v)
    ensures var i := Items(Slice(s, p, q), v, Slice(s, e, a), rest);
      && SpansOf(i, p) == [Span(q, e)] + SpansOf(rest, a + 1)
      && (TightItems(i) <==> (q == p && a == e && Tight(v)) && TightItems(rest))
  {
    hide Slice, Tight, Size;
  }

  lemma ItemsBad(fits: FloatRange, s: bytes, p: nat, depth: nat)
    requires p <= |s| && ParseValue(fits, s, SpaceEnd(s, p), depth).Bad?
    ensures ScanItems(fits, s, p, depth) == Fail
  {
    hide ParseValue, SpaceEnd, Spaces;
  }

  lemma MembersFail(fits: FloatRange, s: bytes, p: nat, depth: nat, seen: set<bytes>)
    requires p <= |s| && ParsePair(fits, s, p, depth, seen).NoPair?
    ensures ScanMembers(fits, s, p, depth, seen) == Fail
  {
    hide ParseKey, ParseValue, ParseMembers, SpaceEnd, Slice, Decode, Spaces;
    MembersBad(fits, s, p, depth, seen);
  }

  /** Without whitespace passed there was none before the first element or
      member. */
  lemma TightFromStart(fits: FloatRange, s: bytes, p: nat, depth: nat, seen: set<bytes>)
    requires p <= |s|
    ensures var r := ScanItems(fits, s, p, depth); r.Done? && r.tight ==> SpaceEnd(s, p) == p
    ensures var r := ScanMembers(fits, s, p, depth, seen); r.Done? && r.tight ==> SpaceEnd(s, p) == p
  {
    hide ParseValue, SpaceEnd, Slice, Decode, Tight, Spaces;
  }

  lemma PairFromStart(fits: FloatRange, s: bytes, p: nat, depth: nat, seen: set<bytes>)
    requires p <= |s|
    ensures var m := ParsePair(fits, s, p, depth, seen); m.PairAt? && PairTight(p, m) ==> SpaceEnd(s, p) == p
  {
    hide ParseValue, SpaceEnd, Slice, Decode, Tight, Spaces;
  }

  /** A container with nothing in it, or one that scans as its contents do. */
  lemma ObjectUnfold(fits: FloatRange, s: bytes, p: nat, depth: nat)
    requires p < |s|
    ensures depth >= MAX_DEPTH ==> ParseObject(fits, s, p, depth).Bad?
    ensures depth < MAX_DEPTH ==>
      var q, r := SpaceEnd(s, p + 1), ParseObject(fits, s, p, depth);
      var inner := if q < |s| && s[q] == RBRACE then Done(q + 1, q == p + 1, [])
        else ScanMembers(fits, s, p + 1, depth + 1, {});
      && (r.Good? <==> inner.Done?)
      && (r.Good? ==>
          r.end == inner.end && (Tight(r.tree) <==> inner.tight) && FieldsOf(r.tree.members, p + 1) == inner.found)
  {
    hide ParseMembers, SpaceEnd, Slice, Spaces;
    var q := SpaceEnd(s, p + 1);
    assert Slice(s, p + 1, q) == [] <==> q == p + 1;
  }

  lemma ArrayUnfold(fits: FloatRange, s: bytes, p: nat, depth: nat)
    requires p < |s|
    ensures depth >= MAX_DEPTH ==> ParseArray(fits, s, p, depth).Bad?
    ensures depth < MAX_DEPTH ==>
      var q, r := SpaceEnd(s, p + 1), ParseArray(fits, s, p, depth);
      var inner := if q < |s| && s[q] == RBRACKET then Done(q + 1, q == p + 1, [])
        else ScanItems(fits, s, p + 1, depth + 1);
      && (r.Good? <==> inner.Done?)
      && (r.Good? ==>
          r.end == inner.end && (Tight(r.tree) <==> inner.tight) && SpansOf(r.tree.items, p + 1) == inner.found)
  {
    hide ParseItems, SpaceEnd, Slice, Spaces;
    var q := SpaceEnd(s, p + 1);
    assert Slice(s, p + 1, q) == [] <==> q == p + 1;
  }
}
