/** Everything the recursive descent accepts is derived by the grammar. */
module JsonSound {
  import opened Bytes
  import opened JsonStrings
  import opened JsonGrammar
  import opened JsonReads
  import opened JsonParse

  lemma AtSlice(s: bytes, p: nat, e: nat)
    requires p <= e <= |s|
    ensures At(s, p, Slice(s, p, e))
  {
  }

  lemma AtNothing(s: bytes, p: nat)
    requires p <= |s|
    ensures At(s, p, []) && Spaces([])
  {
  }

  lemma {:induction false} BodySound(s: bytes, p: nat)
    requires p <= |s| && StringEnd(s, p) >= 0
    ensures IsBody(Slice(s, p, StringEnd(s, p)))
    decreases |s| - p
  {
    var e := StringEnd(s, p);
    if e > p {
      var b := s[p..e];
      if s[p] == BACKSLASH && IsShort(s[p + 1]) {
        BodySound(s, p + 2);
        assert b[2..] == s[p + 2..e];
      } else if s[p] == BACKSLASH {
        BodySound(s, p + 6);
        assert b[6..] == s[p + 6..e];
      } else {
        BodySound(s, p + 1);
        assert b[1..] == s[p + 1..e];
      }
    }
  }

  lemma NumberSound(fits: FloatRange, s: bytes, p: nat)
    requires ShortNumbersFit(fits) && p < |s| && ParseNumber(fits, s, p).Good?
    ensures var r := ParseNumber(fits, s, p);
      NumberOk(r.tree) && fits(Print(r.tree)) && Reads(s, p, r.tree) && r.end == p + Size(r.tree)
  {
    hide Slice, At, Digits, DigitsEnd, WholeEnd, FracEnd, ExpEnd, Print, NumberOk, ShortNumbersFit;
    var r := ParseNumber(fits, s, p);
    var v, e := r.tree, r.end;
    var a := if s[p] == MINUS then p + 1 else p;
    var b := WholeEnd(s, a);
    var c := FracEnd(s, b);
    NumberPieces(s, p, a, b, c, e);
    NumberFits(fits, v, Slice(s, p, e));
    AtSlice(s, p, a);
    AtSlice(s, a, b);
    AtSlice(s, b, c);
    AtSlice(s, c, e);
    SliceSizes(s, p, a, b, c, e);
  }

  lemma SliceSizes(s: bytes, p: nat, a: nat, b: nat, c: nat, e: nat)
    requires p <= a <= b <= c <= e <= |s|
    ensures |Slice(s, p, a)| == a - p && |Slice(s, a, b)| == b - a && |Slice(s, b, c)| == c - b
    ensures |Slice(s, c, e)| == e - c && |Slice(s, p, e)| == e - p
  {
  }

  /** Minus, whole part, fraction and exponent, as far as each goes. */
  lemma NumberPieces(s: bytes, p: nat, a: nat, b: nat, c: nat, e: nat)
    requires p < |s| && a == (if s[p] == MINUS then p + 1 else p)
    requires b == WholeEnd(s, a) && c == FracEnd(s, b) && e == ExpEnd(s, c)
    ensures var v := Number(Slice(s, p, a), Slice(s, a, b), Slice(s, b, c), Slice(s, c, e));
      NumberOk(v) && Print(v) == Slice(s, p, e)
  {
    hide Digits, DigitsEnd, WholeEnd, FracEnd, ExpEnd;
    WholeSound(s, a);
    FracSound(s, b);
    ExpSound(s, c);
    NumberText(s, p, a, b, c, e);
    assert Slice(s, p, a) == if s[p] == MINUS then [MINUS] else [];
    hide Slice;
  }

  lemma NumberFits(fits: FloatRange, v: Value, text: bytes)
    requires ShortNumbersFit(fits) && v.Number? && NumberOk(v) && Print(v) == text
    requires (v.exp != [] || |text| > 15) ==> fits(text)
    ensures fits(Print(v))
  {
  }

  lemma NumberText(s: bytes, p: nat, a: nat, b: nat, c: nat, e: nat)
    requires p <= a <= b <= c <= e <= |s|
    ensures Slice(s, p, a) + Slice(s, a, b) + Slice(s, b, c) + Slice(s, c, e) == Slice(s, p, e)
  {
    SliceJoin(s, p, a, b);
    SliceJoin(s, p, b, c);
    SliceJoin(s, p, c, e);
    hide Slice;
  }

  lemma SliceJoin(s: bytes, p: nat, a: nat, e: nat)
    requires p <= a <= e <= |s|
    ensures Slice(s, p, a) + Slice(s, a, e) == Slice(s, p, e)
  {
  }

  lemma WholeSound(s: bytes, p: nat)
    requires p <= |s| && WholeEnd(s, p) >= 0
    ensures var w := Slice(s, p, WholeEnd(s, p)); Digits(w) && (w[0] == ZERO ==> |w| == 1)
  {
  }

  lemma FracSound(s: bytes, p: nat)
    requires p <= |s| && FracEnd(s, p) >= 0
    ensures var w := Slice(s, p, FracEnd(s, p)); w == [] || (w[0] == DOT && Digits(w[1..]))
  {
    var e := FracEnd(s, p);
    if e > p {
      assert Slice(s, p, e)[1..] == Slice(s, p + 1, e);
    }
  }

  lemma ExpSound(s: bytes, p: nat)
    requires p <= |s| && ExpEnd(s, p) >= 0
    ensures var w := Slice(s, p, ExpEnd(s, p));
      w == [] || (IsE(w[0]) && |w| > 1 && Digits(w[if IsSign(w[1]) then 2 else 1..]))
  {
    var e := ExpEnd(s, p);
    if e > p {
      assert Slice(s, p, e)[1..] == Slice(s, p + 1, e);
      assert e > p + 1;
      assert Slice(s, p, e)[2..] == Slice(s, p + 2, e);
    }
  }

  /** What a successful parse from p means. */
  ghost predicate SoundValue(fits: FloatRange, s: bytes, p: nat, depth: nat, r: Parsed<Value>) {
    r.Good? ==> Reads(s, p, r.tree) && r.end == p + Size(r.tree) && Admissible(fits, r.tree, MAX_DEPTH - depth)
  }

  lemma {:induction false} ValueSound(fits: FloatRange, s: bytes, p: nat, depth: nat)
    requires ShortNumbersFit(fits) && p <= |s|
    ensures SoundValue(fits, s, p, depth, ParseValue(fits, s, p, depth))
    decreases |s| - p, 1
  {
    hide SpaceEnd, ParseNumber, ParseArray, ParseObject, IsBody, NumberOk, StringEnd, ShortNumbersFit;
    if p < |s| {
      if s[p] == LBRACE {
        ObjectSound(fits, s, p, depth);
      } else if s[p] == LBRACKET {
        ArraySound(fits, s, p, depth);
      } else if s[p] == QUOTE {
        if StringEnd(s, p + 1) >= 0 {
          TextSound(fits, s, p, depth);
        }
      } else if s[p] == MINUS || IsDigit(s[p]) {
        if ParseNumber(fits, s, p).Good? {
          NumberSound(fits, s, p);
        }
      }
    }
  }

  lemma TextSound(fits: FloatRange, s: bytes, p: nat, depth: nat)
    requires p < |s| && s[p] == QUOTE && StringEnd(s, p + 1) >= 0
    ensures var e := StringEnd(s, p + 1); SoundValue(fits, s, p, depth, Good(Text(Slice(s, p + 1, e)), e + 1))
  {
    hide IsBody;
    BodySound(s, p + 1);
    AtSlice(s, p + 1, StringEnd(s, p + 1));
    hide StringEnd, At;
  }

  lemma {:induction false} ArraySound(fits: FloatRange, s: bytes, p: nat, depth: nat)
    requires ShortNumbersFit(fits) && p < |s| && s[p] == LBRACKET
    ensures SoundValue(fits, s, p, depth, ParseArray(fits, s, p, depth))
    decreases |s| - p, 0
  {
    hide Slice, SpaceEnd, ParseItems, SoundItems, Reads, Admissible, Size, ShortNumbersFit;
    var q := SpaceEnd(s, p + 1);
    if depth < MAX_DEPTH {
      if q < |s| && s[q] == RBRACKET {
        EmptyArray(fits, s, p, depth, q);
      } else {
        ItemsSound(fits, s, p + 1, depth + 1);
        var r := ParseItems(fits, s, p + 1, depth + 1);
        if r.Good? {
          FilledArray(fits, s, p, depth, r.tree, r.end);
        }
      }
    }
  }

  lemma EmptyArray(fits: FloatRange, s: bytes, p: nat, depth: nat, q: nat)
    requires p < q < |s| && s[p] == LBRACKET && s[q] == RBRACKET && Spaces(Slice(s, p + 1, q)) && depth < MAX_DEPTH
    ensures SoundValue(fits, s, p, depth, Good(Array(Slice(s, p + 1, q), NoItems), q + 1))
  {
    AtSlice(s, p + 1, q);
    NoItemsReads(fits, s, q, MAX_DEPTH - depth - 1);
    assert |Slice(s, p + 1, q)| == q - p - 1;
    hide At, Spaces, Slice;
  }

  lemma FilledArray(fits: FloatRange, s: bytes, p: nat, depth: nat, items: Items, e: nat)
    requires p < |s| && s[p] == LBRACKET && depth < MAX_DEPTH && items.Items?
    requires SoundItems(fits, s, p + 1, depth + 1, items, e)
    ensures SoundValue(fits, s, p, depth, Good(Array([], items), e))
  {
    hide ReadsItems, ItemsOk, SizeItems, At;
    AtNothing(s, p + 1);
  }

  lemma NoItemsReads(fits: FloatRange, s: bytes, p: nat, room: int)
    ensures ReadsItems(s, p, NoItems) && ItemsOk(fits, NoItems, room) && Spaces([])
    ensures ReadsMembers(s, p, NoMembers) && MembersOk(fits, NoMembers, room)
  {
  }

  ghost predicate SoundItems(fits: FloatRange, s: bytes, p: nat, depth: nat, i: Items, end: nat) {
    && ReadsItems(s, p, i) && ItemsOk(fits, i, MAX_DEPTH - depth)
    && CharAt(s, p + SizeItems(i), RBRACKET) && end == p + SizeItems(i) + 1
  }

  /** One element, with its whitespace, before what follows it. */
  lemma ItemsStep(fits: FloatRange, s: bytes, p: nat, depth: nat, q: nat, v: Value, e: nat, a: nat, rest: Items,
      end: nat)
    requires p <= q <= e <= a < |s| && Spaces(Slice(s, p, q)) && Spaces(Slice(s, e, a))
    requires SoundValue(fits, s, q, depth, Good(v, e))
    requires rest.NoItems? ==> s[a] == RBRACKET && end == a + 1
    requires rest.Items? ==> s[a] == COMMA && SoundItems(fits, s, a + 1, depth, rest, end)
    ensures SoundItems(fits, s, p, depth, Items(Slice(s, p, q), v, Slice(s, e, a), rest), end)
  {
    hide Slice, SpaceEnd, At, Spaces, Reads, Admissible, Size;
    AtSlice(s, p, q);
    AtSlice(s, e, a);
    if rest.NoItems? {
      NoItemsReads(fits, s, a + 1, MAX_DEPTH - depth);
    }
    var i := Items(Slice(s, p, q), v, Slice(s, e, a), rest);
    assert SizeItems(i) == a - p + if rest.NoItems? then 0 else 1 + SizeItems(rest);
    assert ReadsItemsTail(s, a, i.rest);
    assert ReadsItems(s, p, i);
  }

  lemma {:induction false} ItemsSound(fits: FloatRange, s: bytes, p: nat, depth: nat)
    requires ShortNumbersFit(fits) && p <= |s|
    ensures var r := ParseItems(fits, s, p, depth); r.Good? ==> SoundItems(fits, s, p, depth, r.tree, r.end)
    decreases |s| - p, 2
  {
    hide Slice, SpaceEnd, SoundItems, SoundValue, Spaces, ParseValue;
    var q := SpaceEnd(s, p);
    ValueSound(fits, s, q, depth);
    match ParseValue(fits, s, q, depth)
    case Bad =>
    case Good(v, e) =>
      var a := SpaceEnd(s, e);
      if a < |s| && s[a] == RBRACKET {
        ItemsStep(fits, s, p, depth, q, v, e, a, NoItems, a + 1);
      } else if a < |s| && s[a] == COMMA {
        ItemsSound(fits, s, a + 1, depth);
        var r := ParseItems(fits, s, a + 1, depth);
        if r.Good? {
          ItemsStep(fits, s, p, depth, q, v, e, a, r.tree, r.end);
        }
      }
  }

  lemma {:induction false} ObjectSound(fits: FloatRange, s: bytes, p: nat, depth: nat)
    requires ShortNumbersFit(fits) && p < |s| && s[p] == LBRACE
    ensures SoundValue(fits, s, p, depth, ParseObject(fits, s, p, depth))
    decreases |s| - p, 0
  {
    hide Slice, SpaceEnd, ParseMembers, SoundMembers, Reads, Admissible, Size, ShortNumbersFit;
    var q := SpaceEnd(s, p + 1);
    if depth < MAX_DEPTH {
      if q < |s| && s[q] == RBRACE {
        EmptyObject(fits, s, p, depth, q);
      } else {
        MembersSound(fits, s, p + 1, depth + 1, {});
        var r := ParseMembers(fits, s, p + 1, depth + 1, {});
        if r.Good? {
          FilledObject(fits, s, p, depth, r.tree, r.end);
        }
      }
    }
  }

  lemma EmptyObject(fits: FloatRange, s: bytes, p: nat, depth: nat, q: nat)
    requires p < q < |s| && s[p] == LBRACE && s[q] == RBRACE && Spaces(Slice(s, p + 1, q)) && depth < MAX_DEPTH
    ensures SoundValue(fits, s, p, depth, Good(Object(Slice(s, p + 1, q), NoMembers), q + 1))
  {
    AtSlice(s, p + 1, q);
    NoItemsReads(fits, s, q, MAX_DEPTH - depth - 1);
    assert |Slice(s, p + 1, q)| == q - p - 1;
    hide At, Spaces, Slice;
  }

  lemma FilledObject(fits: FloatRange, s: bytes, p: nat, depth: nat, members: Members, e: nat)
    requires p < |s| && s[p] == LBRACE && depth < MAX_DEPTH && members.Members?
    requires SoundMembers(fits, s, p + 1, depth + 1, {}, members, e)
    ensures SoundValue(fits, s, p, depth, Good(Object([], members), e))
  {
    hide ReadsMembers, MembersOk, SizeMembers, KeySet, KeysDiffer, At;
    AtNothing(s, p + 1);
  }

  ghost predicate SoundMembers(fits: FloatRange, s: bytes, p: nat, depth: nat, seen: set<bytes>, m: Members, end: nat) {
    && ReadsMembers(s, p, m) && MembersOk(fits, m, MAX_DEPTH - depth)
    && CharAt(s, p + SizeMembers(m), RBRACE) && end == p + SizeMembers(m) + 1
    && KeysDiffer(m) && KeySet(m) !! seen
  }

  lemma KeysStep(m: Members, seen: set<bytes>)
    requires m.Members? && Decode(m.key) !in seen
    requires m.rest.Members? ==> KeysDiffer(m.rest) && KeySet(m.rest) !! seen + {Decode(m.key)}
    ensures KeysDiffer(m) && KeySet(m) !! seen
  {
    hide Decode;
    if m.rest.Members? {
      assert Decode(m.key) in seen + {Decode(m.key)};
    }
  }

  /** m stands in s at p, with its value at l, the value's end at f and its
      own end at a. */
  ghost predicate MemberReads(s: bytes, p: nat, m: Members, l: nat, f: nat, a: nat) {
    && m.Members? && ReadsKey(s, p, m) && IsBody(m.key) && Spaces(m.before) && Spaces(m.gap) && Spaces(m.lead)
    && Spaces(m.after)
    && l == p + Lead(m) && At(s, p + Lead(m) - |m.lead|, m.lead) && At(s, f, m.after) && a == f + |m.after|
  }

  /** The pieces of a member, each at the place the one before it ends. */
  lemma MemberPieces(s: bytes, p: nat, m: Members, k: KeyAt, l: nat, f: nat, a: nat)
    requires m.Members? && k.KeyAt? && k.start > 0
    requires At(s, p, m.before) && p + |m.before| == k.start - 1 && CharAt(s, k.start - 1, QUOTE)
    requires At(s, k.start, m.key) && k.start + |m.key| == k.end && CharAt(s, k.end, QUOTE)
    requires At(s, k.end + 1, m.gap) && k.end + 1 + |m.gap| == k.colon && CharAt(s, k.colon, COLON)
    requires At(s, k.colon + 1, m.lead) && k.colon + 1 + |m.lead| == l && At(s, f, m.after) && f + |m.after| == a
    requires IsBody(m.key) && Spaces(m.before) && Spaces(m.gap) && Spaces(m.lead) && Spaces(m.after)
    ensures MemberReads(s, p, m, l, f, a)
  {
    hide At, Spaces, IsBody;
  }

  lemma KeyBody(s: bytes, p: nat, k: KeyAt)
    requires p <= |s| && k == ParseKey(s, p) && k.KeyAt?
    ensures IsBody(Slice(s, k.start, k.end))
  {
    hide Slice, IsBody, Spaces;
    BodySound(s, k.start);
  }

  lemma MemberAtReads(s: bytes, p: nat, k: KeyAt, l: nat, v: Value, f: nat, a: nat, rest: Members)
    requires p <= |s| && k == ParseKey(s, p) && k.KeyAt? && l == SpaceEnd(s, k.colon + 1) && f <= a <= |s|
      && Spaces(Slice(s, f, a))
    ensures MemberReads(s, p, MemberAt(s, p, k, l, v, f, a, rest), l, f, a)
  {
    hide Slice, ParseKey, SpaceEnd, StringEnd, At, Spaces, IsBody, MemberReads, MemberAt;
    KeyBody(s, p, k);
    SlicesRead(s, p, k, l, v, f, a, rest);
  }

  lemma SlicesRead(s: bytes, p: nat, k: KeyAt, l: nat, v: Value, f: nat, a: nat, rest: Members)
    requires k.KeyAt? && p < k.start <= k.end < k.colon < l <= |s| && f <= a <= |s|
    requires s[k.start - 1] == QUOTE && s[k.end] == QUOTE && s[k.colon] == COLON
    requires Spaces(Slice(s, p, k.start - 1)) && IsBody(Slice(s, k.start, k.end))
      && Spaces(Slice(s, k.end + 1, k.colon))
    requires Spaces(Slice(s, k.colon + 1, l)) && Spaces(Slice(s, f, a))
    ensures MemberReads(s, p, MemberAt(s, p, k, l, v, f, a, rest), l, f, a)
  {
    hide Slice, At, Spaces, IsBody, MemberReads;
    AtSlice(s, p, k.start - 1);
    AtSlice(s, k.start, k.end);
    AtSlice(s, k.end + 1, k.colon);
    AtSlice(s, k.colon + 1, l);
    AtSlice(s, f, a);
    MemberPieces(s, p, MemberAt(s, p, k, l, v, f, a, rest), k, l, f, a);
  }

  /** One member before what follows it. */
  lemma MembersStep(fits: FloatRange, s: bytes, p: nat, depth: nat, seen: set<bytes>, m: Members, l: nat, f: nat,
      a: nat, end: nat)
    requires MemberReads(s, p, m, l, f, a) && a < |s| && SoundValue(fits, s, l, depth, Good(m.value, f))
    requires Decode(m.key) !in seen
    requires m.rest.NoMembers? ==> s[a] == RBRACE && end == a + 1
    requires m.rest.Members? ==>
      s[a] == COMMA && SoundMembers(fits, s, a + 1, depth, seen + {Decode(m.key)}, m.rest, end)
    ensures SoundMembers(fits, s, p, depth, seen, m, end)
  {
    hide At, Spaces, Reads, ReadsKey, Lead, Admissible, Size, Decode, IsBody, KeysDiffer, KeySet, ReadsMembers,
      MembersOk;
    NoItemsReads(fits, s, a + 1, MAX_DEPTH - depth);
    KeysStep(m, seen);
    assert ReadsMembersTail(s, a, m.rest);
    OneMember(s, p, m);
    MemberOk(fits, m, MAX_DEPTH - depth);
  }

  lemma MemberOk(fits: FloatRange, m: Members, room: int)
    requires m.Members? && Spaces(m.before) && IsBody(m.key) && Spaces(m.gap) && Spaces(m.lead) && Spaces(m.after)
    requires Admissible(fits, m.value, room) && MembersOk(fits, m.rest, room)
    ensures MembersOk(fits, m, room)
  {
    hide Spaces, IsBody, Admissible;
  }

  lemma OneMember(s: bytes, p: nat, m: Members)
    requires m.Members? && ReadsKey(s, p, m) && At(s, p + Lead(m) - |m.lead|, m.lead) && Reads(s, p + Lead(m), m.value)
    requires At(s, p + Lead(m) + Size(m.value), m.after)
    requires ReadsMembersTail(s, p + Lead(m) + Size(m.value) + |m.after|, m.rest)
    ensures ReadsMembers(s, p, m)
    ensures SizeMembers(m) ==
      Lead(m) + Size(m.value) + |m.after| + if m.rest.NoMembers? then 0 else 1 + SizeMembers(m.rest)
  {
    hide Slice, SpaceEnd, At, Reads, ReadsKey, ReadsMembersTail, Lead, Size;
  }

  lemma {:induction false} MembersSound(fits: FloatRange, s: bytes, p: nat, depth: nat, seen: set<bytes>)
    requires ShortNumbersFit(fits) && p <= |s|
    ensures var r := ParseMembers(fits, s, p, depth, seen);
      r.Good? ==> SoundMembers(fits, s, p, depth, seen, r.tree, r.end)
    decreases |s| - p, 2
  {
    hide Slice, SpaceEnd, SoundMembers, SoundValue, Spaces, ParseValue, ParseKey, Decode, ParseMembers, MemberReads;
    var k := ParseKey(s, p);
    if k.NoKey? || Decode(Slice(s, k.start, k.end)) in seen {
      MembersBad(fits, s, p, depth, seen);
      return;
    }
    var l := SpaceEnd(s, k.colon + 1);
    ValueSound(fits, s, l, depth);
    match ParseValue(fits, s, l, depth)
    case Bad =>
      MembersBad(fits, s, p, depth, seen);
    case Good(v, f) =>
      var a := SpaceEnd(s, f);
      MembersUnfold(fits, s, p, depth, seen, k, l, v, f, a);
      if a < |s| && s[a] == RBRACE {
        MemberAtReads(s, p, k, l, v, f, a, NoMembers);
        MembersStep(fits, s, p, depth, seen, MemberAt(s, p, k, l, v, f, a, NoMembers), l, f, a, a + 1);
      } else if a < |s| && s[a] == COMMA {
        var seen' := seen + {Decode(Slice(s, k.start, k.end))};
        MembersSound(fits, s, a + 1, depth, seen');
        var r := ParseMembers(fits, s, a + 1, depth, seen');
        if r.Good? {
          MemberAtReads(s, p, k, l, v, f, a, r.tree);
          MembersStep(fits, s, p, depth, seen, MemberAt(s, p, k, l, v, f, a, r.tree), l, f, a, r.end);
        }
      }
  }
}
