/** Everything the grammar derives is accepted by the recursive descent, with
    the same derivation, so no text has two. */
module JsonComplete {
  import opened Bytes
  import opened JsonStrings
  import opened JsonGrammar
  import opened JsonReads
  import opened JsonParse

  lemma SliceAt(s: bytes, p: nat, t: bytes, e: nat)
    requires At(s, p, t) && e == p + |t|
    ensures e <= |s| && Slice(s, p, e) == t
  {
  }

  lemma SpaceComplete(s: bytes, p: nat, w: bytes, e: nat)
    requires At(s, p, w) && Spaces(w) && e == p + |w| && (e < |s| ==> !IsSpace(s[e]))
    ensures SpaceEnd(s, p) == e && Slice(s, p, e) == w
  {
    var f := SpaceEnd(s, p);
    assert forall i :: p <= i < f ==> IsSpace(s[i]) by {
      assert forall i :: p <= i < f ==> s[i] == Slice(s, p, f)[i - p];
    }
    assert forall i :: p <= i < e ==> s[i] == w[i - p];
  }

  lemma DigitsComplete(s: bytes, p: nat, w: bytes, e: nat)
    requires At(s, p, w) && Digits(w) && e == p + |w| && (e < |s| ==> !IsDigit(s[e]))
    ensures DigitsEnd(s, p) == e
  {
    assert forall i :: p <= i < e ==> s[i] == w[i - p];
  }

  lemma AtByte(s: bytes, p: nat, b: bytes, i: nat)
    requires At(s, p, b) && i < |b|
    ensures p + i < |s| && s[p + i] == b[i]
  {
    assert s[p..p + |b|][i] == s[p + i];
  }

  // What one character of a body lets the scan pass over

  lemma PlainEnd(s: bytes, p: nat, b: bytes)
    requires b != [] && IsUnescaped(b[0]) && At(s, p, b)
    ensures p + 1 <= |s| && StringEnd(s, p) == StringEnd(s, p + 1)
  {
    AtByte(s, p, b, 0);
  }

  lemma ShortEnd(s: bytes, p: nat, b: bytes)
    requires StartsShort(b) && At(s, p, b)
    ensures p + 2 <= |s| && StringEnd(s, p) == StringEnd(s, p + 2)
  {
    hide At;
    AtByte(s, p, b, 0);
    AtByte(s, p, b, 1);
  }

  lemma UnitEnd(s: bytes, p: nat, b: bytes)
    requires StartsUnit(b) && At(s, p, b)
    ensures p + 6 <= |s| && StringEnd(s, p) == StringEnd(s, p + 6)
  {
    hide At, IsHex;
    AtByte(s, p, b, 0);
    AtByte(s, p, b, 1);
    AtByte(s, p, b, 2);
    AtByte(s, p, b, 3);
    AtByte(s, p, b, 4);
    AtByte(s, p, b, 5);
  }

  /** A nonempty body is one character and a body. */
  lemma BodyOpens(b: bytes) returns (k: nat)
    requires IsBody(b) && b != []
    ensures 1 <= k <= |b| && IsBody(b[k..])
    ensures (k == 1 && IsUnescaped(b[0])) || (k == 2 && StartsShort(b)) || (k == 6 && StartsUnit(b))
  {
    k := if IsUnescaped(b[0]) then 1 else if StartsShort(b) then 2 else 6;
  }

  lemma {:induction false} BodyComplete(s: bytes, p: nat, b: bytes)
    requires IsBody(b) && At(s, p, b) && CharAt(s, p + |b|, QUOTE)
    ensures StringEnd(s, p) == p + |b|
    decreases |b|
  {
    if b == [] {
      QuoteEnds(s, p);
    } else {
      hide At, IsBody, StartsUnit, StartsShort, IsUnescaped, StringEnd;
      var k := BodyOpens(b);
      AtDrop(s, p, b, k);
      BodyComplete(s, p + k, b[k..]);
      if k == 1 {
        PlainEnd(s, p, b);
      } else if k == 2 {
        ShortEnd(s, p, b);
      } else {
        UnitEnd(s, p, b);
      }
    }
  }

  lemma QuoteEnds(s: bytes, p: nat)
    requires CharAt(s, p, QUOTE)
    ensures StringEnd(s, p) == p
  {
  }

  lemma AtDrop(s: bytes, p: nat, b: bytes, k: nat)
    requires At(s, p, b) && k <= |b|
    ensures At(s, p + k, b[k..])
  {
    assert b[k..] == s[p..p + |b|][k..];
  }

  /** The byte at e does not continue a number. */
  predicate Follows(s: bytes, e: nat) { e < |s| ==> !IsDigit(s[e]) && s[e] != DOT && !IsE(s[e]) }

  lemma WholeComplete(s: bytes, p: nat, w: bytes, e: nat)
    requires At(s, p, w) && Digits(w) && (w[0] == ZERO ==> |w| == 1) && e == p + |w| && (e < |s| ==> !IsDigit(s[e]))
    ensures p < |s| && IsDigit(s[p]) && WholeEnd(s, p) == e
  {
    assert s[p] == w[0];
    if w[0] != ZERO {
      DigitsComplete(s, p, w, e);
    }
  }

  lemma FracComplete(s: bytes, p: nat, w: bytes, e: nat)
    requires At(s, p, w) && (w == [] || (w[0] == DOT && Digits(w[1..]))) && e == p + |w|
      && (e < |s| ==> !IsDigit(s[e]) && s[e] != DOT)
    ensures FracEnd(s, p) == e
  {
    if w != [] {
      assert s[p] == w[0];
      AtDrop(s, p, w, 1);
      DigitsComplete(s, p + 1, w[1..], e);
    }
  }

  lemma ExpComplete(s: bytes, p: nat, w: bytes, e: nat)
    requires At(s, p, w) && e == p + |w| && Follows(s, e)
    requires w == [] || (IsE(w[0]) && |w| > 1 && Digits(w[if IsSign(w[1]) then 2 else 1..]))
    ensures ExpEnd(s, p) == e
  {
    if w != [] {
      assert s[p] == w[0] && s[p + 1] == w[1];
      var k := if IsSign(w[1]) then 2 else 1;
      AtDrop(s, p, w, k);
      DigitsComplete(s, p + k, w[k..], e);
    }
  }

  lemma NumberComplete(fits: FloatRange, s: bytes, p: nat, v: Value)
    requires v.Number? && NumberOk(v) && fits(Print(v)) && Reads(s, p, v) && Follows(s, p + Size(v))
    ensures p < |s| && (s[p] == MINUS || IsDigit(s[p]))
    ensures ParseNumber(fits, s, p) == Good(v, p + Size(v))
  {
    hide At, Digits, WholeEnd, FracEnd, ExpEnd, Slice;
    var a := p + |v.minus|;
    var b := a + |v.whole|;
    var c := b + |v.frac|;
    var e := c + |v.exp|;
    AtFirst(s, c, v.exp);
    ExpComplete(s, c, v.exp, e);
    AtFirst(s, b, v.frac);
    FracComplete(s, b, v.frac, c);
    AtFirst(s, a, v.whole);
    WholeComplete(s, a, v.whole, b);
    AtFirst(s, p, v.minus);
    SliceAt(s, p, v.minus, a);
    SliceAt(s, a, v.whole, b);
    SliceAt(s, b, v.frac, c);
    SliceAt(s, c, v.exp, e);
    PrintedAt(s, p, v, e);
    hide Print, NumberOk, Reads;
  }

  lemma PrintedAt(s: bytes, p: nat, v: Value, e: nat)
    requires Reads(s, p, v) && e == p + Size(v)
    ensures e <= |s| && p <= e && Slice(s, p, e) == Print(v)
  {
    ReadsIsAt(s, p, v);
    PrintSize(v);
    SliceAt(s, p, Print(v), e);
  }

  lemma AtFirst(s: bytes, p: nat, w: bytes)
    requires At(s, p, w)
    ensures p + |w| <= |s| && (w != [] ==> s[p] == w[0])
  {
  }

  /** The first byte of a value is none of the bytes that may follow one. */
  lemma ValueOpens(fits: FloatRange, s: bytes, p: nat, v: Value, room: int)
    requires Admissible(fits, v, room) && Reads(s, p, v)
    ensures p < |s| && !IsSpace(s[p]) && s[p] != RBRACKET && s[p] != RBRACE && s[p] != COMMA
    ensures p + Size(v) > p
  {
    hide IsBody, ItemsOk, MembersOk, ReadsItems, ReadsMembers, KeysDiffer, SizeItems, SizeMembers, At;
    match v
    case Word(w) => AtFirst(s, p, w);
    case Number(_, _, _, _) => NumberOpens(s, p, v);
    case _ =>
  }

  lemma NumberOpens(s: bytes, p: nat, v: Value)
    requires v.Number? && NumberOk(v) && Reads(s, p, v)
    ensures p < |s| && (s[p] == MINUS || IsDigit(s[p])) && Size(v) > 0
  {
    hide At;
    AtFirst(s, p, v.minus);
    AtFirst(s, p + |v.minus|, v.whole);
  }

  lemma AfterValue(s: bytes, e: nat, w: bytes, a: nat)
    requires At(s, e, w) && Spaces(w) && a == e + |w| && a < |s|
      && (s[a] == COMMA || s[a] == RBRACKET || s[a] == RBRACE)
    ensures Follows(s, e) && SpaceEnd(s, e) == a && Slice(s, e, a) == w
  {
    AtFirst(s, e, w);
    SpaceComplete(s, e, w, a);
  }

  lemma {:induction false} ValueComplete(fits: FloatRange, s: bytes, p: nat, v: Value, depth: nat)
    requires Admissible(fits, v, MAX_DEPTH - depth) && Reads(s, p, v) && Follows(s, p + Size(v))
    ensures p <= |s| && ParseValue(fits, s, p, depth) == Good(v, p + Size(v))
    decreases v, 1
  {
    hide ParseArray, ParseObject, ParseNumber, IsBody, NumberOk, Spaces, StringEnd, Slice, At;
    match v
    case Word(w) => WordComplete(fits, s, p, w, depth);
    case Number(_, _, _, _) => NumberComplete(fits, s, p, v);
    case Text(b) => TextComplete(fits, s, p, b, depth);
    case Array(_, _) => ArrayComplete(fits, s, p, v, depth);
    case Object(_, _) => ObjectComplete(fits, s, p, v, depth);
  }

  lemma TextComplete(fits: FloatRange, s: bytes, p: nat, b: bytes, depth: nat)
    requires IsBody(b) && Reads(s, p, Text(b))
    ensures p <= |s| && ParseValue(fits, s, p, depth) == Good(Text(b), p + Size(Text(b)))
  {
    hide ParseArray, ParseObject, ParseNumber, IsBody, StringEnd, Slice, At;
    BodyComplete(s, p + 1, b);
    SliceAt(s, p + 1, b, p + 1 + |b|);
  }

  lemma WordComplete(fits: FloatRange, s: bytes, p: nat, w: bytes, depth: nat)
    requires At(s, p, w) && (w == TRUE || w == FALSE || w == NULL)
    ensures p <= |s| && ParseValue(fits, s, p, depth) == Good(Word(w), p + |w|)
  {
    hide ParseArray, ParseObject, ParseNumber, StringEnd;
    AtFirst(s, p, w);
  }

  lemma {:induction false} ArrayComplete(fits: FloatRange, s: bytes, p: nat, v: Value, depth: nat)
    requires v.Array? && Admissible(fits, v, MAX_DEPTH - depth) && Reads(s, p, v)
    ensures p < |s| && ParseArray(fits, s, p, depth) == Good(v, p + Size(v))
    decreases v, 0
  {
    hide ParseItems, ReadsItems, ItemsOk, SpaceEnd, Slice, At, Spaces;
    if v.items.NoItems? {
      SpaceComplete(s, p + 1, v.inner, p + 1 + |v.inner|);
    } else {
      ItemsComplete(fits, s, p + 1, v.items, depth + 1);
    }
  }

  /** The first element's position, and that it is not "]". */
  lemma ItemsOpen(fits: FloatRange, s: bytes, p: nat, i: Items, room: int)
    requires i.Items? && ItemsOk(fits, i, room) && ReadsItems(s, p, i)
    ensures p <= |s| && SpaceEnd(s, p) == p + |i.before| < |s| && Slice(s, p, p + |i.before|) == i.before
    ensures s[p + |i.before|] != RBRACKET
  {
    hide At, Spaces, SpaceEnd, Slice, Admissible, Reads;
    ValueOpens(fits, s, p + |i.before|, i.value, room);
    SpaceComplete(s, p, i.before, p + |i.before|);
  }

  lemma {:induction false} ItemsComplete(fits: FloatRange, s: bytes, p: nat, i: Items, depth: nat)
    requires i.Items? && ItemsOk(fits, i, MAX_DEPTH - depth) && ReadsItems(s, p, i)
    requires CharAt(s, p + SizeItems(i), RBRACKET)
    ensures p <= |s| && ParseItems(fits, s, p, depth) == Good(i, p + SizeItems(i) + 1)
    ensures SpaceEnd(s, p) < |s| && s[SpaceEnd(s, p)] != RBRACKET
    decreases i
  {
    hide At, Spaces, SpaceEnd, Slice, Admissible, Reads, ParseValue, Size;
    var q := p + |i.before|;
    var e := q + Size(i.value);
    var a := e + |i.after|;
    ItemsOpen(fits, s, p, i, MAX_DEPTH - depth);
    AfterValue(s, e, i.after, a);
    ValueComplete(fits, s, q, i.value, depth);
    if i.rest.Items? {
      ItemsComplete(fits, s, a + 1, i.rest, depth);
    }
  }

  lemma {:induction false} ObjectComplete(fits: FloatRange, s: bytes, p: nat, v: Value, depth: nat)
    requires v.Object? && Admissible(fits, v, MAX_DEPTH - depth) && Reads(s, p, v)
    ensures p < |s| && ParseObject(fits, s, p, depth) == Good(v, p + Size(v))
    decreases v, 0
  {
    hide ParseMembers, ReadsMembers, MembersOk, SpaceEnd, Slice, At, Spaces;
    if v.members.NoMembers? {
      SpaceComplete(s, p + 1, v.inner, p + 1 + |v.inner|);
    } else {
      MembersComplete(fits, s, p + 1, v.members, depth + 1, {});
    }
  }

  /** Where m's key and colon are, from where m is. */
  function KeyOf(p: nat, m: Members): KeyAt
    requires m.Members?
  {
    var k := p + |m.before| + 1;
    KeyAt(k, k + |m.key|, k + |m.key| + 1 + |m.gap|)
  }

  lemma KeyComplete(s: bytes, p: nat, m: Members)
    requires m.Members? && ReadsKey(s, p, m) && IsBody(m.key) && Spaces(m.before) && Spaces(m.gap)
    ensures p <= |s| && ParseKey(s, p) == KeyOf(p, m)
    ensures var k := KeyOf(p, m);
      Slice(s, p, k.start - 1) == m.before && Slice(s, k.start, k.end) == m.key && Slice(s, k.end + 1, k.colon) == m.gap
  {
    hide At, Spaces, IsBody, SpaceEnd, Slice, StringEnd;
    var k := KeyOf(p, m);
    SpaceComplete(s, p, m.before, k.start - 1);
    BodyComplete(s, k.start, m.key);
    SliceAt(s, k.start, m.key, k.end);
    SpaceComplete(s, k.end + 1, m.gap, k.colon);
  }

  /** A member's parse: its key, its value and what follows, in one step. */
  lemma MemberComplete(fits: FloatRange, s: bytes, p: nat, m: Members, depth: nat, l: nat, f: nat, a: nat)
    requires m.Members? && ReadsKey(s, p, m) && IsBody(m.key) && Spaces(m.before) && Spaces(m.gap) && Spaces(m.lead)
      && Spaces(m.after)
    requires At(s, p + Lead(m) - |m.lead|, m.lead) && l == p + Lead(m) && Reads(s, l, m.value)
      && Admissible(fits, m.value, MAX_DEPTH - depth)
    requires f == l + Size(m.value) && At(s, f, m.after) && a == f + |m.after|
    requires a < |s| && (s[a] == COMMA || s[a] == RBRACE)
    ensures p <= |s| && ParseKey(s, p) == KeyOf(p, m) && l == SpaceEnd(s, KeyOf(p, m).colon + 1)
    ensures Slice(s, KeyOf(p, m).start, KeyOf(p, m).end) == m.key
    ensures SpaceEnd(s, f) == a && Follows(s, f)
    ensures MemberAt(s, p, KeyOf(p, m), l, m.value, f, a, m.rest) == m
  {
    hide At, Spaces, IsBody, SpaceEnd, Slice, StringEnd, ParseKey, Reads, Admissible, ReadsKey, Size;
    KeyComplete(s, p, m);
    ValueOpens(fits, s, l, m.value, MAX_DEPTH - depth);
    SpaceComplete(s, KeyOf(p, m).colon + 1, m.lead, l);
    AfterValue(s, f, m.after, a);
  }

  lemma {:induction false} MembersComplete(fits: FloatRange, s: bytes, p: nat, m: Members, depth: nat, seen: set<bytes>)
    requires m.Members? && MembersOk(fits, m, MAX_DEPTH - depth) && ReadsMembers(s, p, m)
    requires KeysDiffer(m) && KeySet(m) !! seen && CharAt(s, p + SizeMembers(m), RBRACE)
    ensures p <= |s| && ParseMembers(fits, s, p, depth, seen) == Good(m, p + SizeMembers(m) + 1)
    ensures SpaceEnd(s, p) < |s| && s[SpaceEnd(s, p)] != RBRACE
    decreases m
  {
    hide At, Spaces, SpaceEnd, Slice, Admissible, Reads, ReadsKey, ParseKey, ParseValue, Size, Lead, Decode, IsBody,
      MemberAt, ParseMembers;
    var l := p + Lead(m);
    var f := l + Size(m.value);
    var a := f + |m.after|;
    MemberComplete(fits, s, p, m, depth, l, f, a);
    ValueComplete(fits, s, l, m.value, depth);
    MembersUnfold(fits, s, p, depth, seen, KeyOf(p, m), l, m.value, f, a);
    if m.rest.Members? {
      MembersComplete(fits, s, a + 1, m.rest, depth, seen + {Decode(m.key)});
    }
  }
}
