/** The package's entry points, each against the grammar. */
module StrictJson {
  import opened Bytes
  import opened JsonStrings
  import opened JsonGrammar
  import opened JsonReads
  import opened JsonParse
  import opened JsonScans
  import JsonSound
  import JsonComplete
  import JsonScanner
  import Unquote

  type Slots = seq<seq<JsonScanner.KeyRef>>

  /** The whole text as the descent reads it: whitespace, a value, whitespace. */
  predicate Accepts(fits: FloatRange, raw: bytes, q: nat, v: Value, e: nat) {
    q == SpaceEnd(raw, 0) && ParseValue(fits, raw, q, 0) == Good(v, e) && SpaceEnd(raw, e) == |raw|
  }

  lemma AcceptedDerives(fits: FloatRange, raw: bytes, q: nat, v: Value, e: nat)
    requires ShortNumbersFit(fits) && Accepts(fits, raw, q, v, e)
    ensures Derives(fits, raw, Slice(raw, 0, q), v, Slice(raw, e, |raw|))
  {
    hide ParseValue, Print, Admissible, SpaceEnd, Reads, Spaces, Size, ShortNumbersFit;
    JsonSound.ValueSound(fits, raw, q, 0);
    JsonComplete.PrintedAt(raw, q, v, e);
    assert raw == Slice(raw, 0, q) + Slice(raw, q, e) + Slice(raw, e, |raw|);
  }

  lemma ThreePieces(raw: bytes, a: bytes, b: bytes, c: bytes, q: nat, e: nat)
    requires raw == a + b + c && q == |a| && e == q + |b|
    ensures At(raw, 0, a) && At(raw, q, b) && At(raw, e, c) && e + |c| == |raw|
  {
  }

  lemma LaidOut(fits: FloatRange, raw: bytes, before: bytes, v: Value, after: bytes, q: nat, e: nat)
    requires Derives(fits, raw, before, v, after) && q == |before| && e == q + Size(v)
    ensures Admissible(fits, v, MAX_DEPTH) && Spaces(before) && Spaces(after)
    ensures At(raw, 0, before) && Reads(raw, q, v) && At(raw, e, after) && e + |after| == |raw|
  {
    hide Print, Admissible, Reads, Size, At, Spaces;
    PrintSize(v);
    ThreePieces(raw, before, Print(v), after, q, e);
    ReadsIsAt(raw, q, v);
  }

  /** The descent finds any derivation there is. */
  lemma DerivedIsAccepted(fits: FloatRange, raw: bytes, before: bytes, v: Value, after: bytes, q: nat, e: nat)
    requires Derives(fits, raw, before, v, after) && q == |before| && e == q + Size(v)
    ensures q <= e <= |raw| && Reads(raw, q, v) && Accepts(fits, raw, q, v, e)
    ensures before == Slice(raw, 0, q) && after == Slice(raw, e, |raw|)
  {
    hide Derives, ParseValue, Admissible, SpaceEnd, Slice, Reads, Size, At, Spaces, JsonComplete.Follows;
    LaidOut(fits, raw, before, v, after, q, e);
    JsonComplete.ValueOpens(fits, raw, q, v, MAX_DEPTH);
    JsonComplete.SpaceComplete(raw, 0, before, q);
    JsonComplete.SpaceComplete(raw, e, after, |raw|);
    EndFollows(raw, e, after);
    JsonComplete.ValueComplete(fits, raw, q, v, 0);
  }

  lemma EndFollows(raw: bytes, e: nat, after: bytes)
    requires At(raw, e, after) && Spaces(after) && e + |after| == |raw|
    ensures JsonComplete.Follows(raw, e)
  {
    if after != [] {
      assert raw[e] == after[0];
    }
  }

  /** A text has at most one derivation. */
  lemma DerivationUnique(fits: FloatRange, raw: bytes, b1: bytes, v1: Value, a1: bytes, b2: bytes, v2: Value, a2: bytes)
    requires Derives(fits, raw, b1, v1, a1) && Derives(fits, raw, b2, v2, a2)
    ensures b1 == b2 && v1 == v2 && a1 == a2
  {
    hide ParseValue, Derives, SpaceEnd, Slice, Reads, Size;
    DerivedIsAccepted(fits, raw, b1, v1, a1, |b1|, |b1| + Size(v1));
    DerivedIsAccepted(fits, raw, b2, v2, a2, |b2|, |b2| + Size(v2));
  }

  /** Valid: true exactly for the admissible JSON texts. */
  method Valid(raw: bytes, fits: FloatRange, pooled: Slots) returns (ok: bool)
    requires ShortNumbersFit(fits)
    ensures ok <==> IsJson(fits, raw)
  {
    hide ParseValue, SpaceEnd, Derives, ShortNumbersFit, Size, Reads, Slice, Tight;
    var s := new JsonScanner.Scanner(raw, fits, false, false, pooled);
    s.Space();
    ghost var q := s.pos;
    ok := s.Value();
    if ok {
      ghost var r := ParseValue(fits, raw, q, 0);
      s.Space();
      ok := s.pos == |raw|;
      if ok {
        AcceptedDerives(fits, raw, q, r.tree, r.end);
      }
    }
    forall before, v, after | Derives(fits, raw, before, v, after)
      ensures ok
    {
      DerivedIsAccepted(fits, raw, before, v, after, |before|, |before| + Size(v));
    }
  }

  /** Fields: the members of the top-level object, or not ok. */
  method Fields(raw: bytes, fits: FloatRange, pooled: Slots) returns (fields: seq<Field>, ok: bool)
    requires ShortNumbersFit(fits)
    ensures ok ==> IsJson(fits, raw)
    ensures forall before, v, after :: Derives(fits, raw, before, v, after) ==>
      (ok <==> v.Object?) && (ok ==> fields == FieldsOf(v.members, |before| + 1))
  {
    hide ParseValue, SpaceEnd, Derives, ShortNumbersFit, FieldsOf, SpansOf, Size, Reads, Slice, Tight;
    fields, ok := [], false;
    var s := new JsonScanner.Scanner(raw, fits, true, false, pooled);
    s.Space();
    ghost var q := s.pos;
    if s.pos < |raw| && raw[s.pos] == LBRACE {
      ok := s.Value();
      if ok {
        ghost var r := ParseValue(fits, raw, q, 0);
        FirstByte(fits, raw, q);
        fields := s.top;
        s.Space();
        ok := s.pos == |raw|;
        if ok {
          AcceptedDerives(fits, raw, q, r.tree, r.end);
        }
      }
    }
    forall before, v, after | Derives(fits, raw, before, v, after)
      ensures (ok <==> v.Object?) && (ok ==> fields == FieldsOf(v.members, |before| + 1))
    {
      DerivedIsAccepted(fits, raw, before, v, after, |before|, |before| + Size(v));
      FirstByte(fits, raw, |before|);
    }
  }

  /** Elements: the elements of the top-level array, or not ok. */
  method Elements(raw: bytes, fits: FloatRange, pooled: Slots) returns (elements: seq<Span>, ok: bool)
    requires ShortNumbersFit(fits)
    ensures ok ==> IsJson(fits, raw)
    ensures forall before, v, after :: Derives(fits, raw, before, v, after) ==>
      (ok <==> v.Array?) && (ok ==> elements == SpansOf(v.items, |before| + 1))
  {
    hide ParseValue, SpaceEnd, Derives, ShortNumbersFit, FieldsOf, SpansOf, Size, Reads, Slice, Tight;
    elements, ok := [], false;
    var s := new JsonScanner.Scanner(raw, fits, false, true, pooled);
    s.Space();
    ghost var q := s.pos;
    if s.pos < |raw| && raw[s.pos] == LBRACKET {
      ok := s.Value();
      if ok {
        ghost var r := ParseValue(fits, raw, q, 0);
        FirstByte(fits, raw, q);
        elements := s.elements;
        s.Space();
        ok := s.pos == |raw|;
        if ok {
          AcceptedDerives(fits, raw, q, r.tree, r.end);
        }
      }
    }
    forall before, v, after | Derives(fits, raw, before, v, after)
      ensures (ok <==> v.Array?) && (ok ==> elements == SpansOf(v.items, |before| + 1))
    {
      DerivedIsAccepted(fits, raw, before, v, after, |before|, |before| + Size(v));
      FirstByte(fits, raw, |before|);
    }
  }

  lemma FirstByte(fits: FloatRange, s: bytes, p: nat)
    requires p < |s| && ParseValue(fits, s, p, 0).Good?
    ensures ParseValue(fits, s, p, 0).tree.Object? <==> s[p] == LBRACE
    ensures ParseValue(fits, s, p, 0).tree.Array? <==> s[p] == LBRACKET
  {
    hide ParseNumber, ParseArray, ParseObject, StringEnd;
  }

  /** Compact: an admissible text with no whitespace outside its strings. */
  method Compact(raw: bytes, fits: FloatRange, pooled: Slots) returns (ok: bool)
    requires ShortNumbersFit(fits)
    ensures ok <==> (IsJson(fits, raw) &&
      forall before, v, after :: Derives(fits, raw, before, v, after) ==> before == [] && Tight(v) && after == [])
  {
    hide ParseValue, SpaceEnd, Derives, ShortNumbersFit, Tight, Size, Reads, Slice;
    var s := new JsonScanner.Scanner(raw, fits, false, false, pooled);
    ok := s.Value();
    ghost var r := ParseValue(fits, raw, 0, 0);
    ok := ok && s.pos == |raw| && !s.spaced;
    if ok {
      TightWhole(fits, raw, r.tree);
    } else if IsJson(fits, raw) {
      var before, v, after :| Derives(fits, raw, before, v, after);
      if before == [] && after == [] {
        DerivedIsAccepted(fits, raw, before, v, after, |before|, |before| + Size(v));
      }
    }
  }

  lemma TightWhole(fits: FloatRange, raw: bytes, v: Value)
    requires ShortNumbersFit(fits) && ParseValue(fits, raw, 0, 0) == Good(v, |raw|)
    ensures Derives(fits, raw, [], v, [])
    ensures forall b, w, a :: Derives(fits, raw, b, w, a) ==> b == [] && w == v && a == []
  {
    hide ParseValue, Derives, ShortNumbersFit, Admissible, Reads, Print;
    JsonSound.ValueSound(fits, raw, 0, 0);
    JsonComplete.ValueOpens(fits, raw, 0, v, MAX_DEPTH);
    AcceptedDerives(fits, raw, 0, v, |raw|);
    assert Slice(raw, 0, 0) == [] && Slice(raw, |raw|, |raw|) == [];
    forall b, w, a | Derives(fits, raw, b, w, a) ensures b == [] && w == v && a == [] {
      DerivationUnique(fits, raw, [], v, [], b, w, a);
    }
  }

  // What Fields and Elements return

  function NthMember(m: Members, i: nat): Members {
    if m.NoMembers? || i == 0 then m else NthMember(m.rest, i - 1)
  }

  function CountMembers(m: Members): nat { if m.NoMembers? then 0 else 1 + CountMembers(m.rest) }

  function NthItem(items: Items, i: nat): Items {
    if items.NoItems? || i == 0 then items else NthItem(items.rest, i - 1)
  }

  function CountItems(items: Items): nat { if items.NoItems? then 0 else 1 + CountItems(items.rest) }

  /** More room admits no less. */
  lemma {:induction false} AdmissibleMore(fits: FloatRange, v: Value, room: int, more: int)
    requires Admissible(fits, v, room) && room <= more
    ensures Admissible(fits, v, more)
    decreases v
  {
    match v
    case Array(_, items) => ItemsOkMore(fits, items, room - 1, more - 1);
    case Object(_, members) => MembersOkMore(fits, members, room - 1, more - 1);
    case _ =>
  }

  lemma {:induction false} ItemsOkMore(fits: FloatRange, i: Items, room: int, more: int)
    requires ItemsOk(fits, i, room) && room <= more
    ensures ItemsOk(fits, i, more)
    decreases i
  {
    if i.Items? {
      AdmissibleMore(fits, i.value, room, more);
      ItemsOkMore(fits, i.rest, room, more);
    }
  }

  lemma {:induction false} MembersOkMore(fits: FloatRange, m: Members, room: int, more: int)
    requires MembersOk(fits, m, room) && room <= more
    ensures MembersOk(fits, m, more)
    decreases m
  {
    if m.Members? {
      AdmissibleMore(fits, m.value, room, more);
      MembersOkMore(fits, m.rest, room, more);
    }
  }

  /** A value read inside a text is a text of its own. */
  lemma ValueAlone(fits: FloatRange, s: bytes, p: nat, v: Value, room: int, e: nat)
    requires Admissible(fits, v, room) && room <= MAX_DEPTH && Reads(s, p, v) && e == p + Size(v)
    ensures p < e <= |s| && s[p..e] == Print(v) && IsJson(fits, s[p..e])
  {
    hide Admissible, Reads, Print, Size;
    JsonComplete.ValueOpens(fits, s, p, v, room);
    JsonComplete.PrintedAt(s, p, v, e);
    AdmissibleMore(fits, v, room, MAX_DEPTH);
    assert [] + Print(v) + [] == Print(v);
    assert Derives(fits, s[p..e], [], v, []);
  }

  /** The i-th field is the i-th member: its decoded key and exactly its value's
      bytes, ending before the next one starts. */
  lemma {:induction false} FieldIsMember(fits: FloatRange, s: bytes, p: nat, m: Members, room: int, i: nat)
    requires MembersOk(fits, m, room) && room <= MAX_DEPTH && ReadsMembers(s, p, m) && i < CountMembers(m)
    ensures |FieldsOf(m, p)| == CountMembers(m) && NthMember(m, i).Members?
    ensures var f, n := FieldsOf(m, p)[i], NthMember(m, i);
      && f.key == Decode(n.key) && p < f.start < f.end <= |s| && s[f.start..f.end] == Print(n.value)
      && IsJson(fits, s[f.start..f.end])
      && (i + 1 < |FieldsOf(m, p)| ==> f.end < FieldsOf(m, p)[i + 1].start)
    decreases m
  {
    hide IsJson, Print, Reads, Admissible, Decode, Size, ReadsKey;
    var l := p + Lead(m);
    var f := l + Size(m.value);
    var q := f + |m.after| + 1;
    ValueAlone(fits, s, l, m.value, room, f);
    if m.rest.Members? {
      FieldIsMember(fits, s, q, m.rest, room, if i > 0 then i - 1 else 0);
    }
    assert FieldsOf(m, p)[1..] == FieldsOf(m.rest, q);
  }

  lemma {:induction false} ElementIsItem(fits: FloatRange, s: bytes, p: nat, items: Items, room: int, i: nat)
    requires ItemsOk(fits, items, room) && room <= MAX_DEPTH && ReadsItems(s, p, items) && i < CountItems(items)
    ensures |SpansOf(items, p)| == CountItems(items) && NthItem(items, i).Items?
    ensures var e, n := SpansOf(items, p)[i], NthItem(items, i);
      && p <= e.start < e.end <= |s| && s[e.start..e.end] == Print(n.value) && IsJson(fits, s[e.start..e.end])
      && (i + 1 < |SpansOf(items, p)| ==> e.end < SpansOf(items, p)[i + 1].start)
    decreases items
  {
    hide IsJson, Print, Reads, Admissible, Size;
    var q := p + |items.before|;
    var e := q + Size(items.value);
    var r := e + |items.after| + 1;
    ValueAlone(fits, s, q, items.value, room, e);
    if items.rest.Items? {
      ElementIsItem(fits, s, r, items.rest, room, if i > 0 then i - 1 else 0);
    }
    assert SpansOf(items, p)[1..] == SpansOf(items.rest, r);
  }

  /** What Fields returns for an object text. */
  lemma FieldsMeaning(fits: FloatRange, raw: bytes, before: bytes, v: Value, after: bytes, i: nat)
    requires Derives(fits, raw, before, v, after) && v.Object? && i < CountMembers(v.members)
    ensures |FieldsOf(v.members, |before| + 1)| == CountMembers(v.members)
    ensures var fs := FieldsOf(v.members, |before| + 1);
      && NthMember(v.members, i).Members? && fs[i].key == Decode(NthMember(v.members, i).key)
      && fs[i].start < fs[i].end <= |raw| && raw[fs[i].start..fs[i].end] == Print(NthMember(v.members, i).value)
      && IsJson(fits, raw[fs[i].start..fs[i].end]) && (i + 1 < |fs| ==> fs[i].end < fs[i + 1].start)
  {
    hide Derives, IsJson, Print, Decode, Size, FieldsOf;
    LaidOut(fits, raw, before, v, after, |before|, |before| + Size(v));
    FieldIsMember(fits, raw, |before| + 1, v.members, MAX_DEPTH - 1, i);
  }

  /** What Elements returns for an array text. */
  lemma ElementsMeaning(fits: FloatRange, raw: bytes, before: bytes, v: Value, after: bytes, i: nat)
    requires Derives(fits, raw, before, v, after) && v.Array? && i < CountItems(v.items)
    ensures |SpansOf(v.items, |before| + 1)| == CountItems(v.items)
    ensures var es := SpansOf(v.items, |before| + 1);
      && NthItem(v.items, i).Items? && es[i].start < es[i].end <= |raw|
      && raw[es[i].start..es[i].end] == Print(NthItem(v.items, i).value)
      && IsJson(fits, raw[es[i].start..es[i].end]) && (i + 1 < |es| ==> es[i].end < es[i + 1].start)
  {
    hide Derives, IsJson, Print, Size, SpansOf;
    LaidOut(fits, raw, before, v, after, |before|, |before| + Size(v));
    ElementIsItem(fits, raw, |before| + 1, v.items, MAX_DEPTH - 1, i);
  }

  /** The decoder takes exactly the literals the scanner consumes whole. */
  lemma LiteralIsScanned(raw: bytes)
    requires |raw| >= 1 && raw[0] == QUOTE
    ensures Unquote.IsLiteral(raw) <==> StringEnd(raw, 1) == |raw| - 1
  {
    if Unquote.IsLiteral(raw) {
      JsonComplete.BodyComplete(raw, 1, raw[1..|raw| - 1]);
    }
    if StringEnd(raw, 1) == |raw| - 1 {
      JsonSound.BodySound(raw, 1);
    }
  }
}
