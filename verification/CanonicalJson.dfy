/** The raw values encoding/json writes back as they are: no white space
    outside strings and none of the characters it escapes, which can occur
    only inside strings. */
module CanonicalJson {
  import opened Bytes
  import opened JsonStrings
  import opened JsonGrammar
  import opened JsonReads
  import StrictJson

  // The characters encoding/json escapes

  /** The less-than, greater-than and ampersand signs. */
  predicate IsMark(c: byte) { c == 0x3C || c == 0x3E || c == 0x26 }

  /** U+2028 or U+2029 in UTF-8 at i. */
  predicate SeparatorAt(b: bytes, i: nat) {
    i + 2 < |b| && b[i] == 0xE2 && b[i + 1] == 0x80 && (b[i + 2] == 0xA8 || b[i + 2] == 0xA9)
  }

  predicate EscapedAt(b: bytes, i: nat) { i < |b| && (IsMark(b[i]) || SeparatorAt(b, i)) }

  /** b holds no character that is escaped. */
  predicate Clean(b: bytes) { forall i :: 0 <= i < |b| ==> !EscapedAt(b, i) }

  /** A byte that neither is escaped nor is part of a longer character. */
  predicate IsOuter(c: byte) { c < 0x80 && !IsMark(c) }

  predicate AllOuter(b: bytes) { forall i :: 0 <= i < |b| ==> IsOuter(b[i]) }

  /** A seam no escaped character can straddle. */
  predicate Seam(a: bytes, b: bytes) { a == [] || b == [] || a[|a| - 1] < 0x80 || b[0] < 0x80 }

  lemma CleanJoin(a: bytes, b: bytes)
    requires Seam(a, b)
    ensures Clean(a + b) <==> Clean(a) && Clean(b)
  {
    var c := a + b;
    if Clean(c) {
      forall i | 0 <= i < |a| ensures !EscapedAt(a, i) {
        assert !EscapedAt(c, i);
      }
      forall i | 0 <= i < |b| ensures !EscapedAt(b, i) {
        assert !EscapedAt(c, |a| + i);
      }
    }
    if Clean(a) && Clean(b) {
      forall i | 0 <= i < |c| ensures !EscapedAt(c, i) {
        CleanAcross(a, b, i);
      }
    }
  }

  lemma CleanAcross(a: bytes, b: bytes, i: nat)
    requires Seam(a, b) && Clean(a) && Clean(b) && i < |a + b|
    ensures !EscapedAt(a + b, i)
  {
    if i < |a| {
      assert !EscapedAt(a, i);
    } else {
      assert !EscapedAt(b, i - |a|);
    }
  }

  lemma OuterClean(b: bytes)
    requires AllOuter(b)
    ensures Clean(b)
  {
  }

  // Where they can stand in a text

  /** Every string of a derivation, keys included, is clean. */
  predicate StringsClean(v: Value)
    decreases v
  {
    match v
    case Text(b) => Clean(b)
    case Array(_, items) => ItemsClean(items)
    case Object(_, members) => MembersClean(members)
    case _ => true
  }

  predicate ItemsClean(i: Items)
    decreases i
  {
    i.Items? ==> StringsClean(i.value) && ItemsClean(i.rest)
  }

  predicate MembersClean(m: Members)
    decreases m
  {
    m.Members? ==> Clean(m.key) && StringsClean(m.value) && MembersClean(m.rest)
  }

  /** What stands outside the strings of a derivation is outer bytes. */
  predicate Outer(v: Value)
    decreases v
  {
    match v
    case Text(_) => true
    case Array(inner, items) => AllOuter(inner) && OuterItems(items)
    case Object(inner, members) => AllOuter(inner) && OuterMembers(members)
    case _ => AllOuter(Print(v)) && Print(v) != []
  }

  predicate OuterItems(i: Items)
    decreases i
  {
    i.Items? ==> AllOuter(i.before) && Outer(i.value) && AllOuter(i.after) && OuterItems(i.rest)
  }

  predicate OuterMembers(m: Members)
    decreases m
  {
    m.Members? ==>
      && AllOuter(m.before) && AllOuter(m.gap) && AllOuter(m.lead) && Outer(m.value) && AllOuter(m.after)
      && OuterMembers(m.rest)
  }

  lemma SpacesOuter(w: bytes)
    requires Spaces(w)
    ensures AllOuter(w)
  {
  }

  lemma NumberOuter(v: Value)
    requires v.Number? && NumberOk(v)
    ensures AllOuter(Print(v)) && Print(v) != []
  {
    NumberPart(v.frac, 1);
    NumberPart(v.exp, if v.exp != [] && |v.exp| > 1 && IsSign(v.exp[1]) then 2 else 1);
    assert AllOuter(v.minus) && AllOuter(v.whole) && |v.whole| > 0;
  }

  /** A mark or two, then digits. */
  lemma NumberPart(w: bytes, k: nat)
    requires w == [] || (k <= |w| && k <= 2 && Digits(w[k..]) && AllOuter(w[..k]))
    ensures AllOuter(w)
  {
    if w != [] {
      assert w == w[..k] + w[k..];
    }
  }

  /** Nothing outside the strings of an admissible text is escaped. */
  lemma {:induction false} AdmissibleOuter(fits: FloatRange, v: Value, room: int)
    requires Admissible(fits, v, room)
    ensures Outer(v)
    decreases v
  {
    match v
    case Number(_, _, _, _) => NumberOuter(v);
    case Array(inner, items) =>
      SpacesOuter(inner);
      ItemsOuter(fits, items, room - 1);
    case Object(inner, members) =>
      SpacesOuter(inner);
      MembersOuter(fits, members, room - 1);
    case _ =>
  }

  lemma {:induction false} ItemsOuter(fits: FloatRange, i: Items, room: int)
    requires ItemsOk(fits, i, room)
    ensures OuterItems(i)
    decreases i
  {
    if i.Items? {
      SpacesOuter(i.before);
      AdmissibleOuter(fits, i.value, room);
      SpacesOuter(i.after);
      ItemsOuter(fits, i.rest, room);
    }
  }

  lemma {:induction false} MembersOuter(fits: FloatRange, m: Members, room: int)
    requires MembersOk(fits, m, room)
    ensures OuterMembers(m)
    decreases m
  {
    if m.Members? {
      SpacesOuter(m.before);
      SpacesOuter(m.gap);
      SpacesOuter(m.lead);
      AdmissibleOuter(fits, m.value, room);
      SpacesOuter(m.after);
      MembersOuter(fits, m.rest, room);
    }
  }

  /** Both ends of a text are single-byte characters. */
  predicate Ends(b: bytes) { b != [] && b[0] < 0x80 && b[|b| - 1] < 0x80 }

  lemma PrintEnds(v: Value)
    requires Outer(v)
    ensures Ends(Print(v))
  {
  }

  lemma AllOuterJoins(a: bytes, b: bytes)
    requires AllOuter(a)
    ensures Clean(a + b) <==> Clean(b)
  {
    OuterClean(a);
    CleanJoin(a, b);
  }

  lemma Quoted(b: bytes)
    ensures Clean([QUOTE] + b + [QUOTE]) <==> Clean(b)
  {
    AllOuterJoins([QUOTE], b);
    OuterClean([QUOTE]);
    CleanJoin([QUOTE] + b, [QUOTE]);
  }

  lemma Boxed(open: byte, inner: bytes, body: bytes, close: byte)
    requires IsOuter(open) && IsOuter(close) && AllOuter(inner)
    ensures Clean([open] + (inner + body + [close])) <==> Clean(body)
  {
    AllOuterJoins([open], inner + body + [close]);
    AllOuterJoins(inner, body);
    OuterClean([close]);
    CleanJoin(inner + body, [close]);
  }

  lemma ItemTextClean(before: bytes, value: bytes, after: bytes, tail: bytes)
    requires AllOuter(before) && Ends(value) && AllOuter(after)
    ensures Clean(ItemText(before, value, after, tail)) <==> Clean(value) && Clean(tail)
  {
    AllOuterJoins(before, value + (after + tail));
    CleanJoin(value, after + tail);
    AllOuterJoins(after, tail);
  }

  lemma KeyTextClean(before: bytes, key: bytes, gap: bytes, tail: bytes)
    requires AllOuter(before) && AllOuter(gap)
    ensures Clean(KeyText(before, key, gap, tail)) <==> Clean(key) && Clean(tail)
  {
    var quoted, rest := [QUOTE] + key + [QUOTE], gap + ([COLON] + tail);
    AllOuterJoins(before, quoted + rest);
    CleanJoin(quoted, rest);
    Quoted(key);
    AllOuterJoins(gap, [COLON] + tail);
    AllOuterJoins([COLON], tail);
  }

  /** An escaped character occurs in a text exactly when it occurs in one of
      its strings. */
  lemma {:induction false} PrintClean(v: Value)
    requires Outer(v)
    ensures Clean(Print(v)) <==> StringsClean(v)
    decreases v
  {
    match v
    case Text(b) => Quoted(b);
    case Array(inner, items) =>
      Boxed(LBRACKET, inner, PrintItems(items), RBRACKET);
      PrintItemsClean(items);
    case Object(inner, members) =>
      Boxed(LBRACE, inner, PrintMembers(members), RBRACE);
      PrintMembersClean(members);
    case _ => OuterClean(Print(v));
  }

  lemma {:induction false} PrintItemsClean(i: Items)
    requires OuterItems(i)
    ensures Clean(PrintItems(i)) <==> ItemsClean(i)
    decreases i
  {
    hide Clean, AllOuter;
    if i.Items? {
      PrintEnds(i.value);
      PrintClean(i.value);
      ItemTextClean(i.before, Print(i.value), i.after, PrintItemsTail(i.rest));
      PrintItemsClean(i.rest);
      TailClean([COMMA], PrintItems(i.rest));
    }
    NothingClean();
  }

  lemma {:induction false} PrintMembersClean(m: Members)
    requires OuterMembers(m)
    ensures Clean(PrintMembers(m)) <==> MembersClean(m)
    decreases m
  {
    hide Clean, AllOuter;
    if m.Members? {
      var tail := PrintMembersTail(m.rest);
      PrintEnds(m.value);
      PrintClean(m.value);
      ItemTextClean(m.lead, Print(m.value), m.after, tail);
      KeyTextClean(m.before, m.key, m.gap, ItemText(m.lead, Print(m.value), m.after, tail));
      PrintMembersClean(m.rest);
      TailClean([COMMA], PrintMembers(m.rest));
    }
    NothingClean();
  }

  lemma TailClean(comma: bytes, rest: bytes)
    requires comma == [COMMA]
    ensures Clean(comma + rest) <==> Clean(rest)
  {
    AllOuterJoins(comma, rest);
  }

  lemma NothingClean()
    ensures Clean([])
  {
  }

  // What encoding/json writes

  const U00: bytes := [0x5C, 0x75, 0x30, 0x30]
  const U202: bytes := [0x5C, 0x75, 0x32, 0x30, 0x32]

  /** A string body with each escaped character written as a \u escape. */
  function Escape(b: bytes): bytes
    decreases |b|
  {
    if b == [] then []
    else if IsMark(b[0]) then
      U00 + [0x30 + b[0] / 16, if b[0] == 0x26 then 0x36 else b[0] - 0x3C + 0x63] + Escape(b[1..])
    else if SeparatorAt(b, 0) then U202 + [b[2] - 0xA8 + 0x38] + Escape(b[3..])
    else [b[0]] + Escape(b[1..])
  }

  /** A value without white space, its strings escaped. */
  function Rewrite(v: Value): Value
    decreases v
  {
    match v
    case Text(b) => Text(Escape(b))
    case Array(_, items) => Array([], RewriteItems(items))
    case Object(_, members) => Object([], RewriteMembers(members))
    case _ => v
  }

  function RewriteItems(i: Items): Items
    decreases i
  {
    if i.NoItems? then i else Items([], Rewrite(i.value), [], RewriteItems(i.rest))
  }

  function RewriteMembers(m: Members): Members
    decreases m
  {
    if m.NoMembers? then m else Members([], Escape(m.key), [], [], Rewrite(m.value), [], RewriteMembers(m.rest))
  }

  /** encoding/json writes out for a raw value. */
  ghost predicate Writes(fits: FloatRange, raw: bytes, out: bytes) {
    exists before, v, after :: Derives(fits, raw, before, v, after) && out == Print(Rewrite(v))
  }

  lemma {:induction false} EscapeClean(b: bytes)
    ensures Clean(Escape(b))
    decreases |b|
  {
    if b != [] {
      if IsMark(b[0]) {
        EscapeClean(b[1..]);
        AllOuterJoins(U00 + [0x30 + b[0] / 16, if b[0] == 0x26 then 0x36 else b[0] - 0x3C + 0x63], Escape(b[1..]));
      } else if SeparatorAt(b, 0) {
        EscapeClean(b[3..]);
        AllOuterJoins(U202 + [b[2] - 0xA8 + 0x38], Escape(b[3..]));
      } else {
        EscapeClean(b[1..]);
        EscapeHead(b);
      }
    }
  }

  /** The first two bytes after an unescaped one are its own or start an
      escape, so no separator is made. */
  lemma EscapeHead(b: bytes)
    requires b != [] && !EscapedAt(b, 0) && Clean(Escape(b[1..]))
    ensures Clean([b[0]] + Escape(b[1..]))
  {
    var rest := Escape(b[1..]);
    var all := [b[0]] + rest;
    assert forall i :: 1 <= i < |all| ==> (EscapedAt(all, i) <==> EscapedAt(rest, i - 1)) by {
      assert all[1..] == rest;
    }
    if b[0] == 0xE2 && |rest| >= 2 && rest[0] == 0x80 {
      assert b[1..][0] == 0x80;
      var tail := b[1..][1..];
      assert rest == [0x80 as byte] + Escape(tail);
      assert b[2..] == tail;
    }
  }

  lemma {:induction false} EscapeNothing(b: bytes)
    requires Clean(b)
    ensures Escape(b) == b
    decreases |b|
  {
    if b != [] {
      assert !EscapedAt(b, 0);
      assert Clean(b[1..]) by {
        assert forall i :: 0 <= i < |b[1..]| ==> (EscapedAt(b[1..], i) <==> EscapedAt(b, i + 1));
      }
      EscapeNothing(b[1..]);
    }
  }

  // Rewritten values

  /** What is written holds nothing that is escaped. */
  lemma {:induction false} RewriteIsClean(v: Value)
    requires Outer(v)
    ensures Outer(Rewrite(v)) && StringsClean(Rewrite(v))
    decreases v
  {
    hide Clean, Escape;
    match v
    case Text(b) => EscapeClean(b);
    case Array(_, items) => RewriteItemsClean(items);
    case Object(_, members) => RewriteMembersClean(members);
    case _ =>
  }

  lemma {:induction false} RewriteItemsClean(i: Items)
    requires OuterItems(i)
    ensures OuterItems(RewriteItems(i)) && ItemsClean(RewriteItems(i))
    decreases i
  {
    hide Clean, Escape;
    if i.Items? {
      RewriteIsClean(i.value);
      RewriteItemsClean(i.rest);
    }
  }

  lemma {:induction false} RewriteMembersClean(m: Members)
    requires OuterMembers(m)
    ensures OuterMembers(RewriteMembers(m)) && MembersClean(RewriteMembers(m))
    decreases m
  {
    hide Clean, Escape;
    if m.Members? {
      EscapeClean(m.key);
      RewriteIsClean(m.value);
      RewriteMembersClean(m.rest);
    }
  }

  /** With clean strings, rewriting only drops white space: it never makes a
      value longer, and keeps it whole exactly when there was none. */
  lemma {:induction false} RewriteShrinks(v: Value)
    requires StringsClean(v)
    ensures Size(Rewrite(v)) <= Size(v)
    ensures Size(Rewrite(v)) == Size(v) <==> Tight(v)
    ensures Tight(v) ==> Rewrite(v) == v
    decreases v
  {
    hide Clean, Escape;
    match v
    case Text(b) => EscapeNothing(b);
    case Array(_, items) => RewriteItemsShrinks(items);
    case Object(_, members) => RewriteMembersShrinks(members);
    case _ =>
  }

  lemma {:induction false} RewriteItemsShrinks(i: Items)
    requires ItemsClean(i)
    ensures SizeItems(RewriteItems(i)) <= SizeItems(i)
    ensures SizeItems(RewriteItems(i)) == SizeItems(i) <==> TightItems(i)
    ensures TightItems(i) ==> RewriteItems(i) == i
    decreases i
  {
    hide Clean, Escape;
    if i.Items? {
      RewriteShrinks(i.value);
      RewriteItemsShrinks(i.rest);
    }
  }

  lemma {:induction false} RewriteMembersShrinks(m: Members)
    requires MembersClean(m)
    ensures SizeMembers(RewriteMembers(m)) <= SizeMembers(m)
    ensures SizeMembers(RewriteMembers(m)) == SizeMembers(m) <==> TightMembers(m)
    ensures TightMembers(m) ==> RewriteMembers(m) == m
    decreases m
  {
    hide Clean, Escape;
    if m.Members? {
      EscapeNothing(m.key);
      RewriteShrinks(m.value);
      RewriteMembersShrinks(m.rest);
    }
  }

  // CanonicalRaw

  /** In a JSON text an escaped character can occur only inside a string. */
  lemma EscapedOnlyInStrings(fits: FloatRange, raw: bytes, before: bytes, v: Value, after: bytes)
    requires Derives(fits, raw, before, v, after)
    ensures Clean(raw) <==> StringsClean(v)
  {
    hide Clean, AllOuter, Admissible, Print, Outer;
    AdmissibleOuter(fits, v, MAX_DEPTH);
    PrintClean(v);
    SpacesOuter(before);
    SpacesOuter(after);
    assert raw == before + (Print(v) + after);
    AllOuterJoins(before, Print(v) + after);
    OuterEnds(Print(v), after);
  }

  lemma OuterEnds(b: bytes, after: bytes)
    requires AllOuter(after)
    ensures Clean(b + after) <==> Clean(b)
  {
    OuterClean(after);
    CleanJoin(b, after);
  }

  /** encoding/json writes a value back as it is exactly when it has no white
      space outside strings and nothing in them that is escaped. */
  lemma WrittenAsItIs(fits: FloatRange, raw: bytes, before: bytes, v: Value, after: bytes)
    requires Derives(fits, raw, before, v, after)
    ensures Print(Rewrite(v)) == raw <==> before == [] && Tight(v) && after == [] && Clean(raw)
  {
    hide Clean, Admissible, Print, Outer, Rewrite, StringsClean;
    EscapedOnlyInStrings(fits, raw, before, v, after);
    PrintSize(v);
    PrintSize(Rewrite(v));
    AdmissibleOuter(fits, v, MAX_DEPTH);
    RewriteIsClean(v);
    PrintClean(Rewrite(v));
    if Clean(raw) {
      RewriteShrinks(v);
    }
    assert |raw| == |before| + |Print(v)| + |after|;
    assert [] + Print(v) + [] == Print(v);
  }

  /** Whether raw is a JSON text encoding/json writes back as it is. */
  ghost predicate IsCanonical(fits: FloatRange, raw: bytes) { Writes(fits, raw, raw) }

  method CanonicalRaw(raw: bytes, fits: FloatRange, pooled: StrictJson.Slots) returns (ok: bool)
    requires ShortNumbersFit(fits)
    ensures ok <==> IsCanonical(fits, raw)
  {
    hide Derives, Clean, Tight, Print, Rewrite, ShortNumbersFit;
    ok := StrictJson.Compact(raw, fits, pooled);
    var clean := ContainsNone(raw);
    CanonicalIff(fits, raw, ok, clean);
    ok := ok && clean;
  }

  lemma CanonicalIff(fits: FloatRange, raw: bytes, compact: bool, clean: bool)
    requires ShortNumbersFit(fits) && (clean <==> Clean(raw))
    requires compact <==> (IsJson(fits, raw) &&
      forall before, v, after :: Derives(fits, raw, before, v, after) ==> before == [] && Tight(v) && after == [])
    ensures compact && clean <==> IsCanonical(fits, raw)
  {
    hide Derives, Clean, Tight, Print, Rewrite, ShortNumbersFit;
    if compact && clean {
      var before, v, after :| Derives(fits, raw, before, v, after);
      WrittenAsItIs(fits, raw, before, v, after);
    }
    if IsCanonical(fits, raw) {
      var b, w, a :| Derives(fits, raw, b, w, a) && raw == Print(Rewrite(w));
      WrittenAsItIs(fits, raw, b, w, a);
      forall before, v, after | Derives(fits, raw, before, v, after) ensures before == [] && Tight(v) && after == [] {
        StrictJson.DerivationUnique(fits, raw, b, w, a, before, v, after);
      }
    }
  }

  /** bytes.ContainsAny and bytes.Contains, for what is escaped. */
  method ContainsNone(raw: bytes) returns (clean: bool)
    ensures clean <==> Clean(raw)
  {
    for i := 0 to |raw|
      invariant forall j :: 0 <= j < i ==> !EscapedAt(raw, j)
    {
      if IsMark(raw[i]) || SeparatorAt(raw, i) {
        assert EscapedAt(raw, i);
        return false;
      }
    }
    clean := true;
  }

  /** What is written for a canonical value is the value. */
  lemma CanonicalWrites(fits: FloatRange, raw: bytes, out: bytes)
    requires ShortNumbersFit(fits) && IsCanonical(fits, raw) && Writes(fits, raw, out)
    ensures out == raw
  {
    hide Derives, Print, Rewrite, ShortNumbersFit;
    var b, w, a :| Derives(fits, raw, b, w, a) && raw == Print(Rewrite(w));
    var before, v, after :| Derives(fits, raw, before, v, after) && out == Print(Rewrite(v));
    StrictJson.DerivationUnique(fits, raw, b, w, a, before, v, after);
  }
}
