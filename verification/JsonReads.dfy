/** A derivation laid over a text at a position, piece by piece, which is the
    same as the text holding what the derivation prints. */
module JsonReads {
  import opened Bytes
  import opened JsonStrings
  import opened JsonGrammar

  /** s holds t at position p. */
  predicate At(s: bytes, p: nat, t: bytes) { p + |t| <= |s| && s[p..p + |t|] == t }

  predicate CharAt(s: bytes, p: nat, c: byte) { p < |s| && s[p] == c }

  /** How many bytes a derivation takes. */
  function Size(v: Value): nat {
    match v
    case Word(w) => |w|
    case Number(m, w, f, e) => |m| + |w| + |f| + |e|
    case Text(b) => |b| + 2
    case Array(inner, items) => |inner| + SizeItems(items) + 2
    case Object(inner, members) => |inner| + SizeMembers(members) + 2
  }

  function SizeItems(i: Items): nat {
    if i.NoItems? then 0
    else |i.before| + Size(i.value) + |i.after| + if i.rest.NoItems? then 0 else 1 + SizeItems(i.rest)
  }

  /** Where a member's value starts, from where the member starts. */
  function Lead(m: Members): nat
    requires m.Members?
  {
    |m.before| + 1 + |m.key| + 1 + |m.gap| + 1 + |m.lead|
  }

  function SizeMembers(m: Members): nat {
    if m.NoMembers? then 0
    else Lead(m) + Size(m.value) + |m.after| + if m.rest.NoMembers? then 0 else 1 + SizeMembers(m.rest)
  }

  predicate Reads(s: bytes, p: nat, v: Value)
    decreases v, 0
  {
    match v
    case Word(w) => At(s, p, w)
    case Number(m, w, f, e) =>
      At(s, p, m) && At(s, p + |m|, w) && At(s, p + |m| + |w|, f) && At(s, p + |m| + |w| + |f|, e)
    case Text(b) => CharAt(s, p, QUOTE) && At(s, p + 1, b) && CharAt(s, p + 1 + |b|, QUOTE)
    case Array(inner, items) =>
      && CharAt(s, p, LBRACKET) && At(s, p + 1, inner) && ReadsItems(s, p + 1 + |inner|, items)
      && CharAt(s, p + 1 + |inner| + SizeItems(items), RBRACKET)
    case Object(inner, members) =>
      && CharAt(s, p, LBRACE) && At(s, p + 1, inner) && ReadsMembers(s, p + 1 + |inner|, members)
      && CharAt(s, p + 1 + |inner| + SizeMembers(members), RBRACE)
  }

  predicate ReadsItems(s: bytes, p: nat, i: Items)
    decreases i, 0
  {
    i.Items? ==>
      && At(s, p, i.before) && Reads(s, p + |i.before|, i.value)
      && At(s, p + |i.before| + Size(i.value), i.after)
      && ReadsItemsTail(s, p + |i.before| + Size(i.value) + |i.after|, i.rest)
  }

  predicate ReadsItemsTail(s: bytes, p: nat, rest: Items)
    decreases rest, 1
  {
    p <= |s| && (rest.Items? ==> CharAt(s, p, COMMA) && ReadsItems(s, p + 1, rest))
  }

  predicate ReadsKey(s: bytes, p: nat, m: Members)
    requires m.Members?
  {
    var k := p + |m.before|;
    && At(s, p, m.before) && CharAt(s, k, QUOTE) && At(s, k + 1, m.key) && CharAt(s, k + 1 + |m.key|, QUOTE)
    && At(s, k + 2 + |m.key|, m.gap) && CharAt(s, k + 2 + |m.key| + |m.gap|, COLON)
  }

  predicate ReadsMembers(s: bytes, p: nat, m: Members)
    decreases m, 0
  {
    m.Members? ==>
      && ReadsKey(s, p, m) && At(s, p + Lead(m) - |m.lead|, m.lead) && Reads(s, p + Lead(m), m.value)
      && At(s, p + Lead(m) + Size(m.value), m.after)
      && ReadsMembersTail(s, p + Lead(m) + Size(m.value) + |m.after|, m.rest)
  }

  predicate ReadsMembersTail(s: bytes, p: nat, rest: Members)
    decreases rest, 1
  {
    p <= |s| && (rest.Members? ==> CharAt(s, p, COMMA) && ReadsMembers(s, p + 1, rest))
  }

  // Reads is At of Print

  lemma AtJoin(s: bytes, p: nat, a: bytes, b: bytes)
    ensures At(s, p, a + b) <==> At(s, p, a) && At(s, p + |a|, b)
  {
    if p + |a| + |b| <= |s| {
      var w := s[p..p + |a| + |b|];
      assert w[..|a|] == s[p..p + |a|] && w[|a|..] == s[p + |a|..p + |a| + |b|];
      if w == a + b {
        assert w[..|a|] == a && w[|a|..] == b;
      }
      if w[..|a|] == a && w[|a|..] == b {
        assert w == w[..|a|] + w[|a|..];
      }
    }
  }

  lemma AtChar(s: bytes, p: nat, c: byte)
    ensures At(s, p, [c]) <==> CharAt(s, p, c)
  {
  }

  lemma {:induction false} PrintSize(v: Value)
    ensures |Print(v)| == Size(v)
    decreases v
  {
    match v
    case Array(_, items) => PrintItemsSize(items);
    case Object(_, members) => PrintMembersSize(members);
    case _ =>
  }

  lemma {:induction false} PrintItemsSize(i: Items)
    ensures |PrintItems(i)| == SizeItems(i)
    decreases i
  {
    if i.Items? {
      PrintSize(i.value);
      PrintItemsSize(i.rest);
    }
  }

  lemma {:induction false} PrintMembersSize(m: Members)
    ensures |PrintMembers(m)| == SizeMembers(m)
    decreases m
  {
    if m.Members? {
      PrintSize(m.value);
      PrintMembersSize(m.rest);
    }
  }

  lemma {:induction false} ReadsIsAt(s: bytes, p: nat, v: Value)
    ensures Reads(s, p, v) <==> At(s, p, Print(v))
    decreases v, 0
  {
    hide At, CharAt;
    match v
    case Word(w) =>
    case Number(m, w, f, e) =>
      AtJoin(s, p, m, w);
      AtJoin(s, p, m + w, f);
      AtJoin(s, p, m + w + f, e);
    case Text(b) =>
      AtChar(s, p, QUOTE);
      AtChar(s, p + 1 + |b|, QUOTE);
      AtJoin(s, p, [QUOTE], b);
      AtJoin(s, p, [QUOTE] + b, [QUOTE]);
    case Array(inner, items) =>
      AtBound(s, p + 1, inner);
      ReadsItemsIsAt(s, p + 1 + |inner|, items);
      PrintItemsSize(items);
      AtBracketed(s, p, LBRACKET, inner, PrintItems(items), RBRACKET);
    case Object(inner, members) =>
      AtBound(s, p + 1, inner);
      ReadsMembersIsAt(s, p + 1 + |inner|, members);
      PrintMembersSize(members);
      AtBracketed(s, p, LBRACE, inner, PrintMembers(members), RBRACE);
  }

  lemma AtBracketed(s: bytes, p: nat, open: byte, inner: bytes, body: bytes, close: byte)
    ensures At(s, p, [open] + (inner + body + [close])) <==>
      && CharAt(s, p, open) && At(s, p + 1, inner) && At(s, p + 1 + |inner|, body)
      && CharAt(s, p + 1 + |inner| + |body|, close)
  {
    hide At, CharAt;
    AtChar(s, p, open);
    AtChar(s, p + 1 + |inner| + |body|, close);
    AtJoin(s, p + 1, inner, body);
    AtJoin(s, p + 1, inner + body, [close]);
    AtJoin(s, p, [open], inner + body + [close]);
  }

  lemma AtItem(s: bytes, p: nat, a: bytes, b: bytes, c: bytes, d: bytes)
    ensures At(s, p, ItemText(a, b, c, d)) <==>
      At(s, p, a) && At(s, p + |a|, b) && At(s, p + |a| + |b|, c) && At(s, p + |a| + |b| + |c|, d)
  {
    hide At;
    AtJoin(s, p + |a| + |b|, c, d);
    AtJoin(s, p + |a|, b, c + d);
    AtJoin(s, p, a, b + (c + d));
  }

  lemma AtBound(s: bytes, p: nat, t: bytes)
    ensures At(s, p, t) ==> p + |t| <= |s|
    ensures At(s, p, []) <==> p <= |s|
  {
  }

  lemma {:induction false} ReadsItemsIsAt(s: bytes, p: nat, i: Items)
    ensures p <= |s| ==> (ReadsItems(s, p, i) <==> At(s, p, PrintItems(i)))
    decreases i, 0
  {
    hide At, CharAt, Print, Reads, Size, ReadsItemsTail, PrintItemsTail, ItemText;
    AtBound(s, p, []);
    if i.Items? && p <= |s| {
      ReadsIsAt(s, p + |i.before|, i.value);
      PrintSize(i.value);
      AtItem(s, p, i.before, Print(i.value), i.after, PrintItemsTail(i.rest));
      ItemsTailIsAt(s, p + |i.before| + Size(i.value) + |i.after|, i.rest);
    }
  }

  lemma {:induction false} ItemsTailIsAt(s: bytes, p: nat, rest: Items)
    ensures ReadsItemsTail(s, p, rest) <==> At(s, p, PrintItemsTail(rest))
    decreases rest, 1
  {
    hide At, ReadsItems, PrintItems;
    AtBound(s, p, PrintItemsTail(rest));
    if rest.Items? {
      AtChar(s, p, COMMA);
      AtJoin(s, p, [COMMA], PrintItems(rest));
      ReadsItemsIsAt(s, p + 1, rest);
    }
  }

  lemma AtKey(s: bytes, p: nat, m: Members, tail: bytes)
    requires m.Members?
    ensures At(s, p, KeyText(m.before, m.key, m.gap, tail)) <==>
      ReadsKey(s, p, m) && At(s, p + Lead(m) - |m.lead|, tail)
  {
    hide At, CharAt;
    var k := p + |m.before|;
    AtChar(s, k, QUOTE);
    AtChar(s, k + 1 + |m.key|, QUOTE);
    AtJoin(s, k, [QUOTE], m.key);
    AtJoin(s, k, [QUOTE] + m.key, [QUOTE]);
    AtChar(s, k + 2 + |m.key| + |m.gap|, COLON);
    AtItem(s, k, [QUOTE] + m.key + [QUOTE], m.gap, [COLON], tail);
    AtJoin(s, p, m.before, ([QUOTE] + m.key + [QUOTE]) + (m.gap + ([COLON] + tail)));
  }

  lemma {:induction false} ReadsMembersIsAt(s: bytes, p: nat, m: Members)
    ensures p <= |s| ==> (ReadsMembers(s, p, m) <==> At(s, p, PrintMembers(m)))
    decreases m, 0
  {
    hide At, CharAt, Print, Reads, Size, ReadsKey, ReadsMembersTail, PrintMembersTail, ItemText, KeyText;
    AtBound(s, p, []);
    if m.Members? && p <= |s| {
      var l, tail := p + Lead(m), PrintMembersTail(m.rest);
      AtKey(s, p, m, ItemText(m.lead, Print(m.value), m.after, tail));
      ReadsIsAt(s, l, m.value);
      PrintSize(m.value);
      AtItem(s, l - |m.lead|, m.lead, Print(m.value), m.after, tail);
      MembersTailIsAt(s, l + Size(m.value) + |m.after|, m.rest);
    }
  }

  lemma {:induction false} MembersTailIsAt(s: bytes, p: nat, rest: Members)
    ensures ReadsMembersTail(s, p, rest) <==> At(s, p, PrintMembersTail(rest))
    decreases rest, 1
  {
    hide At, ReadsMembers, PrintMembers;
    AtBound(s, p, PrintMembersTail(rest));
    if rest.Members? {
      AtChar(s, p, COMMA);
      AtJoin(s, p, [COMMA], PrintMembers(rest));
      ReadsMembersIsAt(s, p + 1, rest);
    }
  }
}
