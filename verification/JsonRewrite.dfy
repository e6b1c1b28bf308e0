/** What encoding/json writes for a raw value means what the value meant. */
module JsonRewrite {
  import opened Bytes
  import opened JsonStrings
  import opened JsonGrammar
  import opened CanonicalJson
  import Unquote

  // Escaping, character by character

  lemma EscapeOne(b: bytes)
    requires b != [] && !EscapedAt(b, 0)
    ensures Escape(b) == [b[0]] + Escape(b[1..])
  {
  }

  lemma EscapedTail(b: bytes, i: nat)
    requires b != []
    ensures EscapedAt(b[1..], i) <==> EscapedAt(b, i + 1)
  {
  }

  lemma {:induction false} EscapePlain(b: bytes, k: nat)
    requires k <= |b| && forall i :: 0 <= i < k ==> !EscapedAt(b, i)
    ensures Escape(b) == b[..k] + Escape(b[k..])
    decreases k
  {
    hide Escape, EscapedAt;
    if k == 0 {
      assert b[0..] == b && b[..0] == [];
    } else {
      forall i | 0 <= i < k - 1 ensures !EscapedAt(b[1..], i) {
        EscapedTail(b, i);
      }
      EscapeOne(b);
      EscapePlain(b[1..], k - 1);
      assert b[1..][k - 1..] == b[k..];
      assert b[..k] == [b[0]] + b[1..][..k - 1];
    }
  }

  /** The continuation bytes b opens with, n at most. */
  function Conts(b: bytes, n: nat): bytes {
    if n == 0 || b == [] || !Continues(b[0]) then [] else [b[0]] + Conts(b[1..], n - 1)
  }

  lemma {:induction false} EscapeConts(b: bytes, n: nat)
    ensures Conts(Escape(b), n) == Conts(b, n)
  {
    if n > 0 && b != [] && Continues(b[0]) {
      EscapeConts(b[1..], n - 1);
      assert Escape(b)[1..] == Escape(b[1..]);
    }
  }

  /** A sequence is decided by its first byte and what continues it. */
  lemma SequenceByConts(x: byte, y: bytes, z: bytes)
    requires Conts(y, 3) == Conts(z, 3)
    ensures SequenceLen([x] + y) == SequenceLen([x] + z)
  {
    ContsBytes(y);
    ContsBytes(z);
    hide Conts;
  }

  lemma ContsBytes(y: bytes)
    ensures var c := Conts(y, 3);
      && |c| <= 3 && |c| <= |y| && (forall i :: 0 <= i < |c| ==> y[i] == c[i] && Continues(c[i]))
      && (|c| < 3 && |c| < |y| ==> !Continues(y[|c|]))
  {
    assert Conts(y, 3) == if y == [] || !Continues(y[0]) then [] else [y[0]] + Conts(y[1..], 2);
    if y != [] && Continues(y[0]) {
      var z := y[1..];
      assert Conts(z, 2) == if z == [] || !Continues(z[0]) then [] else [z[0]] + Conts(z[1..], 1);
      if z != [] && Continues(z[0]) {
        var w := z[1..];
        assert Conts(w, 1) == if w == [] || !Continues(w[0]) then [] else [w[0]] + Conts(w[1..], 0);
      }
    }
  }

  /** The same character, or a code point and its own escape. */
  predicate Alike(t: Token, u: Token) { t == u || (t.Point? && u == Unit(t.c) && !IsSurrogate(t.c)) }

  predicate AllAlike(ts: seq<Token>, us: seq<Token>) { |ts| == |us| && forall i :: 0 <= i < |ts| ==>
      Alike(ts[i], us[i]) }

  lemma {:induction false} AlikePoints(ts: seq<Token>, us: seq<Token>)
    requires AllAlike(ts, us)
    ensures Points(ts) == Points(us)
    decreases |ts|
  {
    if ts != [] {
      assert Alike(ts[0], us[0]);
      assert |ts| >= 2 ==> Alike(ts[1], us[1]);
      if Pairs(ts) {
        AlikePoints(ts[2..], us[2..]);
      } else {
        AlikePoints(ts[1..], us[1..]);
      }
    }
  }

  /** One character of a body and what it is escaped to. */
  ghost predicate CharacterKept(b: bytes) {
    var e := Escape(b);
    && b != [] && e != [] && Alike(FirstToken(b).0, FirstToken(e).0)
    && e[FirstToken(e).1..] == Escape(b[FirstToken(b).1..])
  }

  lemma ShortKept(b: bytes)
    requires StartsShort(b)
    ensures CharacterKept(b)
  {
    assert !EscapedAt(b, 0) && !EscapedAt(b, 1);
    EscapePlain(b, 2);
    var rest := Escape(b[2..]);
    assert (b[..2] + rest)[2..] == rest;
    hide Escape;
  }

  lemma UnitKept(b: bytes)
    requires StartsUnit(b)
    ensures CharacterKept(b)
  {
    forall i | 0 <= i < 6 ensures !EscapedAt(b, i) {
    }
    EscapePlain(b, 6);
    var rest := Escape(b[6..]);
    var e := b[..6] + rest;
    assert e[6..] == rest && UnitValue(e) == UnitValue(b);
    hide Escape, UnitValue;
  }

  lemma MarkKept(b: bytes)
    requires b != [] && IsMark(b[0])
    ensures CharacterKept(b)
  {
    var e := Escape(b);
    assert StartsUnit(e) && UnitValue(e) == b[0];
    assert e[6..] == Escape(b[1..]);
    assert FirstToken(b) == (Point(b[0]), 1);
  }

  lemma SeparatorKept(b: bytes)
    requires SeparatorAt(b, 0)
    ensures CharacterKept(b)
  {
    var e := Escape(b);
    var c: int := if b[2] == 0xA8 then 0x2028 else 0x2029;
    assert StartsUnit(e) && UnitValue(e) == c;
    assert e[6..] == Escape(b[3..]);
    assert SequenceLen(b) == 3 && SequencePoint(b) == c;
  }

  lemma PlainKept(b: bytes)
    requires b != [] && !EscapedAt(b, 0) && b[0] != BACKSLASH
    ensures CharacterKept(b)
  {
    var k := FirstToken(b).1;
    EscapeConts(b[1..], 3);
    assert Escape(b) == [b[0]] + Escape(b[1..]);
    assert b == [b[0]] + b[1..];
    SequenceByConts(b[0], Escape(b[1..]), b[1..]);
    SequencePlain(b, k);
    EscapePlain(b, k);
    var e, rest := Escape(b), Escape(b[k..]);
    assert e == b[..k] + rest && e[k..] == rest;
    assert forall i :: 0 <= i < k ==> e[i] == b[i];
    hide Escape, Conts;
    SamePoint(b, e);
  }

  lemma SamePoint(b: bytes, e: bytes)
    requires SequenceLen(b) == SequenceLen(e) && forall i :: 0 <= i < SequenceLen(b) ==> e[i] == b[i]
    ensures SequenceLen(b) > 0 ==> SequencePoint(e) == SequencePoint(b)
  {
  }

  /** Inside a character nothing is escaped but the character itself. */
  lemma SequencePlain(b: bytes, k: nat)
    requires b != [] && !EscapedAt(b, 0) && b[0] != BACKSLASH && k == FirstToken(b).1
    ensures k == (if SequenceLen(b) > 0 then SequenceLen(b) else 1) && forall i :: 0 <= i < k ==> !EscapedAt(b, i)
  {
  }

  lemma BodyKept(b: bytes)
    requires IsBody(b) && b != []
    ensures CharacterKept(b)
  {
    hide CharacterKept;
    if StartsShort(b) {
      ShortKept(b);
    } else if StartsUnit(b) {
      UnitKept(b);
    } else if IsMark(b[0]) {
      MarkKept(b);
    } else if SeparatorAt(b, 0) {
      SeparatorKept(b);
    } else {
      PlainKept(b);
    }
  }

  /** What is left after a body's first character is a body. */
  lemma BodyRest(b: bytes)
    requires IsBody(b) && b != []
    ensures IsBody(b[FirstToken(b).1..])
  {
    if !StartsShort(b) && !StartsUnit(b) && b[0] >= 0x80 && SequenceLen(b) > 0 {
      Unquote.MultibyteBody(b);
    }
  }

  lemma {:induction false} EscapeTokens(b: bytes)
    requires IsBody(b)
    ensures AllAlike(Tokens(b), Tokens(Escape(b)))
    decreases |b|
  {
    hide IsBody, Escape, FirstToken, Alike;
    if b == [] {
      EscapeNone();
    } else {
      BodyKept(b);
      BodyRest(b);
      EscapeTokens(b[FirstToken(b).1..]);
    }
  }

  lemma EscapeNone()
    ensures Escape([]) == []
  {
  }

  /** An escaped string decodes to what it did. */
  lemma EscapeDecodes(b: bytes)
    requires IsBody(b)
    ensures Decode(Escape(b)) == Decode(b)
  {
    hide Escape, Tokens, Points;
    EscapeTokens(b);
    AlikePoints(Tokens(b), Tokens(Escape(b)));
    TokensAreOk(b);
    PointsAreScalar(Tokens(b));
    TokensAreOk(Escape(b));
    PointsAreScalar(Tokens(Escape(b)));
  }

  /** An escaped string is a string. */
  lemma {:induction false} EscapeBody(b: bytes)
    requires IsBody(b)
    ensures IsBody(Escape(b))
    decreases |b|
  {
    if b == [] {
      EscapeNone();
    } else if StartsShort(b) {
      assert !EscapedAt(b, 0) && !EscapedAt(b, 1);
      EscapePlain(b, 2);
      EscapeBody(b[2..]);
      Reopened(b, 2);
    } else if StartsUnit(b) {
      forall i | 0 <= i < 6 ensures !EscapedAt(b, i) {
      }
      EscapePlain(b, 6);
      EscapeBody(b[6..]);
      Reopened(b, 6);
    } else {
      EscapeOther(b);
    }
  }

  lemma Reopened(b: bytes, k: nat)
    requires (k == 2 && StartsShort(b)) || (k == 6 && StartsUnit(b))
    requires Escape(b) == b[..k] + Escape(b[k..]) && IsBody(Escape(b[k..]))
    ensures IsBody(Escape(b))
  {
    var e := Escape(b);
    assert e[k..] == Escape(b[k..]);
    hide Escape;
  }

  lemma {:induction false} EscapeOther(b: bytes)
    requires b != [] && IsBody(b) && IsUnescaped(b[0])
    ensures IsBody(Escape(b))
    decreases |b|, 0
  {
    var e := Escape(b);
    if IsMark(b[0]) {
      EscapeBody(b[1..]);
      assert StartsUnit(e) && e[6..] == Escape(b[1..]);
    } else if SeparatorAt(b, 0) {
      assert IsBody(b[1..]) && IsUnescaped(b[1..][0]) && IsBody(b[1..][1..]);
      assert b[1..][1..] == b[2..] && IsUnescaped(b[2]) && IsBody(b[2..][1..]) && b[2..][1..] == b[3..];
      EscapeBody(b[3..]);
      assert StartsUnit(e) && e[6..] == Escape(b[3..]);
    } else {
      EscapeBody(b[1..]);
      assert e == [b[0]] + Escape(b[1..]) && e[1..] == Escape(b[1..]);
    }
  }

  // Values

  /** A JSON value without its spelling: decoded strings, members in order,
      numbers and words as written. */
  datatype Meaning =
    | Literal(text: bytes)
    | String(decoded: bytes)
    | List(items: seq<Meaning>)
    | Struct(members: seq<Member>)

  datatype Member = Member(key: bytes, value: Meaning)

  function MeaningOf(v: Value): Meaning
    decreases v
  {
    match v
    case Text(b) => String(Decode(b))
    case Array(_, items) => List(ItemsMeaning(items))
    case Object(_, members) => Struct(MembersMeaning(members))
    case _ => Literal(Print(v))
  }

  function ItemsMeaning(i: Items): seq<Meaning>
    decreases i
  {
    if i.NoItems? then [] else [MeaningOf(i.value)] + ItemsMeaning(i.rest)
  }

  function MembersMeaning(m: Members): seq<Member>
    decreases m
  {
    if m.NoMembers? then [] else [Member(Decode(m.key), MeaningOf(m.value))] + MembersMeaning(m.rest)
  }

  lemma NothingSpaces()
    ensures Spaces([])
  {
  }

  lemma {:induction false} RewriteKeeps(fits: FloatRange, v: Value, room: int)
    requires Admissible(fits, v, room)
    ensures Admissible(fits, Rewrite(v), room) && MeaningOf(Rewrite(v)) == MeaningOf(v)
    decreases v
  {
    hide Decode, Escape, IsBody, NumberOk, Print, Spaces;
    NothingSpaces();
    match v
    case Text(b) =>
      EscapeBody(b);
      EscapeDecodes(b);
    case Array(_, items) => RewriteItemsKeeps(fits, items, room - 1);
    case Object(_, members) => RewriteMembersKeeps(fits, members, room - 1);
    case _ =>
  }

  lemma {:induction false} RewriteItemsKeeps(fits: FloatRange, i: Items, room: int)
    requires ItemsOk(fits, i, room)
    ensures ItemsOk(fits, RewriteItems(i), room) && ItemsMeaning(RewriteItems(i)) == ItemsMeaning(i)
    ensures RewriteItems(i).Items? <==> i.Items?
    decreases i
  {
    hide Decode, Escape, IsBody, Spaces;
    NothingSpaces();
    if i.Items? {
      RewriteKeeps(fits, i.value, room);
      RewriteItemsKeeps(fits, i.rest, room);
    }
  }

  lemma {:induction false} RewriteMembersKeeps(fits: FloatRange, m: Members, room: int)
    requires MembersOk(fits, m, room)
    ensures MembersOk(fits, RewriteMembers(m), room) && MembersMeaning(RewriteMembers(m)) == MembersMeaning(m)
    ensures KeySet(RewriteMembers(m)) == KeySet(m) && (KeysDiffer(RewriteMembers(m)) <==> KeysDiffer(m))
    ensures RewriteMembers(m).Members? <==> m.Members?
    decreases m
  {
    hide Decode, Escape, IsBody, Spaces;
    NothingSpaces();
    if m.Members? {
      EscapeBody(m.key);
      EscapeDecodes(m.key);
      RewriteKeeps(fits, m.value, room);
      RewriteMembersKeeps(fits, m.rest, room);
    }
  }

  /** What encoding/json writes for a JSON text is a JSON text of the same
      meaning, and is itself written as it is. */
  lemma WrittenMeansTheSame(fits: FloatRange, raw: bytes, before: bytes, v: Value, after: bytes)
    requires Derives(fits, raw, before, v, after)
    ensures Derives(fits, Print(Rewrite(v)), [], Rewrite(v), [])
    ensures MeaningOf(Rewrite(v)) == MeaningOf(v)
    ensures IsCanonical(fits, Print(Rewrite(v)))
  {
    hide Decode, Escape, Admissible, Print, Rewrite, Clean, Outer;
    NothingSpaces();
    RewriteKeeps(fits, v, MAX_DEPTH);
    var w := Rewrite(v);
    assert [] + Print(w) + [] == Print(w);
    AdmissibleOuter(fits, v, MAX_DEPTH);
    RewriteIsClean(v);
    RewriteIsTight(v);
    EscapedOnlyInStrings(fits, Print(w), [], w, []);
    WrittenAsItIs(fits, Print(w), [], w, []);
  }

  lemma {:induction false} RewriteIsTight(v: Value)
    ensures Tight(Rewrite(v))
    decreases v
  {
    hide Escape;
    match v
    case Array(_, items) => RewriteItemsTight(items);
    case Object(_, members) => RewriteMembersTight(members);
    case _ =>
  }

  lemma {:induction false} RewriteItemsTight(i: Items)
    ensures TightItems(RewriteItems(i))
    decreases i
  {
    if i.Items? {
      RewriteIsTight(i.value);
      RewriteItemsTight(i.rest);
    }
  }

  lemma {:induction false} RewriteMembersTight(m: Members)
    ensures TightMembers(RewriteMembers(m))
    decreases m
  {
    hide Escape;
    if m.Members? {
      RewriteIsTight(m.value);
      RewriteMembersTight(m.rest);
    }
  }
}
