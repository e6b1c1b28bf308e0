/** The scanner's recursive descent as a function from a position to a
    derivation and its end, proved to accept exactly the grammar. */
module JsonParse {
  import opened Bytes
  import opened JsonStrings
  import opened JsonGrammar

  datatype Parsed<T> = Bad | Good(tree: T, end: nat)

  /** The bytes from p up to e. */
  function Slice(s: bytes, p: nat, e: nat): (r: bytes)
    requires p <= e <= |s|
    ensures |r| == e - p
  {
    s[p..e]
  }

  // Terminals

  function SpaceEnd(s: bytes, p: nat): (e: nat)
    requires p <= |s|
    ensures p <= e <= |s| && Spaces(Slice(s, p, e))
    ensures e < |s| ==> !IsSpace(s[e])
    decreases |s| - p
  {
    if p < |s| && IsSpace(s[p]) then
      assert forall e: nat :: p + 1 <= e <= |s| ==> Slice(s, p, e) == [s[p]] + Slice(s, p + 1, e);
      SpaceEnd(s, p + 1)
    else p
  }

  function DigitsEnd(s: bytes, p: nat): (e: nat)
    requires p <= |s|
    ensures p <= e <= |s|
    ensures forall i :: p <= i < e ==> IsDigit(s[i])
    ensures e < |s| ==> !IsDigit(s[e])
    decreases |s| - p
  {
    if p < |s| && IsDigit(s[p]) then DigitsEnd(s, p + 1) else p
  }

  /** The closing quote of the string whose contents start at p, -1 when they
      are not a body. */
  function StringEnd(s: bytes, p: nat): (e: int)
    requires p <= |s|
    ensures e >= 0 ==> p <= e < |s| && s[e] == QUOTE
    decreases |s| - p
  {
    if p == |s| then -1
    else if s[p] == QUOTE then p
    else if s[p] == BACKSLASH then
      if p + 1 < |s| && IsShort(s[p + 1]) then StringEnd(s, p + 2)
      else if |s| - p >= 6 && s[p + 1] == LOWER_U
        && IsHex(s[p + 2]) && IsHex(s[p + 3]) && IsHex(s[p + 4]) && IsHex(s[p + 5])
      then StringEnd(s, p + 6)
      else -1
    else if s[p] < 0x20 then -1
    else StringEnd(s, p + 1)
  }

  function WholeEnd(s: bytes, p: nat): (e: int)
    requires p <= |s|
    ensures e >= 0 ==> p < e <= |s|
  {
    if p < |s| && s[p] == ZERO then p + 1
    else if p < |s| && IsDigit(s[p]) then DigitsEnd(s, p)
    else -1
  }

  function FracEnd(s: bytes, p: nat): (e: int)
    requires p <= |s|
    ensures e >= 0 ==> p <= e <= |s|
  {
    if p < |s| && s[p] == DOT then
      var e := DigitsEnd(s, p + 1);
      if e == p + 1 then -1 else e
    else p
  }

  function ExpEnd(s: bytes, p: nat): (e: int)
    requires p <= |s|
    ensures e >= 0 ==> p <= e <= |s|
  {
    if p < |s| && IsE(s[p]) then
      var q := if p + 1 < |s| && IsSign(s[p + 1]) then p + 2 else p + 1;
      var e := DigitsEnd(s, q);
      if e == q then -1 else e
    else p
  }

  function ParseNumber(fits: FloatRange, s: bytes, p: nat): (r: Parsed<Value>)
    requires p < |s|
    ensures r.Good? ==> p < r.end <= |s| && r.tree.Number?
  {
    var a := if s[p] == MINUS then p + 1 else p;
    var b := WholeEnd(s, a);
    if b < 0 then Bad else
    var c := FracEnd(s, b);
    if c < 0 then Bad else
    var e := ExpEnd(s, c);
    if e < 0 then Bad
    else if (e > c || e - p > 15) && !fits(Slice(s, p, e)) then Bad
    else Good(Number(Slice(s, p, a), Slice(s, a, b), Slice(s, b, c), Slice(s, c, e)), e)
  }

  function ParseWord(s: bytes, p: nat, word: bytes): (r: Parsed<Value>)
    requires p <= |s| && |word| > 0
    ensures r.Good? ==> p < r.end <= |s|
  {
    if |s| - p < |word| || Slice(s, p, p + |word|) != word then Bad else Good(Word(word), p + |word|)
  }

  // Values

  function ParseValue(fits: FloatRange, s: bytes, p: nat, depth: nat): (r: Parsed<Value>)
    requires p <= |s|
    ensures r.Good? ==> p < r.end <= |s|
    decreases |s| - p, 1
  {
    if p == |s| then Bad
    else if s[p] == LBRACE then ParseObject(fits, s, p, depth)
    else if s[p] == LBRACKET then ParseArray(fits, s, p, depth)
    else if s[p] == QUOTE then
      var e := StringEnd(s, p + 1);
      if e < 0 then Bad else Good(Text(Slice(s, p + 1, e)), e + 1)
    else if s[p] == TRUE[0] then ParseWord(s, p, TRUE)
    else if s[p] == FALSE[0] then ParseWord(s, p, FALSE)
    else if s[p] == NULL[0] then ParseWord(s, p, NULL)
    else if s[p] == MINUS || IsDigit(s[p]) then ParseNumber(fits, s, p)
    else Bad
  }

  function ParseArray(fits: FloatRange, s: bytes, p: nat, depth: nat): (r: Parsed<Value>)
    requires p < |s|
    ensures r.Good? ==> p < r.end <= |s| && r.tree.Array?
    decreases |s| - p, 0
  {
    if depth + 1 > MAX_DEPTH then Bad else
    var q := SpaceEnd(s, p + 1);
    if q < |s| && s[q] == RBRACKET then Good(Array(Slice(s, p + 1, q), NoItems), q + 1)
    else match ParseItems(fits, s, p + 1, depth + 1)
      case Bad => Bad
      case Good(items, e) => Good(Array([], items), e)
  }

  /** The elements from p, which is just after "[" or ",", up to and past "]". */
  function ParseItems(fits: FloatRange, s: bytes, p: nat, depth: nat): (r: Parsed<Items>)
    requires p <= |s|
    ensures r.Good? ==> p < r.end <= |s| && r.tree.Items?
    decreases |s| - p, 2
  {
    var q := SpaceEnd(s, p);
    match ParseValue(fits, s, q, depth)
    case Bad => Bad
    case Good(v, e) =>
      var r := SpaceEnd(s, e);
      if r == |s| then Bad
      else if s[r] == COMMA then
        match ParseItems(fits, s, r + 1, depth)
        case Bad => Bad
        case Good(rest, f) => Good(Items(Slice(s, p, q), v, Slice(s, e, r), rest), f)
      else if s[r] == RBRACKET then Good(Items(Slice(s, p, q), v, Slice(s, e, r), NoItems), r + 1)
      else Bad
  }

  function ParseObject(fits: FloatRange, s: bytes, p: nat, depth: nat): (r: Parsed<Value>)
    requires p < |s|
    ensures r.Good? ==> p < r.end <= |s| && r.tree.Object?
    decreases |s| - p, 0
  {
    if depth + 1 > MAX_DEPTH then Bad else
    var q := SpaceEnd(s, p + 1);
    if q < |s| && s[q] == RBRACE then Good(Object(Slice(s, p + 1, q), NoMembers), q + 1)
    else match ParseMembers(fits, s, p + 1, depth + 1, {})
      case Bad => Bad
      case Good(members, e) => Good(Object([], members), e)
  }

  /** A key and its colon from p, just after "{" or ",": where the key's
      contents start and end and where the value's whitespace starts. */
  datatype KeyAt = NoKey | KeyAt(start: nat, end: nat, colon: nat)

  function ParseKey(s: bytes, p: nat): (k: KeyAt)
    requires p <= |s|
    ensures k.KeyAt? ==>
      p < k.start <= k.end < k.colon < |s| && s[k.start - 1] == QUOTE && s[k.end] == QUOTE && s[k.colon] == COLON
    ensures k.KeyAt? ==> Spaces(Slice(s, p, k.start - 1)) && Spaces(Slice(s, k.end + 1, k.colon))
    ensures k.KeyAt? ==>
      k.start == SpaceEnd(s, p) + 1 && k.end == StringEnd(s, k.start) && k.colon == SpaceEnd(s, k.end + 1)
  {
    var q := SpaceEnd(s, p);
    if q == |s| || s[q] != QUOTE then NoKey else
    var e := StringEnd(s, q + 1);
    if e < 0 then NoKey else
    var c := SpaceEnd(s, e + 1);
    if c == |s| || s[c] != COLON then NoKey else KeyAt(q + 1, e, c)
  }

  function ParseMembers(fits: FloatRange, s: bytes, p: nat, depth: nat, seen: set<bytes>): (r: Parsed<Members>)
    requires p <= |s|
    ensures r.Good? ==> p < r.end <= |s| && r.tree.Members?
    decreases |s| - p, 2
  {
    var k := ParseKey(s, p);
    if k.NoKey? || Decode(Slice(s, k.start, k.end)) in seen then Bad else
    var name := Decode(Slice(s, k.start, k.end));
    var l := SpaceEnd(s, k.colon + 1);
    match ParseValue(fits, s, l, depth)
    case Bad => Bad
    case Good(v, f) =>
      var a := SpaceEnd(s, f);
      if a == |s| then Bad
      else if s[a] == COMMA then
        match ParseMembers(fits, s, a + 1, depth, seen + {name})
        case Bad => Bad
        case Good(rest, g) => Good(MemberAt(s, p, k, l, v, f, a, rest), g)
      else if s[a] == RBRACE then Good(MemberAt(s, p, k, l, v, f, a, NoMembers), a + 1)
      else Bad
  }

  function MemberAt(s: bytes, p: nat, k: KeyAt, l: nat, v: Value, f: nat, a: nat, rest: Members): Members
    requires k.KeyAt? && p < k.start <= k.end < k.colon < l <= |s| && f <= a <= |s|
  {
    Members(Slice(s, p, k.start - 1), Slice(s, k.start, k.end), Slice(s, k.end + 1, k.colon),
      Slice(s, k.colon + 1, l), v, Slice(s, f, a), rest)
  }

  /** What parsing members comes to once the first value is read. */
  lemma MembersUnfold(fits: FloatRange, s: bytes, p: nat, depth: nat, seen: set<bytes>, k: KeyAt, l: nat, v: Value,
      f: nat, a: nat)
    requires p <= |s| && k == ParseKey(s, p) && k.KeyAt? && Decode(Slice(s, k.start, k.end)) !in seen
    requires l == SpaceEnd(s, k.colon + 1) && ParseValue(fits, s, l, depth) == Good(v, f) && a == SpaceEnd(s, f)
    ensures var r := ParseMembers(fits, s, p, depth, seen);
      if a < |s| && s[a] == RBRACE then r == Good(MemberAt(s, p, k, l, v, f, a, NoMembers), a + 1)
      else if a < |s| && s[a] == COMMA then
        var tail := ParseMembers(fits, s, a + 1, depth, seen + {Decode(Slice(s, k.start, k.end))});
        r == if tail.Good? then Good(MemberAt(s, p, k, l, v, f, a, tail.tree), tail.end) else Bad
      else r == Bad
  {
    hide Slice, SpaceEnd, ParseValue, ParseKey, Decode, MemberAt, Spaces;
  }

  lemma MembersBad(fits: FloatRange, s: bytes, p: nat, depth: nat, seen: set<bytes>)
    requires p <= |s|
    requires var k := ParseKey(s, p);
      k.NoKey? || Decode(Slice(s, k.start, k.end)) in seen || ParseValue(fits, s, SpaceEnd(s, k.colon + 1), depth).Bad?
    ensures ParseMembers(fits, s, p, depth, seen).Bad?
  {
    hide Slice, SpaceEnd, ParseValue, ParseKey, Decode, MemberAt, Spaces;
  }
}
