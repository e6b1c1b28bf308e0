/** JSON texts (sections 2 to 7 of RFC 8259) as derivation trees, and which of
    them the strict scanner is meant to admit. */
module JsonGrammar {
  import opened Bytes
  import opened JsonStrings

  const MAX_DEPTH := 512

  const LBRACE: byte := 0x7B
  const RBRACE: byte := 0x7D
  const LBRACKET: byte := 0x5B
  const RBRACKET: byte := 0x5D
  const COMMA: byte := 0x2C
  const COLON: byte := 0x3A
  const MINUS: byte := 0x2D
  const PLUS: byte := 0x2B
  const DOT: byte := 0x2E
  const ZERO: byte := 0x30
  const TRUE: bytes := [0x74, 0x72, 0x75, 0x65]
  const FALSE: bytes := [0x66, 0x61, 0x6C, 0x73, 0x65]
  const NULL: bytes := [0x6E, 0x75, 0x6C, 0x6C]

  predicate IsSpace(c: byte) { c == 0x20 || c == 0x09 || c == 0x0A || c == 0x0D }
  predicate Spaces(w: bytes) { forall i :: 0 <= i < |w| ==> IsSpace(w[i]) }
  predicate IsDigit(c: byte) { 0x30 <= c <= 0x39 }
  predicate Digits(w: bytes) { |w| > 0 && forall i :: 0 <= i < |w| ==> IsDigit(w[i]) }
  predicate IsE(c: byte) { c == 0x65 || c == 0x45 }
  predicate IsSign(c: byte) { c == PLUS || c == MINUS }

  /** A derivation of one value, whitespace included. Text holds the bytes
      between the quotes; inner is the whitespace of an empty container. */
  datatype Value =
    | Word(word: bytes)
    | Number(minus: bytes, whole: bytes, frac: bytes, exp: bytes)
    | Text(body: bytes)
    | Array(inner: bytes, items: Items)
    | Object(inner: bytes, members: Members)

  datatype Items = NoItems | Items(before: bytes, value: Value, after: bytes, rest: Items)

  datatype Members = NoMembers
    | Members(before: bytes, key: bytes, gap: bytes, lead: bytes, value: Value, after: bytes, rest: Members)

  /** The text a derivation derives. */
  function Print(v: Value): bytes
    decreases v, 0
  {
    match v
    case Word(w) => w
    case Number(m, w, f, e) => m + w + f + e
    case Text(b) => [QUOTE] + b + [QUOTE]
    case Array(inner, items) => [LBRACKET] + (inner + PrintItems(items) + [RBRACKET])
    case Object(inner, members) => [LBRACE] + (inner + PrintMembers(members) + [RBRACE])
  }

  function PrintItems(items: Items): bytes
    decreases items, 0
  {
    match items
    case NoItems => []
    case Items(before, value, after, rest) =>
      ItemText(before, Print(value), after, PrintItemsTail(rest))
  }

  function ItemText(before: bytes, value: bytes, after: bytes, tail: bytes): bytes {
    before + (value + (after + tail))
  }

  function PrintItemsTail(rest: Items): bytes
    decreases rest, 1
  {
    if rest.NoItems? then [] else [COMMA] + PrintItems(rest)
  }

  function PrintMembers(members: Members): bytes
    decreases members, 0
  {
    match members
    case NoMembers => []
    case Members(before, key, gap, lead, value, after, rest) =>
      KeyText(before, key, gap, ItemText(lead, Print(value), after, PrintMembersTail(rest)))
  }

  function KeyText(before: bytes, key: bytes, gap: bytes, tail: bytes): bytes {
    before + (([QUOTE] + key + [QUOTE]) + (gap + ([COLON] + tail)))
  }

  function PrintMembersTail(rest: Members): bytes
    decreases rest, 1
  {
    if rest.NoMembers? then [] else [COMMA] + PrintMembers(rest)
  }

  /** -?(0|[1-9][0-9]*)(\.[0-9]+)?([eE][+-]?[0-9]+)? */
  predicate NumberOk(v: Value)
    requires v.Number?
  {
    && (v.minus == [] || v.minus == [MINUS])
    && Digits(v.whole) && (v.whole[0] == ZERO ==> |v.whole| == 1)
    && (v.frac == [] || (v.frac[0] == DOT && Digits(v.frac[1..])))
    && (v.exp == [] || (IsE(v.exp[0]) && |v.exp| > 1 && Digits(v.exp[if IsSign(v.exp[1]) then 2 else 1..])))
  }

  /** Whether float64 can hold a number, as the library's parser answers. */
  type FloatRange = bytes -> bool

  /** A number without exponent and at most fifteen bytes long always fits. */
  ghost predicate ShortNumbersFit(fits: FloatRange) {
    forall v: Value :: v.Number? && NumberOk(v) && v.exp == [] && |Print(v)| <= 15 ==> fits(Print(v))
  }

  /** The decoded keys of an object. */
  function KeySet(members: Members): set<bytes> {
    match members
    case NoMembers => {}
    case Members(_, key, _, _, _, _, rest) => {Decode(key)} + KeySet(rest)
  }

  predicate KeysDiffer(members: Members) {
    match members
    case NoMembers => true
    case Members(_, key, _, _, _, _, rest) => Decode(key) !in KeySet(rest) && KeysDiffer(rest)
  }

  /** A well-formed value with at most `room` containers nested, numbers
      float64 can hold, and no object at any depth with two keys that decode
      alike. */
  predicate Admissible(fits: FloatRange, v: Value, room: int)
    decreases v
  {
    match v
    case Word(w) => w == TRUE || w == FALSE || w == NULL
    case Number(_, _, _, _) => NumberOk(v) && fits(Print(v))
    case Text(b) => IsBody(b)
    case Array(inner, items) =>
      room > 0 && Spaces(inner) && (items.Items? ==> inner == []) && ItemsOk(fits, items, room - 1)
    case Object(inner, members) =>
      room > 0 && Spaces(inner) && (members.Members? ==> inner == []) && KeysDiffer(members)
      && MembersOk(fits, members, room - 1)
  }

  predicate ItemsOk(fits: FloatRange, items: Items, room: int)
    decreases items
  {
    match items
    case NoItems => true
    case Items(before, value, after, rest) =>
      Spaces(before) && Admissible(fits, value, room) && Spaces(after) && ItemsOk(fits, rest, room)
  }

  predicate MembersOk(fits: FloatRange, members: Members, room: int)
    decreases members
  {
    match members
    case NoMembers => true
    case Members(before, key, gap, lead, value, after, rest) =>
      Spaces(before) && IsBody(key) && Spaces(gap) && Spaces(lead) && Admissible(fits, value, room) && Spaces(after)
      && MembersOk(fits, rest, room)
  }

  /** No whitespace anywhere in the derivation, so none outside strings. */
  predicate Tight(v: Value)
    decreases v
  {
    match v
    case Array(inner, items) => inner == [] && TightItems(items)
    case Object(inner, members) => inner == [] && TightMembers(members)
    case _ => true
  }

  predicate TightItems(items: Items)
    decreases items
  {
    match items
    case NoItems => true
    case Items(before, value, after, rest) => before == [] && Tight(value) && after == [] && TightItems(rest)
  }

  predicate TightMembers(members: Members)
    decreases members
  {
    match members
    case NoMembers => true
    case Members(before, _, gap, lead, value, after, rest) =>
      before == [] && gap == [] && lead == [] && Tight(value) && after == [] && TightMembers(rest)
  }

  /** raw is one admissible value with whitespace around it. */
  ghost predicate Derives(fits: FloatRange, raw: bytes, before: bytes, v: Value, after: bytes) {
    Spaces(before) && Spaces(after) && Admissible(fits, v, MAX_DEPTH) && raw == before + Print(v) + after
  }

  ghost predicate IsJson(fits: FloatRange, raw: bytes) {
    exists before, v, after :: Derives(fits, raw, before, v, after)
  }
}
