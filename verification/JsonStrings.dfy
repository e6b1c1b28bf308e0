/** JSON string literals: their grammar (section 7 of RFC 8259), what they
    decode to, and the one-pass decoder. */
module JsonStrings {
  import opened Bytes

  const QUOTE: byte := 0x22
  const BACKSLASH: byte := 0x5C
  const LOWER_U: byte := 0x75

  // Grammar

  predicate IsHex(c: byte) { 0x30 <= c <= 0x39 || 0x61 <= c <= 0x66 || 0x41 <= c <= 0x46 }

  function HexValue(c: byte): (v: nat)
    requires IsHex(c)
    ensures v < 16
  {
    if c <= 0x39 then c - 0x30 else if c >= 0x61 then c - 0x61 + 10 else c - 0x41 + 10
  }

  /** " \ / b f n r t */
  predicate IsShort(c: byte) {
    c == QUOTE || c == BACKSLASH || c == 0x2F || c == 0x62 || c == 0x66 || c == 0x6E || c == 0x72 || c == 0x74
  }

  function ShortValue(c: byte): (v: byte)
    requires IsShort(c)
    ensures v < 0x80
  {
    if c == 0x62 then 8 else if c == 0x66 then 12 else if c == 0x6E then 10
    else if c == 0x72 then 13 else if c == 0x74 then 9 else c
  }

  predicate IsUnescaped(c: byte) { c >= 0x20 && c != QUOTE && c != BACKSLASH }

  predicate StartsUnit(b: bytes) {
    |b| >= 6 && b[0] == BACKSLASH && b[1] == LOWER_U && IsHex(b[2]) && IsHex(b[3]) && IsHex(b[4]) && IsHex(b[5])
  }

  predicate StartsShort(b: bytes) { |b| >= 2 && b[0] == BACKSLASH && IsShort(b[1]) }

  /** b is a sequence of string characters: what may stand between quotes. */
  predicate IsBody(b: bytes) {
    b == []
    || (IsUnescaped(b[0]) && IsBody(b[1..]))
    || (StartsShort(b) && IsBody(b[2..]))
    || (StartsUnit(b) && IsBody(b[6..]))
  }

  // Meaning: characters, then code points, then UTF-8

  /** A character of the literal: a code point, a \u code unit, or a byte that
      is not part of any well-formed UTF-8 sequence. */
  datatype Token = Point(c: nat) | Unit(u: nat) | Junk

  const REPLACEMENT: nat := 0xFFFD

  predicate IsScalar(c: nat) { c < 0xD800 || 0xE000 <= c < 0x11_0000 }
  predicate IsSurrogate(u: nat) { 0xD800 <= u < 0xE000 }
  predicate IsHigh(u: nat) { 0xD800 <= u < 0xDC00 }
  predicate IsLow(u: nat) { 0xDC00 <= u < 0xE000 }

  function Combine(hi: nat, lo: nat): (c: nat)
    requires IsHigh(hi) && IsLow(lo)
    ensures 0x1_0000 <= c < 0x11_0000
  {
    0x1_0000 + (hi - 0xD800) * 0x400 + (lo - 0xDC00)
  }

  predicate Continues(c: byte) { 0x80 <= c < 0xC0 }

  /** The length of the well-formed UTF-8 sequence b opens with, 0 when there is
      none (the syntax of section 4 of RFC 3629). */
  function SequenceLen(b: bytes): (k: nat)
    ensures k <= 4 && k <= |b|
  {
    if |b| >= 1 && b[0] < 0x80 then 1
    else if |b| >= 2 && 0xC2 <= b[0] <= 0xDF && Continues(b[1]) then 2
    else if |b| >= 3 && Continues(b[1]) && Continues(b[2])
      && ((b[0] == 0xE0 && b[1] >= 0xA0) || 0xE1 <= b[0] <= 0xEC
          || (b[0] == 0xED && b[1] < 0xA0) || 0xEE <= b[0] <= 0xEF) then 3
    else if |b| >= 4 && Continues(b[1]) && Continues(b[2]) && Continues(b[3])
      && ((b[0] == 0xF0 && b[1] >= 0x90) || 0xF1 <= b[0] <= 0xF3 || (b[0] == 0xF4 && b[1] < 0x90)) then 4
    else 0
  }

  /** The six bits a continuation byte carries. */
  function Low6(c: byte): (v: nat)
    requires Continues(c)
    ensures v < 0x40 && c == 0x80 + v
  {
    c - 0x80
  }

  function SequencePoint(b: bytes): (c: nat)
    requires SequenceLen(b) > 0
    ensures IsScalar(c)
  {
    var k := SequenceLen(b);
    var lead: int := b[0];
    if k == 1 then lead
    else if k == 2 then (lead - 0xC0) * 0x40 + Low6(b[1])
    else if k == 3 then (lead - 0xE0) * 0x1000 + Low6(b[1]) * 0x40 + Low6(b[2])
    else (lead - 0xF0) * 0x4_0000 + Low6(b[1]) * 0x1000 + Low6(b[2]) * 0x40 + Low6(b[3])
  }

  function Utf8(c: nat): (b: bytes)
    requires IsScalar(c)
    ensures 1 <= |b| <= 4
  {
    if c < 0x80 then [c]
    else if c < 0x800 then [0xC0 + c / 0x40, 0x80 + c % 0x40]
    else if c < 0x1_0000 then [0xE0 + c / 0x1000, 0x80 + c / 0x40 % 0x40, 0x80 + c % 0x40]
    else [0xF0 + c / 0x4_0000, 0x80 + c / 0x1000 % 0x40, 0x80 + c / 0x40 % 0x40, 0x80 + c % 0x40]
  }

  predicate IsUtf8(b: bytes) {
    b == [] || (SequenceLen(b) > 0 && IsUtf8(b[SequenceLen(b)..]))
  }

  function UnitValue(b: bytes): (u: nat)
    requires StartsUnit(b)
    ensures u < 0x1_0000
  {
    ((HexValue(b[2]) * 16 + HexValue(b[3])) * 16 + HexValue(b[4])) * 16 + HexValue(b[5])
  }

  /** The first character of a nonempty body and its length. */
  function FirstToken(b: bytes): (t: (Token, nat))
    requires b != []
    ensures 1 <= t.1 <= |b|
    ensures t.0.Point? ==> IsScalar(t.0.c)
    ensures t.0.Unit? ==> t.0.u < 0x1_0000
  {
    if StartsShort(b) then (Point(ShortValue(b[1])), 2)
    else if StartsUnit(b) then (Unit(UnitValue(b)), 6)
    else if SequenceLen(b) > 0 then (Point(SequencePoint(b)), SequenceLen(b))
    else (Junk, 1)
  }

  function Tokens(b: bytes): seq<Token>
    decreases |b|
  {
    if b == [] then [] else [FirstToken(b).0] + Tokens(b[FirstToken(b).1..])
  }

  predicate Pairs(ts: seq<Token>) {
    |ts| >= 2 && ts[0].Unit? && IsHigh(ts[0].u) && ts[1].Unit? && IsLow(ts[1].u)
  }

  /** The code points: a surrogate pair joined, a lone surrogate and a junk byte
      replaced. */
  function Points(ts: seq<Token>): seq<nat> {
    if ts == [] then []
    else if Pairs(ts) then [Combine(ts[0].u, ts[1].u)] + Points(ts[2..])
    else match ts[0]
      case Point(c) => [c] + Points(ts[1..])
      case Unit(u) => [if IsSurrogate(u) then REPLACEMENT else u] + Points(ts[1..])
      case Junk => [REPLACEMENT] + Points(ts[1..])
  }

  function Encoded(ps: seq<nat>): bytes
    requires forall p :: p in ps ==> IsScalar(p)
  {
    if ps == [] then [] else Utf8(ps[0]) + Encoded(ps[1..])
  }

  ghost predicate TokensOk(ts: seq<Token>) {
    forall t :: t in ts ==> (t.Point? ==> IsScalar(t.c)) && (t.Unit? ==> t.u < 0x1_0000)
  }

  lemma {:induction false} TokensAreOk(b: bytes)
    ensures TokensOk(Tokens(b))
    decreases |b|
  {
    if b != [] {
      TokensAreOk(b[FirstToken(b).1..]);
    }
  }

  lemma {:induction false} PointsAreScalar(ts: seq<Token>)
    requires TokensOk(ts)
    ensures forall p :: p in Points(ts) ==> IsScalar(p)
  {
    if ts != [] {
      assert ts[0] in ts;
      if Pairs(ts) {
        PointsAreScalar(ts[2..]);
      } else {
        PointsAreScalar(ts[1..]);
      }
    }
  }

  /** What a body decodes to. */
  function Decode(b: bytes): bytes {
    TokensAreOk(b); PointsAreScalar(Tokens(b));
    Encoded(Points(Tokens(b)))
  }

  // The output is always UTF-8

  lemma Utf8Opens(c: nat, rest: bytes)
    requires IsScalar(c)
    ensures SequenceLen(Utf8(c) + rest) == |Utf8(c)|
  {
    if c < 0x800 {
      ShortOpens(c, rest);
    } else if c < 0x1_0000 {
      ThreeOpens(c, rest);
    } else {
      FourOpens(c, rest);
    }
  }

  lemma ShortOpens(c: nat, rest: bytes)
    requires c < 0x800
    ensures SequenceLen(Utf8(c) + rest) == |Utf8(c)|
  {
  }

  lemma ThreeOpens(c: nat, rest: bytes)
    requires IsScalar(c) && 0x800 <= c < 0x1_0000
    ensures SequenceLen(Utf8(c) + rest) == |Utf8(c)|
  {
  }

  lemma FourOpens(c: nat, rest: bytes)
    requires IsScalar(c) && 0x1_0000 <= c
    ensures SequenceLen(Utf8(c) + rest) == |Utf8(c)|
  {
  }

  lemma {:induction false} EncodedIsUtf8(ps: seq<nat>)
    requires forall p :: p in ps ==> IsScalar(p)
    ensures IsUtf8(Encoded(ps))
  {
    if ps != [] {
      assert ps[0] in ps;
      EncodedIsUtf8(ps[1..]);
      Utf8Opens(ps[0], Encoded(ps[1..]));
      assert (Utf8(ps[0]) + Encoded(ps[1..]))[|Utf8(ps[0])|..] == Encoded(ps[1..]);
    }
  }

  /** Whatever bytes a literal holds, it decodes to valid UTF-8. */
  lemma DecodeIsUtf8(b: bytes)
    ensures IsUtf8(Decode(b))
  {
    TokensAreOk(b);
    PointsAreScalar(Tokens(b));
    EncodedIsUtf8(Points(Tokens(b)));
  }

  /** A well-formed sequence is its code point's encoding. */
  lemma SequenceReencodes(b: bytes)
    requires SequenceLen(b) > 0
    ensures Utf8(SequencePoint(b)) == b[..SequenceLen(b)]
  {
    var k := SequenceLen(b);
    if k == 2 {
      Digits64(b[0] - 0xC0, Low6(b[1]));
    } else if k == 3 {
      ThreeReencode(b);
    } else if k == 4 {
      FourReencode(b);
    }
  }

  lemma ThreeReencode(b: bytes)
    requires SequenceLen(b) == 3
    ensures Utf8(SequencePoint(b)) == b[..3]
  {
    ThreeDigits(b[0] - 0xE0, Low6(b[1]), Low6(b[2]));
  }

  lemma FourReencode(b: bytes)
    requires SequenceLen(b) == 4
    ensures Utf8(SequencePoint(b)) == b[..4]
  {
    FourDigits(b[0] - 0xF0, Low6(b[1]), Low6(b[2]), Low6(b[3]));
  }

  lemma ThreeDigits(a: nat, x: nat, y: nat)
    requires x < 0x40 && y < 0x40
    ensures var c := a * 0x1000 + x * 0x40 + y; c / 0x1000 == a && c / 0x40 % 0x40 == x && c % 0x40 == y
  {
    var c := a * 0x1000 + x * 0x40 + y;
    assert c == (a * 0x40 + x) * 0x40 + y;
    Digits64(a * 0x40 + x, y);
    Digits64(a, x);
    assert c / 0x1000 == c / 0x40 / 0x40;
  }

  lemma FourDigits(a: nat, x: nat, y: nat, z: nat)
    requires x < 0x40 && y < 0x40 && z < 0x40
    ensures var c := a * 0x4_0000 + x * 0x1000 + y * 0x40 + z;
      c / 0x4_0000 == a && c / 0x1000 % 0x40 == x && c / 0x40 % 0x40 == y && c % 0x40 == z
  {
    var c := a * 0x4_0000 + x * 0x1000 + y * 0x40 + z;
    Digits64((a * 0x40 + x) * 0x40 + y, z);
    assert c / 0x40 == (a * 0x40 + x) * 0x40 + y;
    Digits64(a * 0x40 + x, y);
    assert c / 0x1000 == a * 0x40 + x;
    Digits64(a, x);
  }

  lemma Digits64(hi: nat, lo: nat)
    requires lo < 0x40
    ensures (hi * 0x40 + lo) / 0x40 == hi && (hi * 0x40 + lo) % 0x40 == lo
  {
  }

  // One step of decoding

  lemma DecodeStep(b: bytes)
    requires b != []
    ensures var (t, k) := FirstToken(b);
      && (t.Point? ==> Decode(b) == Utf8(t.c) + Decode(b[k..]))
      && (t.Junk? ==> Decode(b) == Utf8(REPLACEMENT) + Decode(b[k..]))
      && (t.Unit? && !IsSurrogate(t.u) ==> Decode(b) == Utf8(t.u) + Decode(b[k..]))
  {
    var (t, k) := FirstToken(b);
    TokensAreOk(b);
    PointsAreScalar(Tokens(b));
    assert Tokens(b)[1..] == Tokens(b[k..]);
    if !t.Unit? || !IsSurrogate(t.u) {
      var ps := Points(Tokens(b));
      assert ps[1..] == Points(Tokens(b[k..]));
    }
  }

  /** A surrogate escape, followed or not by its other half. */
  lemma DecodeSurrogate(b: bytes)
    requires StartsUnit(b) && IsSurrogate(UnitValue(b))
    ensures IsHigh(UnitValue(b)) && StartsUnit(b[6..]) && IsLow(UnitValue(b[6..])) ==>
      Decode(b) == Utf8(Combine(UnitValue(b), UnitValue(b[6..]))) + Decode(b[12..])
    ensures !(IsHigh(UnitValue(b)) && StartsUnit(b[6..]) && IsLow(UnitValue(b[6..]))) ==>
      Decode(b) == Utf8(REPLACEMENT) + Decode(b[6..])
  {
    var ts := Tokens(b);
    TokensAreOk(b);
    PointsAreScalar(ts);
    assert FirstToken(b) == (Unit(UnitValue(b)), 6);
    assert ts[1..] == Tokens(b[6..]);
    if b[6..] != [] {
      assert ts[1] == FirstToken(b[6..]).0;
    }
    var ps := Points(ts);
    if Pairs(ts) {
      assert StartsUnit(b[6..]);
      assert b[6..][6..] == b[12..];
      assert ts[2..] == Tokens(b[12..]);
      assert ps[1..] == Points(Tokens(b[12..]));
    } else {
      assert ps[1..] == Points(Tokens(b[6..]));
    }
  }

  // A run of plain ASCII decodes to itself

  predicate IsPlain(c: byte) { IsUnescaped(c) && c < 0x80 }

  lemma DecodePlainByte(b: bytes)
    requires b != [] && IsPlain(b[0])
    ensures Decode(b) == [b[0]] + Decode(b[1..]) && (IsBody(b) <==> IsBody(b[1..]))
  {
    hide Decode;
    assert FirstToken(b) == (Point(b[0]), 1);
    DecodeStep(b);
  }

  lemma {:induction false} DecodePlainRun(b: bytes, k: nat)
    requires k <= |b| && forall i :: 0 <= i < k ==> IsPlain(b[i])
    ensures Decode(b) == b[..k] + Decode(b[k..])
    ensures IsBody(b) <==> IsBody(b[k..])
    decreases k
  {
    hide Decode, IsBody, IsPlain;
    if k == 0 {
      assert b[0..] == b && b[..0] == [];
    } else {
      DecodePlainRun(b, k - 1);
      var c := b[k - 1..];
      DecodePlainByte(c);
      assert c[1..] == b[k..];
      assert b[..k] == b[..k - 1] + [c[0]];
    }
  }

  // Surrogate pairs

  /** The two halves of a code point outside the basic plane (section 2.1 of
      RFC 2781) join to it, and no other two do. */
  lemma HalvesJoin(c: nat, hi: nat, lo: nat)
    requires 0x1_0000 <= c < 0x11_0000 && IsHigh(hi) && IsLow(lo)
    ensures Combine(hi, lo) == c <==> hi == 0xD800 + (c - 0x1_0000) / 0x400 && lo == 0xDC00 + (c - 0x1_0000) % 0x400
  {
    var x, h, l := c - 0x1_0000, hi - 0xD800, lo - 0xDC00;
    assert h * 0x400 + l == x <==> h == x / 0x400 && l == x % 0x400;
  }

  /** The eight short escapes of section 7 of RFC 8259. */
  lemma ShortEscapes()
    ensures forall c: byte :: IsShort(c) <==> c in {0x22, 0x5C, 0x2F, 0x62, 0x66, 0x6E, 0x72, 0x74}
    ensures ShortValue(0x22) == 0x22 && ShortValue(0x5C) == 0x5C && ShortValue(0x2F) == 0x2F
    ensures ShortValue(0x62) == 0x08 && ShortValue(0x66) == 0x0C && ShortValue(0x6E) == 0x0A
    ensures ShortValue(0x72) == 0x0D && ShortValue(0x74) == 0x09
  {
  }
}
