/** Plan placeholders, LATTICE-SYN-<line_uuid>-<field>-<random>. Text is bytes,
    one char each. */
module Placeholders {
  import opened Options

  const PREFIX := "LATTICE-SYN-"

  // Regular expressions of this shape: classes, each repeated lo to hi times

  datatype Class = Hex | Variant | Lower | FieldByte | Only(c: char)

  predicate IsHex(c: char) { '0' <= c <= '9' || 'a' <= c <= 'f' }
  predicate IsFieldByte(c: char) { 'a' <= c <= 'z' || '0' <= c <= '9' || c == '_' }

  predicate In(of: Class, c: char) {
    match of
    case Hex => IsHex(c)
    case Variant => c == '8' || c == '9' || c == 'a' || c == 'b'
    case Lower => 'a' <= c <= 'z'
    case FieldByte => IsFieldByte(c)
    case Only(d) => c == d
  }

  datatype Regex = End | Then(of: Class, lo: nat, hi: nat, rest: Regex)

  predicate AllIn(of: Class, s: string) { forall i :: 0 <= i < |s| ==> In(of, s[i]) }

  /** s as a whole matches r. */
  ghost predicate Matches(r: Regex, s: string) {
    match r
    case End => s == ""
    case Then(of, lo, hi, rest) => exists k :: lo <= k <= hi && k <= |s| && AllIn(of, s[..k]) && Matches(rest, s[k..])
  }

  const UUID :=
    Then(Hex, 8, 8, Then(Only('-'), 1, 1, Then(Hex, 4, 4, Then(Only('-'), 1, 1, Then(Only('4'), 1, 1, Then(Hex, 3, 3,
    Then(Only('-'), 1, 1, Then(Variant, 1, 1, Then(Hex, 3, 3, Then(Only('-'), 1, 1, Then(Hex, 12, 12, End)))))))))))
  const FIELD := Then(Lower, 1, 1, Then(FieldByte, 0, 31, End))
  const RANDOM := Then(Hex, 32, 32, End)

  /** body matches the placeholder expression in full, with these groups. */
  ghost predicate IsBody(body: string, line: string, field: string, random: string) {
    body == line + "-" + field + "-" + random && Matches(UUID, line) && Matches(FIELD, field) && Matches(RANDOM, random)
  }

  // The expressions, position by position

  predicate Fixed(r: Regex) { r.End? || (r.lo == r.hi && Fixed(r.rest)) }

  function Total(r: Regex): nat { if r.End? then 0 else r.lo + Total(r.rest) }

  function ClassAt(r: Regex, i: nat): Class
    requires Fixed(r) && i < Total(r)
  {
    if i < r.lo then r.of else ClassAt(r.rest, i - r.lo)
  }

  ghost predicate Fits(r: Regex, s: string)
    requires Fixed(r)
  {
    |s| == Total(r) && forall i :: 0 <= i < |s| ==> In(ClassAt(r, i), s[i])
  }

  lemma FitsSplit(r: Regex, s: string)
    requires Fixed(r) && r.Then? && r.lo <= |s|
    ensures Fits(r, s) <==> AllIn(r.of, s[..r.lo]) && Fits(r.rest, s[r.lo..])
  {
    var k := r.lo;
    var head, tail := s[..k], s[k..];
    assert forall i :: 0 <= i < k ==> head[i] == s[i];
    assert forall i :: 0 <= i < |tail| ==> tail[i] == s[i + k];
    assert forall i :: k <= i < |s| ==> s[i] == tail[i - k];
    hide In;
    if Fits(r, s) {
      forall i | 0 <= i < |tail| ensures In(ClassAt(r.rest, i), tail[i]) {
        assert In(ClassAt(r, i + k), s[i + k]);
      }
    }
  }

  lemma {:induction false} FixedMatch(r: Regex, s: string)
    requires Fixed(r)
    ensures Matches(r, s) <==> Fits(r, s)
  {
    hide AllIn, In;
    if r.Then? && r.lo <= |s| {
      FitsSplit(r, s);
      FixedMatch(r.rest, s[r.lo..]);
      hide Fits;
    }
  }

  predicate IsDash(i: nat) { i == 8 || i == 13 || i == 18 || i == 23 }

  function UuidClass(i: nat): Class {
    if IsDash(i) then Only('-') else if i == 14 then Only('4') else if i == 19 then Variant else Hex
  }

  predicate IsUuid(s: string) { |s| == 36 && forall i :: 0 <= i < 36 ==> In(UuidClass(i), s[i]) }

  /** r reads positions at and on as the UUID does. */
  ghost predicate ReadsFrom(r: Regex, at: nat) {
    Fixed(r) && forall j: nat :: j < Total(r) ==> ClassAt(r, j) == UuidClass(at + j)
  }

  lemma ReadsMore(of: Class, n: nat, rest: Regex, at: nat)
    requires ReadsFrom(rest, at + n) && forall j: nat :: at <= j < at + n ==> UuidClass(j) == of
    ensures ReadsFrom(Then(of, n, n, rest), at) && Total(Then(of, n, n, rest)) == n + Total(rest)
  {
    hide UuidClass;
    var r := Then(of, n, n, rest);
    forall j: nat | j < Total(r) ensures ClassAt(r, j) == UuidClass(at + j) {
      if j >= n {
        assert ClassAt(rest, j - n) == UuidClass(at + n + (j - n));
      }
    }
  }

  lemma UuidShape()
    ensures Total(UUID) == 36 && ReadsFrom(UUID, 0)
  {
    var group12 := Then(Hex, 12, 12, End);
    var dash4 := Then(Only('-'), 1, 1, group12);
    var group3 := Then(Hex, 3, 3, dash4);
    var variant := Then(Variant, 1, 1, group3);
    var dash3 := Then(Only('-'), 1, 1, variant);
    var rest3 := Then(Hex, 3, 3, dash3);
    var version := Then(Only('4'), 1, 1, rest3);
    var dash2 := Then(Only('-'), 1, 1, version);
    var group4 := Then(Hex, 4, 4, dash2);
    var dash1 := Then(Only('-'), 1, 1, group4);
    assert UUID == Then(Hex, 8, 8, dash1);
    assert ReadsFrom(End, 36) && Total(End) == 0;
    hide ReadsFrom, Total;
    ReadsMore(Hex, 12, End, 24);
    ReadsMore(Only('-'), 1, group12, 23);
    ReadsMore(Hex, 3, dash4, 20);
    ReadsMore(Variant, 1, group3, 19);
    ReadsMore(Only('-'), 1, variant, 18);
    ReadsMore(Hex, 3, dash3, 15);
    ReadsMore(Only('4'), 1, rest3, 14);
    ReadsMore(Only('-'), 1, version, 13);
    ReadsMore(Hex, 4, dash2, 9);
    ReadsMore(Only('-'), 1, group4, 8);
    ReadsMore(Hex, 8, dash1, 0);
  }

  lemma UuidMatch(s: string)
    ensures Matches(UUID, s) <==> IsUuid(s)
  {
    hide UuidClass, In;
    UuidShape();
    FixedMatch(UUID, s);
    assert forall i: nat :: i < 36 ==> ClassAt(UUID, i) == UuidClass(0 + i);
  }

  predicate IsField(s: string) {
    1 <= |s| <= 32 && 'a' <= s[0] <= 'z' && forall i :: 1 <= i < |s| ==> IsFieldByte(s[i])
  }

  lemma TailMatch(s: string)
    ensures Matches(Then(FieldByte, 0, 31, End), s) <==> |s| <= 31 && AllIn(FieldByte, s)
  {
    hide AllIn;
    assert s[..|s|] == s;
    if |s| <= 31 && AllIn(FieldByte, s) {
      assert Matches(End, s[|s|..]);
    }
  }

  lemma FieldMatch(s: string)
    ensures Matches(FIELD, s) <==> IsField(s)
  {
    hide Matches;
    assert Matches(FIELD, s) <==>
      1 <= |s| && AllIn(Lower, s[..1]) && Matches(FIELD.rest, s[1..]) by { FirstMatch(FIELD, s); }
    if |s| >= 1 {
      TailMatch(s[1..]);
      var head, tail := s[..1], s[1..];
      assert head[0] == s[0];
      assert forall i :: 0 <= i < |tail| ==> tail[i] == s[i + 1];
      assert forall i :: 1 <= i < |s| ==> s[i] == tail[i - 1];
    }
  }

  lemma FirstMatch(r: Regex, s: string)
    requires r.Then? && r.lo == r.hi
    ensures Matches(r, s) <==> r.lo <= |s| && AllIn(r.of, s[..r.lo]) && Matches(r.rest, s[r.lo..])
  {
    hide AllIn;
  }

  predicate IsRandom(s: string) { |s| == 32 && AllIn(Hex, s) }

  lemma RandomMatch(s: string)
    ensures Matches(RANDOM, s) <==> IsRandom(s)
  {
    FixedMatch(RANDOM, s);
  }

  // The body, position by position

  predicate WellFormed(body: string) {
    var n := |body|;
    && n >= 71 && IsUuid(body[..36]) && body[36] == '-' && IsField(body[37..n - 33]) && body[n - 33] == '-'
    && IsRandom(body[n - 32..])
  }

  /** A full match has one set of groups, and it is found by position. */
  lemma BodyParts(body: string, line: string, field: string, random: string)
    ensures IsBody(body, line, field, random) <==>
      WellFormed(body) && line == body[..36] && field == body[37..|body| - 33] && random == body[|body| - 32..]
  {
    hide Matches, In, AllIn;
    UuidMatch(line);
    FieldMatch(field);
    RandomMatch(random);
    if IsUuid(line) && IsField(field) && IsRandom(random) && body == line + "-" + field + "-" + random {
      assert body[..36] == line && body[36] == '-';
      assert body[37..|body| - 33] == field && body[|body| - 33] == '-';
      assert body[|body| - 32..] == random;
    }
    if WellFormed(body) && line == body[..36] && field == body[37..|body| - 33] && random == body[|body| - 32..] {
      assert body == line + "-" + field + "-" + random;
    }
  }

  method IsUuidV4(s: string) returns (ok: bool)
    ensures ok <==> Matches(UUID, s)
  {
    UuidMatch(s);
    hide Matches;
    if |s| != 36 {
      return false;
    }
    for i := 0 to 36
      invariant forall j :: 0 <= j < i ==> In(UuidClass(j), s[j])
    {
      var c := s[i];
      if i == 8 || i == 13 || i == 18 || i == 23 {
        if c != '-' {
          return false;
        }
      } else if i == 14 {
        if c != '4' {
          return false;
        }
      } else if i == 19 {
        if c != '8' && c != '9' && c != 'a' && c != 'b' {
          return false;
        }
      } else if (c < '0' || c > '9') && (c < 'a' || c > 'f') {
        return false;
      }
    }
    ok := true;
  }

  datatype Parts = Parts(line: string, field: string)

  /** Accepts exactly the full matches of the expression, with its groups. */
  method SplitBody(body: string) returns (r: Option<Parts>)
    ensures r.Some? ==> |body| >= 32 && IsBody(body, r.value.line, r.value.field, body[|body| - 32..])
    ensures forall line, field, random :: IsBody(body, line, field, random) ==> r == Some(Parts(line, field))
  {
    r := SplitByPosition(body);
    hide Matches, IsBody, WellFormed;
    forall line, field, random | IsBody(body, line, field, random) ensures r == Some(Parts(line, field)) {
      BodyParts(body, line, field, random);
    }
    if r.Some? {
      BodyParts(body, body[..36], body[37..|body| - 33], body[|body| - 32..]);
    }
  }

  method SplitByPosition(body: string) returns (r: Option<Parts>)
    ensures r.Some? ==> |body| >= 71
    ensures r.Some? <==> WellFormed(body)
    ensures r.Some? ==> r.value == Parts(body[..36], body[37..|body| - 33])
  {
    hide Matches, UuidClass;
    if |body| < 71 {
      return None;
    }
    var uuid := IsUuidV4(body[..36]);
    UuidMatch(body[..36]);
    if !uuid || body[36] != '-' {
      return None;
    }
    var rest := body[37..];
    var n := |rest| - 33;
    assert rest[n] == body[|body| - 33];
    if n < 1 || n > 32 || rest[n] != '-' {
      return None;
    }
    var field := rest[..n];
    assert field == body[37..|body| - 33];
    if field[0] < 'a' || field[0] > 'z' {
      return None;
    }
    for i := 1 to n
      invariant forall j :: 1 <= j < i ==> IsFieldByte(field[j])
    {
      var c := field[i];
      if (c < 'a' || c > 'z') && (c < '0' || c > '9') && c != '_' {
        return None;
      }
    }
    ghost var random := body[|body| - 32..];
    assert forall j :: 0 <= j < 32 ==> random[j] == rest[n + 1 + j];
    for i := n + 1 to |rest|
      invariant forall j :: 0 <= j < i - n - 1 ==> IsHex(random[j])
    {
      var c := rest[i];
      assert c == random[i - n - 1];
      if (c < '0' || c > '9') && (c < 'a' || c > 'f') {
        return None;
      }
    }
    r := Some(Parts(body[..36], field));
  }

  // Building and parsing

  newtype Octet = x: int | 0 <= x < 256

  function HexDigit(x: int): (c: char)
    requires 0 <= x < 16
    ensures IsHex(c)
  {
    if x < 10 then '0' + x as char else 'a' + (x - 10) as char
  }

  function HexValue(c: char): (x: int)
    requires IsHex(c)
    ensures 0 <= x < 16 && HexDigit(x) == c
  {
    if c <= '9' then (c - '0') as int else (c - 'a') as int + 10
  }

  function Encode(bytes: seq<Octet>): (s: string)
    ensures |s| == 2 * |bytes| && AllIn(Hex, s)
  {
    if bytes == [] then ""
    else [HexDigit(bytes[0] as int / 16), HexDigit(bytes[0] as int % 16)] + Encode(bytes[1..])
  }

  function OctetOf(a: char, b: char): (x: Octet)
    requires IsHex(a) && IsHex(b)
    ensures HexDigit(x as int / 16) == a && HexDigit(x as int % 16) == b
  {
    var v, w := HexValue(a), HexValue(b);
    assert (16 * v + w) / 16 == v && (16 * v + w) % 16 == w;
    (16 * v + w) as Octet
  }

  /** Every even run of hex digits encodes some bytes. */
  lemma {:induction false} EncodeOnto(s: string) returns (bytes: seq<Octet>)
    requires |s| % 2 == 0 && AllIn(Hex, s)
    ensures Encode(bytes) == s
  {
    hide HexDigit;
    if s == "" {
      bytes := [];
    } else {
      var rest := EncodeOnto(s[2..]);
      bytes := [OctetOf(s[0], s[1])] + rest;
      assert bytes[1..] == rest;
      assert s == [s[0], s[1]] + s[2..];
    }
  }

  /** NewPlanPlaceholder with its random bytes as an input. */
  method NewPlaceholder(line: string, field: string, random: seq<Octet>) returns (r: Option<string>)
    requires |random| == 16
    ensures r.Some? <==> Matches(UUID, line) && Matches(FIELD, field)
    ensures r.Some? ==> r.value == PREFIX + (line + "-" + field + "-" + Encode(random))
  {
    var ok := IsUuidV4(line);
    FieldMatch(field);
    if !ok || !IsField(field) {
      return None;
    }
    r := Some(PREFIX + (line + "-" + field + "-" + Encode(random)));
  }

  ghost predicate IsPlaceholder(p: string) { |p| >= 12 && p[..12] == PREFIX && WellFormed(p[12..]) }

  /** Accepts exactly prefix and body, and returns the line and the field. */
  method ParsePlaceholder(value: string) returns (r: Option<Parts>)
    ensures r.Some? <==> IsPlaceholder(value)
    ensures forall line, field, random ::
      IsBody(line + "-" + field + "-" + random, line, field, random)
        && value == PREFIX + (line + "-" + field + "-" + random) ==>
        r == Some(Parts(line, field))
    ensures r.Some? ==> IsBody(value[12..], r.value.line, r.value.field, value[|value| - 32..])
  {
    hide Matches, IsBody, WellFormed;
    if |value| < 12 || value[..12] != PREFIX {
      return None;
    }
    r := SplitBody(value[12..]);
    ParsedBody(value, r);
  }

  lemma ParsedBody(value: string, r: Option<Parts>)
    requires |value| >= 12 && value[..12] == PREFIX
    requires r.Some? ==>
      |value| >= 44 && IsBody(value[12..], r.value.line, r.value.field, value[12..][|value[12..]| - 32..])
    requires forall line, field, random :: IsBody(value[12..], line, field, random) ==> r == Some(Parts(line, field))
    ensures r.Some? <==> IsPlaceholder(value)
    ensures forall line, field, random ::
      IsBody(line + "-" + field + "-" + random, line, field, random)
        && value == PREFIX + (line + "-" + field + "-" + random) ==>
        r == Some(Parts(line, field))
    ensures r.Some? ==> IsBody(value[12..], r.value.line, r.value.field, value[|value| - 32..])
  {
    hide Matches, WellFormed;
    var body := value[12..];
    if r.Some? {
      assert body[|body| - 32..] == value[|value| - 32..];
      BodyParts(body, r.value.line, r.value.field, body[|body| - 32..]);
    }
    if WellFormed(body) {
      WellFormedLength(body);
      BodyParts(body, body[..36], body[37..|body| - 33], body[|body| - 32..]);
    }
    forall line, field, random |
      IsBody(line + "-" + field + "-" + random, line, field, random)
        && value == PREFIX + (line + "-" + field + "-" + random)
      ensures r == Some(Parts(line, field)) {
      assert body == line + "-" + field + "-" + random;
      assert IsBody(body, line, field, random);
    }
  }

  lemma WellFormedLength(body: string)
    requires WellFormed(body)
    ensures 71 <= |body| <= 102
  {
  }

  /** What is built is a placeholder, with the parts it was built from. */
  lemma BuiltParses(line: string, field: string, random: seq<Octet>)
    requires |random| == 16 && Matches(UUID, line) && Matches(FIELD, field)
    ensures var p := PREFIX + (line + "-" + field + "-" + Encode(random));
      IsPlaceholder(p) && IsBody(p[12..], line, field, Encode(random))
  {
    hide Matches, WellFormed;
    var body := line + "-" + field + "-" + Encode(random);
    assert (PREFIX + body)[12..] == body;
    RandomMatch(Encode(random));
    BodyParts(body, line, field, Encode(random));
  }

  /** Every placeholder that parses is one that could have been built. */
  lemma ParsedIsBuilt(p: string) returns (line: string, field: string, random: seq<Octet>)
    requires IsPlaceholder(p)
    ensures |random| == 16 && Matches(UUID, line) && Matches(FIELD, field)
    ensures p == PREFIX + (line + "-" + field + "-" + Encode(random))
  {
    hide Matches, IsUuid, IsField;
    var body := p[12..];
    line, field := body[..36], body[37..|body| - 33];
    random := EncodeOnto(body[|body| - 32..]);
    BodyParts(body, line, field, body[|body| - 32..]);
    assert p == PREFIX + body;
  }

  /** Two digits a byte, the high half first. */
  lemma {:induction false} EncodeDigits(bytes: seq<Octet>, i: nat)
    requires i < |bytes|
    ensures var s := Encode(bytes); 16 * HexValue(s[2 * i]) + HexValue(s[2 * i + 1]) == bytes[i] as int
  {
    if i == 0 {
      DigitValue(bytes[0] as int / 16);
      DigitValue(bytes[0] as int % 16);
    } else {
      EncodeDigits(bytes[1..], i - 1);
      var head, rest := [HexDigit(bytes[0] as int / 16), HexDigit(bytes[0] as int % 16)], Encode(bytes[1..]);
      assert Encode(bytes) == head + rest;
      assert Encode(bytes)[2 * i] == rest[2 * (i - 1)] && Encode(bytes)[2 * i + 1] == rest[2 * (i - 1) + 1];
    }
  }

  lemma DigitValue(x: int)
    requires 0 <= x < 16
    ensures HexValue(HexDigit(x)) == x
  {
  }
}
