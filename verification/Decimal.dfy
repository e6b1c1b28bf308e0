/** Decimal integers as strings, as strconv reads and writes them, and the ids
    that must be written in their one canonical form. */
module Decimal {
  predicate IsDigit(c: char) { '0' <= c <= '9' }

  predicate AllDigits(s: string) { forall i :: 0 <= i < |s| ==> IsDigit(s[i]) }

  function DigitChar(d: nat): (c: char)
    requires d < 10
    ensures IsDigit(c) && c as int - '0' as int == d
  {
    ('0' as int + d) as char
  }

  function Format(n: nat): (s: string)
    ensures |s| > 0
  {
    if n < 10 then [DigitChar(n)] else Format(n / 10) + [DigitChar(n % 10)]
  }

  /** The value of a run of digits. */
  function Value(s: string): nat
    requires AllDigits(s)
  {
    if s == "" then 0 else 10 * Value(s[..|s| - 1]) + (s[|s| - 1] as int - '0' as int)
  }

  /** Digits, with no zero in front unless that is all. */
  predicate Canonical(s: string) {
    |s| > 0 && AllDigits(s) && (s[0] == '0' ==> |s| == 1)
  }

  lemma {:induction false} FormatCanonical(n: nat)
    ensures Canonical(Format(n)) && Value(Format(n)) == n
    ensures n > 0 ==> Format(n)[0] != '0'
  {
    if n >= 10 {
      FormatCanonical(n / 10);
      assert Format(n)[..|Format(n)| - 1] == Format(n / 10);
    } else {
      assert Format(n)[..0] == "";
    }
  }

  lemma {:induction false} ValueFormats(s: string)
    requires Canonical(s)
    ensures Format(Value(s)) == s
    ensures s[0] != '0' ==> Value(s) > 0
  {
    if |s| == 1 {
      assert s[..0] == "";
      assert Value(s) == s[0] as int - '0' as int;
      assert s == [s[0]];
    } else {
      var init := s[..|s| - 1];
      ValueFormats(init);
      assert s == init + [s[|s| - 1]];
    }
  }

  /** Two numbers written the same are the same. */
  lemma FormatInjective(m: nat, n: nat)
    requires Format(m) == Format(n)
    ensures m == n
  {
    FormatCanonical(m);
    FormatCanonical(n);
  }

  const MAX_INT64: nat := 0x7FFF_FFFF_FFFF_FFFF
  const MAX_UINT64: nat := 0xFFFF_FFFF_FFFF_FFFF

  datatype Parsed = Error | Number(n: int)

  /** strconv.ParseInt in base 10: an optional sign, then digits. */
  function ParseInt64(s: string): Parsed {
    var signed := |s| > 0 && (s[0] == '+' || s[0] == '-');
    var digits := if signed then s[1..] else s;
    if |digits| == 0 || !AllDigits(digits) then Error
    else if signed && s[0] == '-' then
      if Value(digits) > MAX_INT64 + 1 then Error else Number(0 - Value(digits))
    else if Value(digits) > MAX_INT64 then Error else Number(Value(digits))
  }

  /** strconv.ParseUint in base 10: digits only. */
  function ParseUint64(s: string): Parsed {
    if |s| == 0 || !AllDigits(s) || Value(s) > MAX_UINT64 then Error else Number(Value(s))
  }

  function FormatInt(n: int): string { if n < 0 then "-" + Format(-n) else Format(n) }

  /** validInvocationID: parses, is positive, and is written as it would be. */
  predicate ValidInvocationId(id: string) {
    var p := ParseInt64(id);
    p.Number? && p.n > 0 && FormatInt(p.n) == id
  }

  predicate ValidHostCallId(id: string) {
    |id| >= 2 && id[0] == 'h' &&
    var p := ParseUint64(id[1..]);
    p.Number? && p.n > 0 && "h" + FormatInt(p.n) == id
  }

  /** An invocation id is exactly a canonical positive int64: no sign, no
      leading zero, so one number has one id. */
  lemma ValidInvocationIdIff(id: string)
    ensures ValidInvocationId(id) <==> Canonical(id) && id[0] != '0' && Value(id) <= MAX_INT64
  {
    if ValidInvocationId(id) {
      FormatCanonical(ParseInt64(id).n);
    }
    if Canonical(id) && id[0] != '0' && Value(id) <= MAX_INT64 {
      ValueFormats(id);
      assert !(id[0] == '+' || id[0] == '-');
    }
  }

  function CallId(n: nat): string { "h" + Format(n) }

  /** The ids the transport writes are the valid ones, one for each number. */
  lemma CallIdValid(n: nat)
    requires 0 < n <= MAX_UINT64
    ensures ValidHostCallId(CallId(n))
  {
    FormatCanonical(n);
    assert CallId(n)[1..] == Format(n);
  }

  lemma CallIdInjective(m: nat, n: nat)
    requires CallId(m) == CallId(n)
    ensures m == n
  {
    assert CallId(m)[1..] == Format(m) && CallId(n)[1..] == Format(n);
    FormatInjective(m, n);
  }

  lemma ValidHostCallIdIff(id: string)
    ensures ValidHostCallId(id) <==> exists n: nat :: 0 < n <= MAX_UINT64 && id == CallId(n)
  {
    if ValidHostCallId(id) {
      assert id == CallId(ParseUint64(id[1..]).n);
    }
    if n: nat :| 0 < n <= MAX_UINT64 && id == CallId(n) {
      CallIdValid(n);
    }
  }
}
