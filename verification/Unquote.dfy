/** The string decoder: one pass over the literal, with a fast path for plain
    ASCII, proved to succeed exactly on string literals and to give what they
    mean. */
module Unquote {
  import opened Bytes
  import opened JsonStrings

  /** raw is one string literal, quotes included. */
  predicate IsLiteral(raw: bytes) {
    |raw| >= 2 && raw[0] == QUOTE && raw[|raw| - 1] == QUOTE && IsBody(raw[1..|raw| - 1])
  }

  /** Reads four hex digits after \u at the front of s; -1 stands for none. */
  method Hex4(s: bytes) returns (r: int)
    ensures r == if StartsUnit(s) then UnitValue(s) else -1
  {
    if |s| < 6 || s[0] != BACKSLASH || s[1] != LOWER_U {
      return -1;
    }
    r := 0;
    for i := 2 to 6
      invariant forall k :: 2 <= k < i ==> IsHex(s[k])
      invariant i == 2 ==> r == 0
      invariant i == 3 ==> r == HexValue(s[2])
      invariant i == 4 ==> r == HexValue(s[2]) * 16 + HexValue(s[3])
      invariant i == 5 ==> r == (HexValue(s[2]) * 16 + HexValue(s[3])) * 16 + HexValue(s[4])
      invariant i == 6 ==> r == UnitValue(s)
    {
      var c := s[i];
      var v: int;
      if 0x30 <= c <= 0x39 {
        v := c - 0x30;
      } else if 0x61 <= c <= 0x66 {
        v := c - 0x61 + 10;
      } else if 0x41 <= c <= 0x46 {
        v := c - 0x41 + 10;
      } else {
        return -1;
      }
      r := r * 16 + v;
    }
  }

  /** The end of the run of plain ASCII from i. */
  method PlainRun(s: bytes, i: nat) returns (j: nat)
    requires i <= |s|
    ensures i <= j <= |s| && forall k :: i <= k < j ==> IsPlain(s[k])
    ensures j < |s| ==> !IsPlain(s[j])
  {
    j := i;
    while j < |s| && !(s[j] == BACKSLASH || s[j] == QUOTE || s[j] < 0x20 || s[j] >= 0x80)
      invariant i <= j <= |s| && forall k :: i <= k < j ==> IsPlain(s[k])
    {
      j := j + 1;
    }
  }

  /** What remains after a character still decodes to what remains of the
      meaning. */
  ghost predicate Progress(s: bytes, i: nat, out: bytes) {
    i <= |s| && out + Decode(s[i..]) == Decode(s) && (IsBody(s) <==> IsBody(s[i..]))
  }

  lemma Advance(s: bytes, i: nat, k: nat, out: bytes, piece: bytes)
    requires Progress(s, i, out) && i + k <= |s|
    requires Decode(s[i..]) == piece + Decode(s[i..][k..])
    requires IsBody(s[i..]) <==> IsBody(s[i..][k..])
    ensures Progress(s, i + k, out + piece)
  {
    assert s[i..][k..] == s[i + k..];
    assert out + (piece + Decode(s[i + k..])) == out + piece + Decode(s[i + k..]);
  }

  lemma Started(s: bytes, i: nat)
    requires i <= |s| && forall k :: 0 <= k < i ==> IsPlain(s[k])
    ensures Progress(s, i, s[..i])
  {
    DecodePlainRun(s, i);
  }

  lemma Finished(s: bytes, out: bytes)
    requires Progress(s, |s|, out)
    ensures IsBody(s) && out == Decode(s)
  {
    assert s[|s|..] == [] && Decode([]) == [] && out + [] == out;
  }

  method String(raw: bytes) returns (out: bytes, ok: bool)
    ensures ok <==> IsLiteral(raw)
    ensures ok ==> out == Decode(raw[1..|raw| - 1])
    ensures ok ==> IsUtf8(out)
  {
    hide Decode, IsBody, IsUtf8;
    out, ok := [], false;
    if |raw| < 2 || raw[0] != QUOTE || raw[|raw| - 1] != QUOTE {
      return;
    }
    var s := raw[1..|raw| - 1];
    DecodeIsUtf8(s);
    var i := PlainRun(s, 0);
    Started(s, i);
    out := s[..i];
    if i == |s| {
      Finished(s, out);
      return s, true;
    }
    while i < |s|
      invariant Progress(s, i, out)
      decreases |s| - i
    {
      var piece, k := Character(s, i);
      if k == 0 {
        return [], false;
      }
      Advance(s, i, k, out, piece);
      out, i := out + piece, i + k;
    }
    Finished(s, out);
    ok := true;
  }

  /** One turn of the slow loop: the bytes the next characters of s decode to
      and how many bytes they take, or 0 when s is not a body. */
  method Character(s: bytes, i: nat) returns (piece: bytes, k: nat)
    requires i < |s|
    ensures k == 0 ==> !IsBody(s[i..])
    ensures k > 0 ==> i + k <= |s| && Decode(s[i..]) == piece + Decode(s[i..][k..])
    ensures k > 0 ==> (IsBody(s[i..]) <==> IsBody(s[i..][k..]))
  {
    hide Decode, SequencePoint, SequenceLen;
    ghost var b := s[i..];
    piece, k := [], 0;
    var c := s[i];
    if c == BACKSLASH {
      if i + 1 >= |s| {
        return;
      }
      var e := s[i + 1];
      if e == 0x22 || e == 0x5C || e == 0x2F || e == 0x62 || e == 0x66 || e == 0x6E || e == 0x72 || e == 0x74 {
        DecodeStep(b);
        if e == 0x62 {
          return [0x08], 2;
        } else if e == 0x66 {
          return [0x0C], 2;
        } else if e == 0x6E {
          return [0x0A], 2;
        } else if e == 0x72 {
          return [0x0D], 2;
        } else if e == 0x74 {
          return [0x09], 2;
        }
        return [e], 2;
      }
      if s[i + 1] != LOWER_U {
        return;
      }
      piece, k := Escape(s, i);
    } else if c == QUOTE || c < 0x20 {
      return;
    } else if c < 0x80 {
      var j := PlainRun(s, i + 1);
      DecodePlainRun(b, j - i);
      assert b[..j - i] == s[i..j];
      return s[i..j], j - i;
    } else {
      piece, k := Multibyte(s, i);
    }
  }

  /** A byte above ASCII: a well-formed sequence as it is, or U+FFFD for the one
      byte. */
  method Multibyte(s: bytes, i: nat) returns (piece: bytes, k: nat)
    requires i < |s| && s[i] >= 0x80
    ensures k > 0 && i + k <= |s| && Decode(s[i..]) == piece + Decode(s[i..][k..])
    ensures IsBody(s[i..]) <==> IsBody(s[i..][k..])
  {
    hide Decode, Utf8, SequencePoint;
    ghost var b := s[i..];
    var size := SequenceLen(s[i..]);
    DecodeStep(b);
    if size == 0 {
      return Utf8(REPLACEMENT), 1;
    }
    SequenceReencodes(b);
    MultibyteBody(b);
    assert s[i..i + size] == b[..size];
    return s[i..i + size], size;
  }

  /** A \u escape, with the second half of a surrogate pair when it follows. */
  method Escape(s: bytes, i: nat) returns (piece: bytes, k: nat)
    requires i + 1 < |s| && s[i] == BACKSLASH && s[i + 1] == LOWER_U
    ensures k == 0 ==> !IsBody(s[i..])
    ensures k > 0 ==> i + k <= |s| && Decode(s[i..]) == piece + Decode(s[i..][k..])
    ensures k > 0 ==> (IsBody(s[i..]) <==> IsBody(s[i..][k..]))
  {
    hide Decode, Utf8, UnitValue;
    ghost var b := s[i..];
    var r := Hex4(s[i..]);
    if r < 0 {
      return [], 0;
    }
    assert IsBody(b) <==> IsBody(b[6..]);
    if IsSurrogate(r) {
      DecodeSurrogate(b);
      var low := Hex4(s[i + 6..]);
      assert s[i + 6..] == b[6..];
      if IsHigh(r) && 0 <= low && IsLow(low) {
        assert b[6..][6..] == b[12..];
        return Utf8(Combine(r, low)), 12;
      }
      return Utf8(REPLACEMENT), 6;
    }
    DecodeStep(b);
    return Utf8(r), 6;
  }

  /** The bytes of a multibyte sequence are all unescaped characters. */
  lemma MultibyteBody(b: bytes)
    requires SequenceLen(b) > 0 && b[0] >= 0x80
    ensures IsBody(b) <==> IsBody(b[SequenceLen(b)..])
  {
    var k := SequenceLen(b);
    assert IsBody(b) <==> IsBody(b[1..]);
    assert b[1..][1..] == b[2..];
    assert IsBody(b[1..]) <==> IsBody(b[2..]);
    if k >= 3 {
      assert b[2..][1..] == b[3..];
      assert IsBody(b[2..]) <==> IsBody(b[3..]);
    }
    if k == 4 {
      assert b[3..][1..] == b[4..];
    }
  }
}
