/** Byte strings and the big-endian integers of the beacon frames. */
module Bytes {
  type byte = b: int | 0 <= b < 256
  type bytes = seq<byte>

  function Zeros(k: nat): (s: bytes)
    ensures |s| == k && forall i :: 0 <= i < k ==> s[i] == 0
  {
    seq(k, _ => 0)
  }

  /** 256^k, the number of values k bytes can carry. */
  function Radix(k: nat): (r: nat)
    ensures r > 0
  {
    if k == 0 then 1 else 256 * Radix(k - 1)
  }

  /** n modulo 256^k as k big-endian bytes, as binary.BigEndian writes it. */
  function BigEndian(n: nat, k: nat): (s: bytes)
    ensures |s| == k
    decreases k
  {
    if k == 0 then [] else BigEndian(n / 256, k - 1) + [n % 256]
  }

  function FromBigEndian(s: bytes): (n: nat)
    ensures n < Radix(|s|)
  {
    if s == [] then 0 else 256 * FromBigEndian(s[..|s| - 1]) + s[|s| - 1]
  }

  /** Reading back what was written gives the integer, when it fits. */
  lemma {:induction false} BigEndianRoundTrip(n: nat, k: nat)
    requires n < Radix(k)
    ensures FromBigEndian(BigEndian(n, k)) == n
    decreases k
  {
    if k > 0 {
      BigEndianRoundTrip(n / 256, k - 1);
      assert BigEndian(n, k)[..k - 1] == BigEndian(n / 256, k - 1);
    }
  }

  /** Writing back what was read gives the same bytes. */
  lemma {:induction false} BigEndianReencode(s: bytes)
    ensures BigEndian(FromBigEndian(s), |s|) == s
  {
    if s != [] {
      BigEndianReencode(s[..|s| - 1]);
      assert s == s[..|s| - 1] + [s[|s| - 1]];
    }
  }

  const TWO_63: int := 0x8000_0000_0000_0000
  const TWO_64: int := 0x1_0000_0000_0000_0000

  lemma WordRadix()
    ensures Radix(4) == 0x1_0000_0000
    ensures Radix(8) == TWO_64
  {
    assert Radix(2) == 0x1_0000;
    assert Radix(3) == 0x100_0000;
    assert Radix(5) == 0x100_0000_0000;
    assert Radix(6) == 0x1_0000_0000_0000;
    assert Radix(7) == 0x100_0000_0000_0000;
  }

  type uint32 = n: int | 0 <= n < 0x1_0000_0000
  type int64 = n: int | -TWO_63 <= n < TWO_63

  /** The value 64-bit two's complement arithmetic keeps of an integer. */
  function Wrap64(n: int): (r: int64)
    ensures -TWO_63 <= n < TWO_63 ==> r == n
  {
    (n + TWO_63) % TWO_64 - TWO_63
  }

  function PutInt64(n: int64): (s: bytes)
    ensures |s| == 8
  {
    BigEndian(n % TWO_64, 8)
  }

  function GetInt64(s: bytes): int64
    requires |s| == 8
  {
    Wrap64(FromBigEndian(s))
  }

  lemma Int64RoundTrip(n: int64)
    ensures GetInt64(PutInt64(n)) == n
  {
    WordRadix();
    BigEndianRoundTrip(n % TWO_64, 8);
    WrapResidue(n);
    hide BigEndian, FromBigEndian, Radix, Wrap64;
  }

  lemma WrapResidue(n: int64)
    ensures Wrap64(n % TWO_64) == n
  {
  }

  lemma Int64Reencode(s: bytes)
    requires |s| == 8
    ensures PutInt64(GetInt64(s)) == s
  {
    WordRadix();
    BigEndianReencode(s);
    WrapModulo(FromBigEndian(s));
  }

  lemma WrapModulo(n: nat)
    requires n < TWO_64
    ensures Wrap64(n) % TWO_64 == n
  {
    if n < TWO_63 {
      assert Wrap64(n) == n;
    } else {
      assert (n + TWO_63) % TWO_64 == n + TWO_63 - TWO_64;
      assert Wrap64(n) == n - TWO_64;
    }
  }
}
