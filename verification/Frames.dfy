/** The beacon's request and reply frames: fixed layouts signed with a
    truncated HMAC. The MAC is any function from key and message to a digest. */
module Frames {
  import opened Bytes
  import opened NonceSpec

  const REQUEST_LEN := 96
  const REPLY_LEN := 64
  const TAG_LEN := 16
  const MAGIC: bytes := [0x4C, 0x54, 0x42, 0x31]
  const VERSION: byte := 1
  const REQ_DOMAIN: bytes := [0x72, 0x65, 0x71]
  const REP_DOMAIN: bytes := [0x72, 0x65, 0x70]

  const STATUS_OK: byte := 0
  const STATUS_STALE: byte := 1
  const STATUS_UNKNOWN_EPOCH: byte := 2
  const STATUS_RATE_LIMITED: byte := 3

  type Key = bytes
  type Digest = d: bytes | |d| == 32 witness Zeros(32)
  type Mac = (Key, bytes) -> Digest

  function Tag(mac: Mac, key: Key, domain: bytes, msg: bytes): (t: bytes)
    ensures |t| == TAG_LEN
  {
    mac(key, domain + msg)[..TAG_LEN]
  }

  datatype FrameError = ErrLength | ErrMagic | ErrVersion | ErrPadding | ErrTag | ErrStatus | ErrIDs
  datatype Result<T> = Ok(value: T) | Err(error: FrameError)

  datatype Request = Request(epoch: uint32, sourceId: uint32, seqNo: uint32, sent: int64, nonce: Nonce)
  datatype Reply = Reply(status: byte, seqNo: uint32, nonce: Nonce, clock: int64)

  predicate NonceFits(n: Nonce) { |n.octets| == NONCE_LEN }

  // Layouts

  function RequestBody(r: Request): (b: bytes)
    requires NonceFits(r.nonce)
    ensures |b| == REQUEST_LEN - TAG_LEN
  {
    MAGIC + [VERSION] + BigEndian(r.epoch, 4) + BigEndian(r.sourceId, 4) + BigEndian(r.seqNo, 4)
      + PutInt64(r.sent) + r.nonce.octets + Zeros(39)
  }

  function SignedRequest(mac: Mac, key: Key, r: Request): (b: bytes)
    requires NonceFits(r.nonce)
    ensures |b| == REQUEST_LEN
  {
    RequestBody(r) + Tag(mac, key, REQ_DOMAIN, RequestBody(r))
  }

  function ReplyBody(r: Reply): (b: bytes)
    requires NonceFits(r.nonce)
    ensures |b| == REPLY_LEN - TAG_LEN
  {
    MAGIC + [VERSION, r.status] + BigEndian(r.seqNo, 4) + r.nonce.octets + PutInt64(r.clock) + Zeros(14)
  }

  function SignedReply(mac: Mac, key: Key, r: Reply): (b: bytes)
    requires NonceFits(r.nonce)
    ensures |b| == REPLY_LEN
  {
    ReplyBody(r) + Tag(mac, key, REP_DOMAIN, ReplyBody(r))
  }

  // Parsing

  predicate AllZero(s: bytes) { forall i :: 0 <= i < |s| ==> s[i] == 0 }

  function CheckRequestFrame(pkt: bytes): Result<()> {
    if |pkt| != REQUEST_LEN then Err(ErrLength)
    else if pkt[..4] != MAGIC then Err(ErrMagic)
    else if pkt[4] != VERSION then Err(ErrVersion)
    else if !AllZero(pkt[41..80]) then Err(ErrPadding)
    else Ok(())
  }

  function Word32(s: bytes): uint32
    requires |s| == 4
  {
    WordRadix(); FromBigEndian(s)
  }

  /** The fields of a datagram of the right length, at their offsets. */
  function Fields(pkt: bytes): Request
    requires |pkt| == REQUEST_LEN
  {
    Request(Word32(pkt[5..9]), Word32(pkt[9..13]), Word32(pkt[13..17]), GetInt64(pkt[17..25]), Nonce(pkt[25..41]))
  }

  function ParseRequest(pkt: bytes): Result<Request> {
    match CheckRequestFrame(pkt)
    case Err(e) => Err(e)
    case Ok(_) => Ok(Fields(pkt))
  }

  predicate VerifyRequest(mac: Mac, key: Key, pkt: bytes) {
    CheckRequestFrame(pkt).Ok? && Tag(mac, key, REQ_DOMAIN, pkt[..80]) == pkt[80..]
  }

  function ParseReply(mac: Mac, key: Key, pkt: bytes): Result<Reply> {
    if |pkt| != REPLY_LEN then Err(ErrLength)
    else if pkt[..4] != MAGIC then Err(ErrMagic)
    else if pkt[4] != VERSION then Err(ErrVersion)
    else if !AllZero(pkt[34..48]) then Err(ErrPadding)
    else if Tag(mac, key, REP_DOMAIN, pkt[..48]) != pkt[48..] then Err(ErrTag)
    else if pkt[5] > STATUS_RATE_LIMITED then Err(ErrStatus)
    else Ok(Reply(pkt[5], Word32(pkt[6..10]), Nonce(pkt[10..26]), GetInt64(pkt[26..34])))
  }

  lemma Word32RoundTrip(n: uint32)
    ensures Word32(BigEndian(n, 4)) == n
  {
    WordRadix();
    BigEndianRoundTrip(n, 4);
  }

  lemma Word32Reencode(s: bytes)
    requires |s| == 4
    ensures BigEndian(Word32(s), 4) == s
  {
    BigEndianReencode(s);
  }

  /** A request read back is the request written, and its tag verifies. */
  lemma RequestRoundTrip(mac: Mac, key: Key, r: Request)
    requires NonceFits(r.nonce)
    ensures ParseRequest(SignedRequest(mac, key, r)) == Ok(r)
    ensures VerifyRequest(mac, key, SignedRequest(mac, key, r))
  {
    hide BigEndian, PutInt64, Zeros, Tag, Word32, GetInt64;
    var b, p := RequestBody(r), SignedRequest(mac, key, r);
    assert p[..80] == b && p[80..] == Tag(mac, key, REQ_DOMAIN, b);
    assert p[..4] == MAGIC && p[4] == VERSION;
    assert p[5..9] == BigEndian(r.epoch, 4);
    assert p[9..13] == BigEndian(r.sourceId, 4);
    assert p[13..17] == BigEndian(r.seqNo, 4);
    assert p[17..25] == PutInt64(r.sent);
    assert p[25..41] == r.nonce.octets;
    assert p[41..80] == Zeros(39);
    Word32RoundTrip(r.epoch);
    Word32RoundTrip(r.sourceId);
    Word32RoundTrip(r.seqNo);
    Int64RoundTrip(r.sent);
  }

  /** A request that verifies is the encoding of what it parses to, byte for
      byte. */
  lemma RequestReencode(mac: Mac, key: Key, pkt: bytes)
    requires VerifyRequest(mac, key, pkt)
    ensures SignedRequest(mac, key, Fields(pkt)) == pkt
  {
    Word32Reencode(pkt[5..9]);
    Word32Reencode(pkt[9..13]);
    Word32Reencode(pkt[13..17]);
    Int64Reencode(pkt[17..25]);
    assert pkt[41..80] == Zeros(39);
    hide BigEndian, Word32, GetInt64, PutInt64, Zeros, AllZero;
    RequestSlices(pkt);
  }

  lemma RequestSlices(pkt: bytes)
    requires |pkt| == REQUEST_LEN
    ensures pkt[..80] ==
      pkt[..4] + [pkt[4]] + pkt[5..9] + pkt[9..13] + pkt[13..17] + pkt[17..25] + pkt[25..41] + pkt[41..80]
    ensures pkt == pkt[..80] + pkt[80..]
  {
  }

  lemma ReplyRoundTrip(mac: Mac, key: Key, r: Reply)
    requires NonceFits(r.nonce) && r.status <= STATUS_RATE_LIMITED
    ensures ParseReply(mac, key, SignedReply(mac, key, r)) == Ok(r)
  {
    hide BigEndian, PutInt64, Zeros, Tag, Word32, GetInt64;
    var b, p := ReplyBody(r), SignedReply(mac, key, r);
    assert p[..48] == b && p[48..] == Tag(mac, key, REP_DOMAIN, b);
    assert p[..4] == MAGIC && p[4] == VERSION && p[5] == r.status;
    assert p[6..10] == BigEndian(r.seqNo, 4);
    assert p[10..26] == r.nonce.octets;
    assert p[26..34] == PutInt64(r.clock);
    assert p[34..48] == Zeros(14);
    Word32RoundTrip(r.seqNo);
    Int64RoundTrip(r.clock);
  }

  lemma ReplyReencode(mac: Mac, key: Key, pkt: bytes)
    requires ParseReply(mac, key, pkt).Ok?
    ensures NonceFits(ParseReply(mac, key, pkt).value.nonce)
    ensures SignedReply(mac, key, ParseReply(mac, key, pkt).value) == pkt
  {
    Word32Reencode(pkt[6..10]);
    Int64Reencode(pkt[26..34]);
    assert pkt[34..48] == Zeros(14);
    hide BigEndian, Word32, GetInt64, PutInt64, Zeros, AllZero;
    ReplySlices(pkt);
  }

  lemma ReplySlices(pkt: bytes)
    requires |pkt| == REPLY_LEN
    ensures pkt[..48] == pkt[..4] + [pkt[4], pkt[5]] + pkt[6..10] + pkt[10..26] + pkt[26..34] + pkt[34..48]
    ensures pkt == pkt[..48] + pkt[48..]
  {
  }

  // Writing in place

  method Put(b: array<byte>, off: nat, s: bytes)
    requires off + |s| <= b.Length
    modifies b
    ensures b[..] == old(b[..off]) + s + old(b[off + |s|..])
  {
    for i := 0 to |s|
      invariant b[..] == old(b[..off]) + s[..i] + old(b[off + i..])
    {
      b[off + i] := s[i];
    }
  }

  /** b opens with head, then zeros up to n, then rest. */
  ghost predicate Filled(b: bytes, head: bytes, n: nat, rest: bytes) {
    |head| <= n && b == head + Zeros(n - |head|) + rest
  }

  method Append(b: array<byte>, ghost head: bytes, s: bytes, off: nat, ghost n: nat, ghost rest: bytes)
    requires Filled(b[..], head, n, rest) && off == |head| && off + |s| <= n
    modifies b
    ensures Filled(b[..], head + s, n, rest)
  {
    Put(b, off, s);
    assert old(b[..off]) == head;
    assert old(b[off + |s|..]) == Zeros(n - |head + s|) + rest;
  }

  method Clear(b: array<byte>, n: nat, ghost rest: bytes)
    requires n <= b.Length && rest == b[n..]
    modifies b
    ensures Filled(b[..], [], n, rest)
  {
    for i := 0 to n
      invariant b[..] == Zeros(i) + old(b[i..])
    {
      b[i] := 0;
    }
  }

  /** EncodeRequest: writes the signed request into the first bytes of dst, or
      nothing. */
  method EncodeRequest(dst: array<byte>, mac: Mac, key: Key, r: Request) returns (res: Result<nat>)
    requires NonceFits(r.nonce)
    modifies dst
    ensures res == if dst.Length < REQUEST_LEN then Err(ErrLength)
                   else if r.sourceId == 0 || r.epoch == 0 then Err(ErrIDs) else Ok(REQUEST_LEN)
    ensures res.Err? ==> dst[..] == old(dst[..])
    ensures res.Ok? ==> dst[..] == SignedRequest(mac, key, r) + old(dst[REQUEST_LEN..])
  {
    if dst.Length < REQUEST_LEN {
      return Err(ErrLength);
    }
    if r.sourceId == 0 || r.epoch == 0 {
      return Err(ErrIDs);
    }
    hide Filled, Zeros, BigEndian, PutInt64;
    ghost var n, rest := REQUEST_LEN, dst[REQUEST_LEN..];
    ghost var h := [];
    Clear(dst, REQUEST_LEN, rest);
    Append(dst, h, MAGIC, 0, n, rest);
    h := h + MAGIC;
    Append(dst, h, [VERSION], 4, n, rest);
    h := h + [VERSION];
    Append(dst, h, BigEndian(r.epoch, 4), 5, n, rest);
    h := h + BigEndian(r.epoch, 4);
    Append(dst, h, BigEndian(r.sourceId, 4), 9, n, rest);
    h := h + BigEndian(r.sourceId, 4);
    Append(dst, h, BigEndian(r.seqNo, 4), 13, n, rest);
    h := h + BigEndian(r.seqNo, 4);
    Append(dst, h, PutInt64(r.sent), 17, n, rest);
    h := h + PutInt64(r.sent);
    Append(dst, h, r.nonce.octets, 25, n, rest);
    h := h + r.nonce.octets;
    PadTo(dst[..], h, 80, n, rest);
    assert h + Zeros(39) == RequestBody(r) by { assert [] + MAGIC == MAGIC; }
    var t := Tag(mac, key, REQ_DOMAIN, dst[..80]);
    Append(dst, h + Zeros(39), t, 80, n, rest);
    FullIs(dst[..], SignedRequest(mac, key, r), rest);
    res := Ok(REQUEST_LEN);
  }

  lemma PadTo(b: bytes, head: bytes, k: nat, n: nat, rest: bytes)
    requires Filled(b, head, n, rest) && |head| <= k <= n
    ensures Filled(b, head + Zeros(k - |head|), n, rest)
    ensures k <= |b| && b[..k] == head + Zeros(k - |head|)
  {
    assert Zeros(n - |head|) == Zeros(k - |head|) + Zeros(n - k);
  }

  lemma FullIs(b: bytes, head: bytes, rest: bytes)
    requires Filled(b, head, |head|, rest)
    ensures b == head + rest
  {
  }

  /** writeReply: fills the first REPLY_LEN bytes of b and nothing else. */
  method WriteReply(b: array<byte>, mac: Mac, key: Key, r: Reply)
    requires b.Length >= REPLY_LEN && NonceFits(r.nonce)
    modifies b
    ensures b[..] == SignedReply(mac, key, r) + old(b[REPLY_LEN..])
  {
    hide Filled, Zeros, BigEndian, PutInt64;
    ghost var n, rest := REPLY_LEN, b[REPLY_LEN..];
    ghost var h := [];
    Clear(b, REPLY_LEN, rest);
    Append(b, h, MAGIC, 0, n, rest);
    h := h + MAGIC;
    Append(b, h, [VERSION, r.status], 4, n, rest);
    h := h + [VERSION, r.status];
    Append(b, h, BigEndian(r.seqNo, 4), 6, n, rest);
    h := h + BigEndian(r.seqNo, 4);
    Append(b, h, r.nonce.octets, 10, n, rest);
    h := h + r.nonce.octets;
    Append(b, h, PutInt64(r.clock), 26, n, rest);
    h := h + PutInt64(r.clock);
    PadTo(b[..], h, 48, n, rest);
    assert h + Zeros(14) == ReplyBody(r) by { assert [] + MAGIC == MAGIC; }
    var t := Tag(mac, key, REP_DOMAIN, b[..48]);
    Append(b, h + Zeros(14), t, 48, n, rest);
    FullIs(b[..], SignedReply(mac, key, r), rest);
  }

  /** EncodeReply: writes the signed reply into the first bytes of dst, or
      nothing; what it writes parses back. */
  method EncodeReply(dst: array<byte>, mac: Mac, key: Key, r: Reply) returns (res: Result<nat>)
    requires NonceFits(r.nonce)
    modifies dst
    ensures res == if dst.Length < REPLY_LEN then Err(ErrLength)
                   else if r.status > STATUS_RATE_LIMITED then Err(ErrStatus) else Ok(REPLY_LEN)
    ensures res.Err? ==> dst[..] == old(dst[..])
    ensures res.Ok? ==> dst[..] == SignedReply(mac, key, r) + old(dst[REPLY_LEN..])
    ensures res.Ok? ==> ParseReply(mac, key, dst[..REPLY_LEN]) == Ok(r)
  {
    hide SignedReply, ParseReply;
    if dst.Length < REPLY_LEN {
      return Err(ErrLength);
    }
    if r.status > STATUS_RATE_LIMITED {
      return Err(ErrStatus);
    }
    WriteReply(dst, mac, key, r);
    ReplyRoundTrip(mac, key, r);
    assert dst[..REPLY_LEN] == SignedReply(mac, key, r);
    res := Ok(REPLY_LEN);
  }

  // Key derivation input

  /** lp(x): x's length as four big-endian bytes, then x. */
  function LengthPrefixed(x: bytes): bytes { BigEndian(|x|, 4) + x }

  function Joined(xs: seq<bytes>): bytes {
    if xs == [] then [] else LengthPrefixed(xs[0]) + Joined(xs[1..])
  }

  /** Different lists of inputs never give the same bytes. */
  lemma {:induction false} JoinedInjective(xs: seq<bytes>, ys: seq<bytes>)
    requires forall x :: x in xs ==> |x| < 0x1_0000_0000
    requires forall y :: y in ys ==> |y| < 0x1_0000_0000
    requires Joined(xs) == Joined(ys)
    ensures xs == ys
  {
    hide LengthPrefixed;
    JoinedEmpty(xs);
    JoinedEmpty(ys);
    if xs != [] && ys != [] {
      assert xs[0] in xs && ys[0] in ys;
      SplitPrefixed(xs[0], Joined(xs[1..]), ys[0], Joined(ys[1..]));
      JoinedInjective(xs[1..], ys[1..]);
      assert xs == [xs[0]] + xs[1..] && ys == [ys[0]] + ys[1..];
    }
  }

  lemma JoinedEmpty(xs: seq<bytes>)
    ensures Joined(xs) == [] <==> xs == []
  {
  }

  /** A length-prefixed input ends where its length says. */
  lemma SplitPrefixed(x: bytes, rest: bytes, y: bytes, more: bytes)
    requires |x| < 0x1_0000_0000 && |y| < 0x1_0000_0000
    requires LengthPrefixed(x) + rest == LengthPrefixed(y) + more
    ensures x == y && rest == more
  {
    var a, b := LengthPrefixed(x) + rest, LengthPrefixed(y) + more;
    assert a[..4] == BigEndian(|x|, 4) && b[..4] == BigEndian(|y|, 4);
    Word32RoundTrip(|x|);
    Word32RoundTrip(|y|);
    assert a[4..][..|x|] == x && a[4..][|x|..] == rest;
    assert b[4..][..|y|] == y && b[4..][|y|..] == more;
  }

  /** "lattice-beacon/v1" */
  const DERIVATION_LABEL: bytes :=
    [0x6C, 0x61, 0x74, 0x74, 0x69, 0x63, 0x65, 0x2D, 0x62, 0x65, 0x61, 0x63, 0x6F, 0x6E, 0x2F, 0x76, 0x31]

  function DerivationInput(sourceId: uint32, epoch: uint32): bytes {
    Joined([DERIVATION_LABEL, BigEndian(sourceId, 4), BigEndian(epoch, 4)])
  }

  /** Each source and epoch derives its path key from an input of its own. */
  lemma DerivationInputInjective(s: uint32, e: uint32, s': uint32, e': uint32)
    requires DerivationInput(s, e) == DerivationInput(s', e')
    ensures s == s' && e == e'
  {
    var xs, ys := [DERIVATION_LABEL, BigEndian(s, 4), BigEndian(e, 4)],
      [DERIVATION_LABEL, BigEndian(s', 4), BigEndian(e', 4)];
    JoinedInjective(xs, ys);
    assert xs[1] == ys[1] && xs[2] == ys[2];
    Word32RoundTrip(s);
    Word32RoundTrip(s');
    Word32RoundTrip(e);
    Word32RoundTrip(e');
  }

  /** The input byte by byte: the label, the source and the epoch, each after
      its length. */
  lemma DerivationLayout(sourceId: uint32, epoch: uint32)
    ensures var d := DerivationInput(sourceId, epoch);
      && |d| == 37 && d[..4] == [0, 0, 0, 17] && d[4..21] == DERIVATION_LABEL
      && d[21..25] == [0, 0, 0, 4] && Word32(d[25..29]) == sourceId
      && d[29..33] == [0, 0, 0, 4] && Word32(d[33..37]) == epoch
  {
    var src, ep := BigEndian(sourceId, 4), BigEndian(epoch, 4);
    Word32RoundTrip(sourceId);
    Word32RoundTrip(epoch);
    SmallLength(17);
    SmallLength(4);
    JoinedThree(DERIVATION_LABEL, src, ep);
    LayoutOfThree(BigEndian(17, 4), DERIVATION_LABEL, BigEndian(4, 4), src, ep);
  }

  lemma SmallLength(n: nat)
    requires n < 256
    ensures BigEndian(n, 4) == [0, 0, 0, n]
  {
    assert BigEndian(0, 0) == [];
    assert BigEndian(0, 1) == [0];
    assert BigEndian(0, 2) == [0, 0];
    assert BigEndian(0, 3) == [0, 0, 0];
  }

  lemma JoinedThree(a: bytes, b: bytes, c: bytes)
    ensures Joined([a, b, c]) == LengthPrefixed(a) + (LengthPrefixed(b) + LengthPrefixed(c))
  {
    hide LengthPrefixed;
    assert [a, b, c][1..] == [b, c] && [b, c][1..] == [c] && [c][1..] == [];
    assert Joined([c]) == LengthPrefixed(c) + Joined([]) == LengthPrefixed(c);
    assert Joined([b, c]) == LengthPrefixed(b) + Joined([c]);
    assert Joined([a, b, c]) == LengthPrefixed(a) + Joined([b, c]);
  }

  lemma LayoutOfThree(m: bytes, a: bytes, n: bytes, b: bytes, c: bytes)
    requires |m| == 4 && |a| == 17 && |n| == 4 && |b| == 4 && |c| == 4
    ensures var d := (m + a) + ((n + b) + (n + c));
      && |d| == 37 && d[..4] == m && d[4..21] == a && d[21..25] == n && d[25..29] == b && d[29..33] == n
          && d[33..37] == c
  {
  }

  /** A request byte by byte. */
  lemma RequestLayout(mac: Mac, key: Key, r: Request)
    requires NonceFits(r.nonce)
    ensures var p := SignedRequest(mac, key, r);
      && |p| == 96 && p[..5] == [0x4C, 0x54, 0x42, 0x31, 1]
      && Word32(p[5..9]) == r.epoch && Word32(p[9..13]) == r.sourceId && Word32(p[13..17]) == r.seqNo
      && GetInt64(p[17..25]) == r.sent && p[25..41] == r.nonce.octets
      && (forall i :: 41 <= i < 80 ==> p[i] == 0) && p[80..] == mac(key, [0x72, 0x65, 0x71] + p[..80])[..16]
  {
    hide BigEndian, PutInt64, Word32, GetInt64;
    var b, p := RequestBody(r), SignedRequest(mac, key, r);
    assert p[..80] == b && p[80..] == Tag(mac, key, REQ_DOMAIN, b);
    assert p[..5] == MAGIC + [VERSION];
    assert p[5..9] == BigEndian(r.epoch, 4) && p[9..13] == BigEndian(r.sourceId, 4);
    assert p[13..17] == BigEndian(r.seqNo, 4) && p[17..25] == PutInt64(r.sent) && p[25..41] == r.nonce.octets;
    assert p[41..80] == Zeros(39);
    assert forall i :: 41 <= i < 80 ==> p[i] == p[41..80][i - 41];
    Word32RoundTrip(r.epoch);
    Word32RoundTrip(r.sourceId);
    Word32RoundTrip(r.seqNo);
    Int64RoundTrip(r.sent);
  }

  /** A reply byte by byte. */
  lemma ReplyLayout(mac: Mac, key: Key, r: Reply)
    requires NonceFits(r.nonce)
    ensures var p := SignedReply(mac, key, r);
      && |p| == 64 && p[..5] == [0x4C, 0x54, 0x42, 0x31, 1] && p[5] == r.status
      && Word32(p[6..10]) == r.seqNo && p[10..26] == r.nonce.octets && GetInt64(p[26..34]) == r.clock
      && (forall i :: 34 <= i < 48 ==> p[i] == 0) && p[48..] == mac(key, [0x72, 0x65, 0x70] + p[..48])[..16]
  {
    hide BigEndian, PutInt64, Word32, GetInt64;
    var b, p := ReplyBody(r), SignedReply(mac, key, r);
    assert p[..48] == b && p[48..] == Tag(mac, key, REP_DOMAIN, b);
    assert p[..5] == MAGIC + [VERSION] && p[5] == r.status;
    assert p[6..10] == BigEndian(r.seqNo, 4) && p[10..26] == r.nonce.octets && p[26..34] == PutInt64(r.clock);
    assert p[34..48] == Zeros(14);
    assert forall i :: 34 <= i < 48 ==> p[i] == p[34..48][i - 34];
    Word32RoundTrip(r.seqNo);
    Int64RoundTrip(r.clock);
  }

  // Which error a frame is refused with

  predicate HasMagic(pkt: bytes) {
    |pkt| >= 5 && pkt[0] == 0x4C && pkt[1] == 0x54 && pkt[2] == 0x42 && pkt[3] == 0x31
  }

  predicate ZeroFrom(pkt: bytes, from: nat, to: nat) { forall i :: from <= i < to && i < |pkt| ==> pkt[i] == 0 }

  lemma MagicIff(pkt: bytes)
    requires |pkt| >= 5
    ensures pkt[..4] == MAGIC <==> HasMagic(pkt)
  {
    var head := pkt[..4];
    assert forall i :: 0 <= i < 4 ==> head[i] == pkt[i];
  }

  lemma ZeroIff(pkt: bytes, from: nat, to: nat)
    requires from <= to <= |pkt|
    ensures AllZero(pkt[from..to]) <==> ZeroFrom(pkt, from, to)
  {
    var pad := pkt[from..to];
    assert forall i :: 0 <= i < |pad| ==> pad[i] == pkt[i + from];
    assert forall i :: from <= i < to ==> pkt[i] == pad[i - from];
  }

  /** A request is refused for its length, its magic, its version or its
      padding, the first that is wrong. */
  lemma RequestErrors(pkt: bytes)
    ensures ParseRequest(pkt).Err? <==> !(|pkt| == 96 && HasMagic(pkt) && pkt[4] == 1 && ZeroFrom(pkt, 41, 80))
    ensures ParseRequest(pkt) == Err(ErrLength) <==> |pkt| != 96
    ensures ParseRequest(pkt) == Err(ErrMagic) <==> |pkt| == 96 && !HasMagic(pkt)
    ensures ParseRequest(pkt) == Err(ErrVersion) <==> |pkt| == 96 && HasMagic(pkt) && pkt[4] != 1
  {
    hide Fields, HasMagic, ZeroFrom, AllZero;
    if |pkt| == 96 {
      MagicIff(pkt);
      ZeroIff(pkt, 41, 80);
    }
  }

  /** A reply is refused for its length, its magic, its version, its padding,
      its tag or its status, the first that is wrong. */
  lemma ReplyErrors(mac: Mac, key: Key, pkt: bytes)
    ensures var r := ParseReply(mac, key, pkt);
      && (r == Err(ErrLength) <==> |pkt| != 64)
      && (r == Err(ErrMagic) <==> |pkt| == 64 && !HasMagic(pkt))
      && (r == Err(ErrVersion) <==> |pkt| == 64 && HasMagic(pkt) && pkt[4] != 1)
      && (r == Err(ErrPadding) <==> |pkt| == 64 && HasMagic(pkt) && pkt[4] == 1 && !ZeroFrom(pkt, 34, 48))
      && (r == Err(ErrStatus) ==> pkt[5] > 3) && (r.Ok? ==> pkt[5] <= 3)
      && r != Err(ErrIDs)
  {
    hide Tag, Word32, GetInt64, HasMagic, ZeroFrom, AllZero;
    if |pkt| == 64 {
      MagicIff(pkt);
      ZeroIff(pkt, 34, 48);
    }
  }
}
