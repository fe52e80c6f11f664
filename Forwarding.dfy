/** The forwarding step of forwarding.cpp: check the IPv4 header checksum,
    then decrement the TTL and rewrite the checksum in place.

    calcIPChecksum is declared extern and defined in no file of this model;
    it is taken to be IPHeader::calc_checksum, i.e. calcChecksum over the
    first header_length bytes (Checksum.IpChecksum). */
module Forwarding {
  import opened Bytes
  import opened Checksum

  /** A buffer holding at least a full 20-byte IPv4 header. */
  predicate IsHeader(p: seq<byte>)
  {
    IPV4_HEADER_SIZE <= |p| && HeaderLength(p) <= |p|
  }

  /** The header with its checksum field (bytes 10 and 11) set to zero. */
  function ZeroChecksumField(p: seq<byte>): (r: seq<byte>)
    requires IsHeader(p)
  {
    p[10 := 0][11 := 0]
  }

  /** The uint16_t ~calcIPChecksum(...) stores after zeroing the field. */
  function NewChecksum(p: seq<byte>): uint16
    requires IsHeader(p)
  {
    0xFFFF - IpChecksum(ZeroChecksumField(p))
  }

  /** The packet after updateIPChecksum: only the checksum field changes, and
      it holds, in network order, the complement of the checksum of the header
      with that field zeroed. */
  function ChecksumUpdated(p: seq<byte>): (r: seq<byte>)
    requires IsHeader(p)
    ensures IsHeader(r) && |r| == |p|
    ensures forall i | 0 <= i < |p| && i != 10 && i != 11 :: r[i] == p[i]
    ensures ZeroChecksumField(r) == ZeroChecksumField(p)
    ensures BE16(r, 10) == 0xFFFF - IpChecksum(ZeroChecksumField(r))
  {
    var s := NewChecksum(p);
    var r := ZeroChecksumField(p)[10 := s / 0x100][11 := s % 0x100];
    assert ZeroChecksumField(r) == ZeroChecksumField(p);
    r
  }

  /** The packet after ttlDecrease: the uint8_t TTL goes down by one, from 0
      to 255. */
  function TtlDecreased(p: seq<byte>): (r: seq<byte>)
    requires IPV4_HEADER_SIZE <= |p|
    ensures |r| == |p| && HeaderLength(r) == HeaderLength(p)
    ensures r[8] == if p[8] == 0 then 0xFF else p[8] - 1
    ensures forall i | 0 <= i < |p| && i != 8 :: r[i] == p[i]
  {
    p[8 := (p[8] as int + 0xFF) % 0x100]
  }

  /** The packet after a successful forward: the TTL decreased, then the
      checksum recomputed over the decreased header. */
  function Forwarded(p: seq<byte>): (r: seq<byte>)
    requires IsHeader(p)
    ensures IsHeader(r) && |r| == |p|
    ensures r[8] == if p[8] == 0 then 0xFF else p[8] - 1
    ensures forall i | 0 <= i < |p| && i != 8 && i != 10 && i != 11 :: r[i] == p[i]
    ensures BE16(r, 10) == 0xFFFF - IpChecksum(ZeroChecksumField(r))
  {
    ChecksumUpdated(TtlDecreased(p))
  }

  /** ttlDecrease: header->ttl -= 1 on the buffer. */
  method TtlDecrease(packet: array<byte>)
    requires IPV4_HEADER_SIZE <= packet.Length
    modifies packet
    ensures packet[..] == TtlDecreased(old(packet[..]))
  {
    packet[8] := (packet[8] as int + 0xFF) % 0x100;
  }

  /** updateIPChecksum: zero the field, take the complement of calcIPChecksum
      and store it with htons. */
  method UpdateIPChecksum(packet: array<byte>)
    requires IsHeader(packet[..])
    modifies packet
    ensures packet[..] == ChecksumUpdated(old(packet[..]))
  {
    packet[10] := 0;
    packet[11] := 0;
    assert packet[..] == ZeroChecksumField(old(packet[..]));
    var c := ComputeChecksum(packet[..], HeaderLength(packet[..]));
    var s: uint16 := 0xFFFF - c;
    packet[10] := s / 0x100;
    packet[11] := s % 0x100;
  }

  /** forward: on a wrong header checksum return false and leave the buffer as
      it was; otherwise decrease the TTL, rewrite the checksum, return true. */
  method Forward(packet: array<byte>, len: nat) returns (ok: bool)
    requires IsHeader(packet[..]) && HeaderLength(packet[..]) <= len <= packet.Length
    modifies packet
    ensures ok == ValidateIPChecksum(old(packet[..]), len)
    ensures !ok ==> packet[..] == old(packet[..])
    ensures ok ==> packet[..] == Forwarded(old(packet[..]))
  {
    if !ValidateIPChecksum(packet[..], len) {
      return false;
    }
    TtlDecrease(packet);
    UpdateIPChecksum(packet);
    return true;
  }

  /** updateIPChecksum is idempotent: the field is zeroed before summing, so
      a second application recomputes the same value. */
  lemma UpdateIdempotent(p: seq<byte>)
    requires IsHeader(p)
    ensures ChecksumUpdated(ChecksumUpdated(p)) == ChecksumUpdated(p)
  {
    var r := ChecksumUpdated(p);
    var rr := ChecksumUpdated(r);
    assert NewChecksum(r) == NewChecksum(p);
    assert rr == ZeroChecksumField(p)[10 := NewChecksum(p) / 0x100][11 := NewChecksum(p) % 0x100];
  }

  /** The arithmetic behind UpdatedValidatesIff: s0 is the sum of the zeroed
      header, c the complement of its single-fold checksum; the sum with c
      added folds to 0xffff exactly when the first fold had no carry. */
  lemma ComplementFolds(s0: nat, c: uint16)
    requires s0 < 31 * WORD_MOD
    requires c == 0xFFFF - Fold(s0) % WORD_MOD
    ensures (Fold((s0 + c) % ACC_MOD) % WORD_MOD == 0xFFFF) <==> !FoldCarries(s0)
  {
    var h, l := s0 / WORD_MOD, s0 % WORD_MOD;
    DivModWord(s0, h, l);
    if h + l < WORD_MOD {
      assert s0 + c == h * WORD_MOD + (0xFFFF - h);
      DivModWord(s0 + c, h, 0xFFFF - h);
    } else {
      assert s0 + c == (h + 1) * WORD_MOD + (0xFFFF - h);
      DivModWord(s0 + c, h + 1, 0xFFFF - h);
    }
  }

  /** Splitting n = q * 2^16 + d with d a 16-bit value. */
  lemma DivModWord(n: int, q: int, d: int)
    requires 0 <= d < WORD_MOD && n == q * WORD_MOD + d
    ensures n / WORD_MOD == q && n % WORD_MOD == d
  {
  }

  /** The accumulator over the zeroed header is the plain word sum, which
      stays below 31 * 2^16 for at most 30 words. */
  lemma ZeroedAccumulator(p: seq<byte>)
    requires IsHeader(p)
    ensures HeaderLength(ZeroChecksumField(p)) == HeaderLength(p)
    ensures Accumulator(ZeroChecksumField(p), HeaderLength(p)) == WordSum(ZeroChecksumField(p), HeaderLength(p) / 2)
    ensures WordSum(ZeroChecksumField(p), HeaderLength(p) / 2) < 31 * WORD_MOD
  {
    var z := ZeroChecksumField(p);
    var hl := HeaderLength(p);
    var n := hl / 2;
    WordSumBound(z, n);
    assert hl % 2 == 0 && (hl + 1) / 2 == n;
    assert WordSum(z, n) < 31 * WORD_MOD;
  }

  /** The accumulator over the rewritten header is the zeroed header's word
      sum plus the stored checksum word. */
  lemma UpdatedAccumulator(p: seq<byte>)
    requires IsHeader(p) && IPV4_HEADER_SIZE <= HeaderLength(p)
    ensures HeaderLength(ChecksumUpdated(p)) == HeaderLength(p)
    ensures Accumulator(ChecksumUpdated(p), HeaderLength(p))
         == (WordSum(ZeroChecksumField(p), HeaderLength(p) / 2) + NewChecksum(p)) % ACC_MOD
  {
    var z := ZeroChecksumField(p);
    var r := ChecksumUpdated(p);
    var hl := HeaderLength(p);
    var n := hl / 2;
    assert HeaderLength(z) == hl && HeaderLength(r) == hl;
    assert hl % 2 == 0 && (hl + 1) / 2 == n;
    WordSumReplaceWord(z, r, n, 5);
    assert BE16(z, 10) == 0 && BE16(r, 10) == NewChecksum(p);
  }

  /** The rewritten header validates again exactly when the single fold of
      calcChecksum over the zeroed header leaves no carry. With a carry (for
      instance when the zeroed header's words sum to 0x1FFFF) the truncation
      loses it, and the rewritten header fails validateIPChecksum. */
  lemma UpdatedValidatesIff(p: seq<byte>)
    requires IsHeader(p) && IPV4_HEADER_SIZE <= HeaderLength(p)
    ensures ValidateIPChecksum(ChecksumUpdated(p), HeaderLength(p))
        <==> !FoldCarries(Accumulator(ZeroChecksumField(p), HeaderLength(p)))
  {
    var s0 := WordSum(ZeroChecksumField(p), HeaderLength(p) / 2);
    ZeroedAccumulator(p);
    UpdatedAccumulator(p);
    ComplementFolds(s0, NewChecksum(p));
  }

  /** After forward succeeds, the packet validates again exactly when the
      single fold over the decreased, zeroed header leaves no carry. */
  lemma ForwardedValidatesIff(p: seq<byte>, len: nat)
    requires IsHeader(p) && IPV4_HEADER_SIZE <= HeaderLength(p) <= len <= |p|
    ensures ValidateIPChecksum(Forwarded(p), len)
        <==> !FoldCarries(Accumulator(ZeroChecksumField(TtlDecreased(p)), HeaderLength(p)))
  {
    var t := TtlDecreased(p);
    assert HeaderLength(t) == HeaderLength(p);
    UpdatedValidatesIff(t);
    assert HeaderLength(Forwarded(p)) == HeaderLength(p);
  }

  /** A 20-byte header whose zeroed words sum to 0x1FFFF (0x4500 + 0xFFFF +
      0xBB00): updateIPChecksum stores 0xFFFF, and the result fails
      validateIPChecksum, so the rewrite does not always validate. */
  lemma UpdateCanBreakValidation()
    ensures var p := [0x45, 0, 0xFF, 0xFF, 0xBB, 0, 0, 0, 0, 0, 0, 0, 0, 0, 0, 0, 0, 0, 0, 0];
            IsHeader(p) && IPV4_HEADER_SIZE <= HeaderLength(p) &&
            BE16(ChecksumUpdated(p), 10) == 0xFFFF &&
            !ValidateIPChecksum(ChecksumUpdated(p), HeaderLength(p))
  {
    var p: seq<byte> := [0x45, 0, 0xFF, 0xFF, 0xBB, 0, 0, 0, 0, 0, 0, 0, 0, 0, 0, 0, 0, 0, 0, 0];
    var z := ZeroChecksumField(p);
    assert HeaderLength(p) == 20;
    assert z == p;
    assert WordSum(z, 1) == 0x4500;
    assert WordSum(z, 2) == 0x144FF;
    assert WordSum(z, 3) == 0x1FFFF;
    assert WordSum(z, 4) == 0x1FFFF;
    assert WordSum(z, 5) == 0x1FFFF;
    assert WordSum(z, 6) == 0x1FFFF;
    assert WordSum(z, 7) == 0x1FFFF;
    assert WordSum(z, 8) == 0x1FFFF;
    assert WordSum(z, 9) == 0x1FFFF;
    assert WordSum(z, 10) == 0x1FFFF;
    assert Accumulator(z, 20) == 0x1FFFF;
    assert NewChecksum(p) == 0xFFFF;
    UpdatedValidatesIff(p);
  }

  /** A 20-byte header with TTL 1 whose words sum to 0x2FFFD, which folds to
      0xffff. */
  const FORWARD_WITNESS: seq<byte> :=
    [0x45, 0, 0xFF, 0xFF, 0, 0, 0, 0, 0x01, 0x11, 0xFE, 0xFE, 0xBA, 0xEF, 0, 0, 0, 0, 0, 0]

  /** The witness passes validateIPChecksum. */
  lemma WitnessValidates()
    ensures IsHeader(FORWARD_WITNESS) && HeaderLength(FORWARD_WITNESS) == 20
    ensures ValidateIPChecksum(FORWARD_WITNESS, 20)
  {
    var p := FORWARD_WITNESS;
    assert HeaderLength(p) == 20;
    assert WordSum(p, 1) == 0x4500;
    assert WordSum(p, 2) == 0x144FF;
    assert WordSum(p, 4) == WordSum(p, 2);
    assert WordSum(p, 5) == 0x14610;
    assert WordSum(p, 6) == 0x2450E;
    assert WordSum(p, 7) == 0x2FFFD;
    assert WordSum(p, 8) == WordSum(p, 7);
    assert WordSum(p, 9) == WordSum(p, 8);
    assert WordSum(p, 10) == WordSum(p, 9);
    assert Accumulator(p, 20) == 0x2FFFD;
  }

  /** After the TTL decrement the witness's zeroed words sum to 0x1FFFF. */
  lemma WitnessDecreasedSum()
    ensures IsHeader(FORWARD_WITNESS)
    ensures Accumulator(ZeroChecksumField(TtlDecreased(FORWARD_WITNESS)), 20) == 0x1FFFF
  {
    var z := ZeroChecksumField(TtlDecreased(FORWARD_WITNESS));
    assert z == [0x45, 0, 0xFF, 0xFF, 0, 0, 0, 0, 0x00, 0x11, 0, 0, 0xBA, 0xEF, 0, 0, 0, 0, 0, 0];
    assert WordSum(z, 1) == 0x4500;
    assert WordSum(z, 2) == 0x144FF;
    assert WordSum(z, 4) == WordSum(z, 2);
    assert WordSum(z, 5) == 0x14510;
    assert WordSum(z, 6) == WordSum(z, 5);
    assert WordSum(z, 7) == 0x1FFFF;
    assert WordSum(z, 8) == WordSum(z, 7);
    assert WordSum(z, 9) == WordSum(z, 8);
    assert WordSum(z, 10) == WordSum(z, 9);
  }

  /** forward succeeds on the witness, yet the packet it leaves fails
      validateIPChecksum: the decremented, zeroed header sums to 0x1FFFF, and
      the single fold loses that carry. */
  lemma ForwardCanBreakValidation()
    ensures IsHeader(FORWARD_WITNESS) && HeaderLength(FORWARD_WITNESS) == 20
    ensures ValidateIPChecksum(FORWARD_WITNESS, 20)
    ensures !ValidateIPChecksum(Forwarded(FORWARD_WITNESS), 20)
  {
    WitnessValidates();
    WitnessDecreasedSum();
    ForwardedValidatesIff(FORWARD_WITNESS, 20);
  }
}
