/** The checksum engine and the IPv4/UDP header accessors of checksum.cpp.
    calcChecksum adds big-endian 16-bit words into a 32-bit accumulator,
    folds the carry ONCE and truncates to 16 bits; the UDP checksum adds a
    pseudo-header and folds twice. Both are modelled as written. */
module Checksum {
  import opened Bytes

  /** 2^16: the modulus of a 16-bit word. */
  const WORD_MOD := 0x1_0000
  /** 2^32: the modulus of the uint32_t accumulator. */
  const ACC_MOD := 0x1_0000_0000
  /** Ones'-complement arithmetic on 16-bit words is arithmetic modulo 2^16 - 1. */
  const ONES_MOD := 0xFFFF

  const IPV4_HEADER_SIZE := 20
  const IPPROTO_UDP := 17
  const UDP_HEADER_SIZE := 8

  // ---------------------------------------------------------------------
  // calcChecksum
  // ---------------------------------------------------------------------

  /** Sum of the first n big-endian words of data (offsets 0, 2, ..., 2n - 2),
      as unbounded integers. */
  function WordSum(data: seq<byte>, n: nat): nat
    requires 2 * n <= |data|
  {
    if n == 0 then 0 else WordSum(data, n - 1) + BE16(data, 2 * (n - 1))
  }

  /** The bytes calcChecksum(data, len) reads lie inside data. For odd len its
      loop reads the word at len - 1, whose second half is data[len]. */
  predicate Readable(data: seq<byte>, len: nat)
  {
    len + len % 2 <= |data|
  }

  /** The uint32_t accumulator of calcChecksum before the fold: every word the
      loop reads, plus data[len - 1] once more when len is odd, wrapping
      modulo 2^32 as unsigned arithmetic does. */
  function Accumulator(data: seq<byte>, len: nat): uint32
    requires Readable(data, len)
  {
    (WordSum(data, (len + 1) / 2) + (if len % 2 == 1 then data[len - 1] else 0)) % ACC_MOD
  }

  /** One end-around-carry step: the low 16 bits plus the high 16 bits. */
  function Fold(s: nat): nat
  {
    s % WORD_MOD + s / WORD_MOD
  }

  /** The fold leaves a carry that the truncation to 16 bits discards. */
  predicate FoldCarries(s: nat)
  {
    Fold(s) >= WORD_MOD
  }

  /** The value calcChecksum(data, len) returns: one fold of the accumulator,
      truncated to uint16_t by the return. */
  function CalcChecksum(data: seq<byte>, len: nat): uint16
    requires Readable(data, len)
  {
    Fold(Accumulator(data, len)) % WORD_MOD
  }

  /** Wrapping after every addition equals wrapping once at the end. */
  lemma AccumulateWraps(a: nat, w: nat)
    ensures (a % ACC_MOD + w) % ACC_MOD == (a + w) % ACC_MOD
  {
    var q := a / ACC_MOD;
    assert a == q * ACC_MOD + a % ACC_MOD;
    assert (a + w) == q * ACC_MOD + (a % ACC_MOD + w);
  }

  /** calcChecksum: the word loop over a 32-bit accumulator, the odd-length
      addition, one fold, and the truncating return. */
  method ComputeChecksum(data: seq<byte>, len: nat) returns (r: uint16)
    requires Readable(data, len)
    ensures r == CalcChecksum(data, len)
  {
    var s: uint32 := 0;
    var i := 0;
    while i < len
      invariant i % 2 == 0 && i <= len + 1
      invariant s == WordSum(data, i / 2) % ACC_MOD
    {
      assert WordSum(data, (i + 2) / 2) == WordSum(data, i / 2) + BE16(data, i);
      AccumulateWraps(WordSum(data, i / 2), BE16(data, i));
      s := (s + BE16(data, i)) % ACC_MOD;
      i := i + 2;
    }
    assert i / 2 == (len + 1) / 2;
    if len % 2 == 1 {
      AccumulateWraps(WordSum(data, i / 2), data[len - 1]);
      s := (s + data[len - 1]) % ACC_MOD;
    }
    assert s == Accumulator(data, len);
    s := s % WORD_MOD + s / WORD_MOD;
    r := s % WORD_MOD;
  }

  /** Each word is at most 0xFFFF, so n words sum to at most n * 0xFFFF. */
  lemma {:induction false} WordSumBound(data: seq<byte>, n: nat)
    requires 2 * n <= |data|
    ensures WordSum(data, n) <= n * 0xFFFF
  {
    if n > 0 {
      WordSumBound(data, n - 1);
    }
  }

  /** For an even length whose words cannot overflow the 32-bit accumulator,
      calcChecksum is the sum S of the words folded once:
      (S mod 2^16 + S div 2^16) mod 2^16. */
  lemma EvenLengthChecksum(data: seq<byte>, len: nat)
    requires len % 2 == 0 && len <= |data|
    requires len / 2 * 0xFFFF < ACC_MOD
    ensures Readable(data, len)
    ensures var S := WordSum(data, len / 2);
            CalcChecksum(data, len) == (S % WORD_MOD + S / WORD_MOD) % WORD_MOD
  {
    WordSumBound(data, len / 2);
  }

  /** For an odd length the last word read is data[len - 1], data[len] (one
      byte past the range), and data[len - 1] is then added a second time, so
      the final byte counts 257 times instead of 256. */
  lemma OddLengthChecksum(data: seq<byte>, len: nat)
    requires len % 2 == 1 && len + 1 <= |data|
    ensures Readable(data, len)
    ensures Accumulator(data, len)
         == (WordSum(data, len / 2) + data[len - 1] as int * 0x101 + data[len]) % ACC_MOD
  {
    assert (len + 1) / 2 == len / 2 + 1;
  }

  /** A fold keeps the value modulo 2^16 - 1 (2^16 is 1 modulo 2^16 - 1). */
  lemma FoldCongruent(s: nat)
    ensures Fold(s) % ONES_MOD == s % ONES_MOD
  {
    var h, l := s / WORD_MOD, s % WORD_MOD;
    assert s == h * ONES_MOD + (h + l);
  }

  /** calcChecksum is the ones'-complement sum of its words (congruent to the
      accumulator modulo 2^16 - 1) exactly when its single fold leaves no
      carry; when it does, the discarded carry makes it one short. */
  lemma ChecksumIsOnesComplementSum(data: seq<byte>, len: nat)
    requires Readable(data, len)
    ensures !FoldCarries(Accumulator(data, len)) <==>
              CalcChecksum(data, len) % ONES_MOD == Accumulator(data, len) % ONES_MOD
    ensures FoldCarries(Accumulator(data, len)) ==>
              CalcChecksum(data, len) == Fold(Accumulator(data, len)) - WORD_MOD
  {
    var s := Accumulator(data, len);
    FoldCongruent(s);
    assert Fold(s) < 2 * WORD_MOD;
  }

  /** Two folds of a 32-bit value leave no carry: the second fold already
      fits in 16 bits and keeps the value modulo 2^16 - 1. */
  lemma FoldTwiceExact(s: nat)
    requires s < ACC_MOD
    ensures Fold(Fold(s)) < WORD_MOD
    ensures Fold(Fold(s)) % WORD_MOD == Fold(Fold(s))
    ensures Fold(Fold(s)) % ONES_MOD == s % ONES_MOD
  {
    FoldCongruent(s);
    FoldCongruent(Fold(s));
  }

  /** Two byte sequences that agree on the first 2n bytes have the same first
      n words. */
  lemma {:induction false} WordSumAgree(a: seq<byte>, b: seq<byte>, n: nat)
    requires 2 * n <= |a| && 2 * n <= |b|
    requires forall i | 0 <= i < 2 * n :: a[i] == b[i]
    ensures WordSum(a, n) == WordSum(b, n)
  {
    if n > 0 {
      WordSumAgree(a, b, n - 1);
      assert BE16(a, 2 * (n - 1)) == BE16(b, 2 * (n - 1));
    }
  }

  /** Changing only the word at index k < n changes the sum of the first n
      words by the difference of that word. */
  lemma {:induction false} WordSumReplaceWord(a: seq<byte>, b: seq<byte>, n: nat, k: nat)
    requires |a| == |b| && 2 * n <= |a| && k < n
    requires forall i | 0 <= i < |a| && i != 2 * k && i != 2 * k + 1 :: a[i] == b[i]
    ensures WordSum(b, n) == WordSum(a, n) - BE16(a, 2 * k) + BE16(b, 2 * k)
  {
    if k == n - 1 {
      WordSumAgree(a, b, n - 1);
    } else {
      WordSumReplaceWord(a, b, n - 1, k);
      assert BE16(a, 2 * (n - 1)) == BE16(b, 2 * (n - 1));
    }
  }

  // ---------------------------------------------------------------------
  // IPHeader: version_ihl at 0, total_length at 2-3, ttl at 8, protocol at 9,
  // checksum at 10-11, src_addr at 12-15, dst_addr at 16-19.
  // ---------------------------------------------------------------------

  /** get_header_length: (version_ihl & 0xf) * 4; on a byte, & 0xf is % 16. */
  function HeaderLength(p: seq<byte>): (r: nat)
    requires 1 <= |p|
    ensures r % 4 == 0 && r <= 60
  {
    (p[0] % 16) * 4
  }

  /** get_total_length. */
  function TotalLength(p: seq<byte>): uint16
    requires 4 <= |p|
  {
    BE16(p, 2)
  }

  /** get_payload_length: total length minus header length, computed in int
      and truncated to uint16_t, so it wraps when the header is the longer. */
  function PayloadLength(p: seq<byte>): (r: uint16)
    requires 4 <= |p|
    ensures TotalLength(p) >= HeaderLength(p) ==> r == TotalLength(p) - HeaderLength(p)
    ensures TotalLength(p) < HeaderLength(p) ==> r == WORD_MOD + TotalLength(p) - HeaderLength(p)
  {
    (TotalLength(p) - HeaderLength(p)) % WORD_MOD
  }

  function Ttl(p: seq<byte>): byte
    requires IPV4_HEADER_SIZE <= |p|
  {
    p[8]
  }

  function IpProtocol(p: seq<byte>): byte
    requires IPV4_HEADER_SIZE <= |p|
  {
    p[9]
  }

  /** The bytes of src_addr and dst_addr as they lie in the packet. */
  function SrcAddr(p: seq<byte>): (r: seq<byte>)
    requires IPV4_HEADER_SIZE <= |p|
  {
    p[12..16]
  }

  function DstAddr(p: seq<byte>): (r: seq<byte>)
    requires IPV4_HEADER_SIZE <= |p|
  {
    p[16..20]
  }

  /** IPHeader::calc_checksum: calcChecksum over the first header_length bytes. */
  function IpChecksum(p: seq<byte>): uint16
    requires 1 <= |p| && HeaderLength(p) <= |p|
  {
    CalcChecksum(p, HeaderLength(p))
  }

  /** validateIPChecksum(packet, len): the header's checksum is 0xffff. The
      doc comment guarantees that len covers the header; len is otherwise
      unused. */
  predicate ValidateIPChecksum(p: seq<byte>, len: nat)
    requires 1 <= |p| && HeaderLength(p) <= len <= |p|
  {
    IpChecksum(p) == 0xFFFF
  }

  /** validateIPChecksum depends only on the header bytes: neither len nor any
      byte past header_length changes its answer. */
  lemma ValidateReadsOnlyHeader(p: seq<byte>, lenP: nat, q: seq<byte>, lenQ: nat)
    requires 1 <= |p| && HeaderLength(p) <= lenP <= |p|
    requires 1 <= |q| && p[0] == q[0] && HeaderLength(q) <= lenQ <= |q|
    requires forall i | 0 <= i < HeaderLength(p) :: p[i] == q[i]
    ensures ValidateIPChecksum(p, lenP) == ValidateIPChecksum(q, lenQ)
  {
    assert HeaderLength(p) == HeaderLength(q);
    WordSumAgree(p, q, HeaderLength(p) / 2);
  }

  // ---------------------------------------------------------------------
  // UDPHeader: src_port at 0-1, dst_port at 2-3, length at 4-5, checksum at
  // 6-7, all in network order; u is the packet from the UDP header on.
  // ---------------------------------------------------------------------

  function UdpSrcPort(u: seq<byte>): uint16
    requires UDP_HEADER_SIZE <= |u|
  {
    BE16(u, 0)
  }

  function UdpDstPort(u: seq<byte>): uint16
    requires UDP_HEADER_SIZE <= |u|
  {
    BE16(u, 2)
  }

  function UdpLength(u: seq<byte>): uint16
    requires UDP_HEADER_SIZE <= |u|
  {
    BE16(u, 4)
  }

  /** The bytes UDPHeader::calc_checksum reads lie inside u: it sums
      sizeof(UDPHeader) + length bytes from the UDP header on, 8 more than
      the datagram that length describes (plus one for an odd count). */
  predicate UdpChecksumReadable(u: seq<byte>)
  {
    UDP_HEADER_SIZE <= |u| && Readable(u, UDP_HEADER_SIZE + UdpLength(u))
  }

  /** The uint32_t s of UDPHeader::calc_checksum before it folds: the
      datagram's calcChecksum, calcChecksum of the four bytes of each address,
      the protocol number 17 and calcChecksum of the two bytes of the length
      field. Each term is below 2^16, so s cannot wrap. */
  function UdpPseudoSum(u: seq<byte>, src: seq<byte>, dst: seq<byte>): nat
    requires UdpChecksumReadable(u) && |src| == 4 && |dst| == 4
  {
    CalcChecksum(u, UDP_HEADER_SIZE + UdpLength(u)) + CalcChecksum(src, 4) + CalcChecksum(dst, 4)
      + IPPROTO_UDP + CalcChecksum(u[4..6], 2)
  }

  /** UDPHeader::calc_checksum(src_addr, dst_addr), given the four bytes each
      address occupies in memory. Folding twice loses no carry, so the result
      is the ones'-complement sum of the terms, unlike calcChecksum. */
  function UdpChecksum(u: seq<byte>, src: seq<byte>, dst: seq<byte>): (r: uint16)
    requires UdpChecksumReadable(u) && |src| == 4 && |dst| == 4
    ensures r == Fold(Fold(UdpPseudoSum(u, src, dst)))
    ensures r % ONES_MOD == UdpPseudoSum(u, src, dst) % ONES_MOD
  {
    var s := UdpPseudoSum(u, src, dst);
    assert s < ACC_MOD;
    FoldTwiceExact(s);
    Fold(Fold(s)) % WORD_MOD
  }

  /** UDPHeader::calc_checksum as the straight-line accumulation it is. */
  method UdpCalcChecksum(u: seq<byte>, src: seq<byte>, dst: seq<byte>) returns (r: uint16)
    requires UdpChecksumReadable(u) && |src| == 4 && |dst| == 4
    ensures r == UdpChecksum(u, src, dst)
  {
    var c0 := ComputeChecksum(u, UDP_HEADER_SIZE + UdpLength(u));
    var s: uint32 := c0;
    var c1 := ComputeChecksum(src, 4);
    s := s + c1;
    var c2 := ComputeChecksum(dst, 4);
    s := s + c2;
    s := s + IPPROTO_UDP;
    var c3 := ComputeChecksum(u[4..6], 2);
    s := s + c3;
    s := s % WORD_MOD + s / WORD_MOD;
    s := s % WORD_MOD + s / WORD_MOD;
    r := s % WORD_MOD;
  }
}
