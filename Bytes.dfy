/** Byte-level vocabulary shared by the router's data-plane modules: the C
    fixed-width integer types, network-order 16-bit fields, the in-memory
    form of raw 32-bit fields, and an optional result. */
module Bytes {

  /** uint8_t: one octet of a packet buffer. */
  type byte = x: int | 0 <= x < 0x100
  /** uint16_t. */
  type uint16 = x: int | 0 <= x < 0x1_0000
  /** uint32_t. */
  type uint32 = x: int | 0 <= x < 0x1_0000_0000

  datatype Option<+T> = None | Some(value: T)

  /** The 16-bit field at offset i in network (big-endian) order, i.e. what
      ntohs gives for it: the first byte is the high byte. */
  function BE16(b: seq<byte>, i: nat): uint16
    requires i + 2 <= |b|
  {
    b[i] as int * 0x100 + b[i + 1]
  }

  /** The four bytes a uint32_t occupies in memory on the little-endian host
      the C++ code targets; raw address fields are copied between structs and
      packets in this form (1.2.3.4 on the wire is the integer 0x04030201). */
  function Store32(v: uint32): (r: seq<byte>)
    ensures |r| == 4
  {
    [v % 0x100, v / 0x100 % 0x100, v / 0x1_0000 % 0x100, v / 0x100_0000]
  }

  /** The uint32_t a little-endian host loads from the four bytes at offset i. */
  function Load32(b: seq<byte>, i: nat): uint32
    requires i + 4 <= |b|
  {
    b[i] as int + b[i + 1] as int * 0x100 + b[i + 2] as int * 0x1_0000 + b[i + 3] as int * 0x100_0000
  }

  lemma LoadStore32(v: uint32)
    ensures Load32(Store32(v), 0) == v
  {
    var q1, q2, q3 := v / 0x100, v / 0x1_0000, v / 0x100_0000;
    assert q1 / 0x100 == q2;
    assert q2 / 0x100 == q3;
  }

  lemma StoreLoad32(b: seq<byte>, i: nat)
    requires i + 4 <= |b|
    ensures Store32(Load32(b, i)) == b[i..i + 4]
  {
    var b0, b1, b2, b3 := b[i] as int, b[i + 1] as int, b[i + 2] as int, b[i + 3] as int;
    var v := Load32(b, i);
    var q1 := b1 + b2 * 0x100 + b3 * 0x1_0000;
    var q2 := b2 + b3 * 0x100;
    assert v == b0 + q1 * 0x100;
    DivModDigit(v, b0, q1);
    assert q1 == b1 + q2 * 0x100;
    DivModDigit(q1, b1, q2);
    assert q2 == b2 + b3 * 0x100;
    DivModDigit(q2, b2, b3);
    assert v / 0x1_0000 == q1 / 0x100;
    assert v / 0x100_0000 == q2 / 0x100;
  }

  /** Splitting off the low byte of n = d + q * 256. */
  lemma DivModDigit(n: int, d: int, q: int)
    requires 0 <= d < 0x100 && n == d + q * 0x100
    ensures n % 0x100 == d && n / 0x100 == q
  {
  }

  /** s with the bytes from offset off on replaced by t: the effect of
      writing t into a buffer at off. */
  function Overwrite(s: seq<byte>, off: nat, t: seq<byte>): (r: seq<byte>)
    requires off + |t| <= |s|
    ensures |r| == |s|
    ensures forall k | 0 <= k < |s| :: r[k] == if off <= k < off + |t| then t[k - off] else s[k]
  {
    s[..off] + t + s[off + |t|..]
  }

  /** A slice whose two halves at j are h and t is h + t. */
  lemma SliceSplit(s: seq<byte>, i: nat, j: nat, k: nat, h: seq<byte>, t: seq<byte>)
    requires i <= j <= k <= |s| && s[i..j] == h && s[j..k] == t
    ensures s[i..k] == h + t
  {
  }

  /** Loading inside x ignores what follows x. */
  lemma Load32Prefix(x: seq<byte>, y: seq<byte>, i: nat)
    requires i + 4 <= |x|
    ensures Load32(x + y, i) == Load32(x, i)
  {
  }

  /** Loading at |x| + j in x + t loads at j in t. */
  lemma Load32Suffix(x: seq<byte>, t: seq<byte>, j: nat)
    requires j + 4 <= |t|
    ensures Load32(x + t, |x| + j) == Load32(t, j)
  {
  }

  /** Four bytes that hold Store32(v) load as v. */
  lemma LoadStoredAt(b: seq<byte>, i: nat, v: uint32)
    requires i + 4 <= |b| && b[i..i + 4] == Store32(v)
    ensures Load32(b, i) == v
  {
    LoadStore32(v);
    assert b[i] == Store32(v)[0] && b[i + 1] == Store32(v)[1];
    assert b[i + 2] == Store32(v)[2] && b[i + 3] == Store32(v)[3];
  }

  /** Two adjacent writes are one write of their concatenation. */
  lemma OverwriteAdjacent(s: seq<byte>, off: nat, t: seq<byte>, u: seq<byte>)
    requires off + |t| + |u| <= |s|
    ensures Overwrite(Overwrite(s, off, t), off + |t|, u) == Overwrite(s, off, t + u)
  {
  }
}
