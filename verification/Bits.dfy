/** Strings of bytes as strings of bits, bit 0 being the most significant bit of the first byte. */
module Bits {
  type Byte = bv8

  predicate BitOf(b: Byte, i: int) {
    if i == 0 then b & 0x80 != 0
    else if i == 1 then b & 0x40 != 0
    else if i == 2 then b & 0x20 != 0
    else if i == 3 then b & 0x10 != 0
    else if i == 4 then b & 0x08 != 0
    else if i == 5 then b & 0x04 != 0
    else if i == 6 then b & 0x02 != 0
    else b & 0x01 != 0
  }

  predicate Bit(s: seq<Byte>, p: int)
    requires 0 <= p < 8 * |s|
  {
    BitOf(s[p / 8], p % 8)
  }

  function One(b: bool): int {
    if b then 1 else 0
  }

  /** How many bits from `lo` up to `hi` are set: the bit-by-bit definition. */
  function CountBits(s: seq<Byte>, lo: int, hi: int): (n: int)
    requires 0 <= lo <= hi <= 8 * |s|
    ensures 0 <= n <= hi - lo
    decreases hi - lo
  {
    if lo == hi then 0 else CountBits(s, lo, hi - 1) + One(Bit(s, hi - 1))
  }

  lemma {:induction false} CountSplit(s: seq<Byte>, a: int, b: int, c: int)
    requires 0 <= a <= b <= c <= 8 * |s|
    ensures CountBits(s, a, c) == CountBits(s, a, b) + CountBits(s, b, c)
    decreases c - b
  {
    if b < c {
      CountSplit(s, a, b, c - 1);
    }
  }

  function ByteCount(b: Byte): (n: int)
    ensures 0 <= n <= 8
  {
    One(BitOf(b, 0)) + One(BitOf(b, 1)) + One(BitOf(b, 2)) + One(BitOf(b, 3))
    + One(BitOf(b, 4)) + One(BitOf(b, 5)) + One(BitOf(b, 6)) + One(BitOf(b, 7))
  }

  lemma BitAt(s: seq<Byte>, i: int, k: int)
    requires 0 <= i < |s| && 0 <= k < 8
    ensures Bit(s, 8 * i + k) == BitOf(s[i], k)
  {
    assert (8 * i + k) / 8 == i && (8 * i + k) % 8 == k;
  }

  lemma {:induction false} CountPart(s: seq<Byte>, i: int, k: int)
    requires 0 <= i < |s| && 0 <= k <= 8
    ensures CountBits(s, 8 * i, 8 * i + k) == PartCount(s[i], k)
    decreases k
  {
    if k > 0 {
      CountPart(s, i, k - 1);
      BitAt(s, i, k - 1);
    }
  }

  function PartCount(b: Byte, k: int): int {
    if k <= 0 then 0 else PartCount(b, k - 1) + One(BitOf(b, k - 1))
  }

  lemma PartIsWhole(b: Byte)
    ensures PartCount(b, 8) == ByteCount(b)
  {
    assert PartCount(b, 1) == One(BitOf(b, 0));
    assert PartCount(b, 2) == PartCount(b, 1) + One(BitOf(b, 1));
    assert PartCount(b, 4) == PartCount(b, 2) + One(BitOf(b, 2)) + One(BitOf(b, 3));
    assert PartCount(b, 6) == PartCount(b, 4) + One(BitOf(b, 4)) + One(BitOf(b, 5));
  }

  /** Counting a byte at a time. */
  lemma CountNext(s: seq<Byte>, i: int)
    requires 0 <= i < |s|
    ensures CountBits(s, 0, 8 * i + 8) == CountBits(s, 0, 8 * i) + ByteCount(s[i])
  {
    CountSplit(s, 0, 8 * i, 8 * i + 8);
    CountPart(s, i, 8);
    PartIsWhole(s[i]);
  }
}
