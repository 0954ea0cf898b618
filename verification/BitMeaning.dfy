/** What the bit commands mean for each bit: which positions a range names, what BITOP does to a bit, and
    which number BITFIELD stores. */
module BitMeaning {
  import opened Wrappers
  import opened Bits
  import opened BitPos
  import opened BitRange
  import O = BitOp
  import F = BitField

  // ---------------------------------------------------------------------------------------
  // BITOP
  // ---------------------------------------------------------------------------------------

  /** In how many of the first `n` sources the bit is set; a source has zeroes after its end. */
  function SetIn(src: seq<seq<Byte>>, p: int, n: int): (c: int)
    requires 0 <= n <= |src|
    ensures 0 <= c <= n
    ensures c == n <==> forall i :: 0 <= i < n ==> PadBit(src[i], p)
    ensures c == 0 <==> forall i :: 0 <= i < n ==> !PadBit(src[i], p)
  {
    if n == 0 then 0 else SetIn(src, p, n - 1) + One(PadBit(src[n - 1], p))
  }

  predicate OneBit(m: Byte) {
    m == 0x80 || m == 0x40 || m == 0x20 || m == 0x10 || m == 0x08 || m == 0x04 || m == 0x02 || m == 0x01
  }

  predicate Has(a: Byte, m: Byte) {
    a & m != 0
  }

  lemma MaskedOps(a: Byte, b: Byte, m: Byte)
    requires OneBit(m)
    ensures Has(a & b, m) == (Has(a, m) && Has(b, m))
    ensures Has(a | b, m) == (Has(a, m) || Has(b, m))
    ensures Has(a ^ b, m) == (Has(a, m) != Has(b, m))
    ensures Has(!a, m) == !Has(a, m)
  {
  }

  /** The mask of a bit. */
  function MaskOf(k: int): (m: Byte)
    ensures OneBit(m)
  {
    if k == 0 then 0x80 else if k == 1 then 0x40 else if k == 2 then 0x20 else if k == 3 then 0x10
    else if k == 4 then 0x08 else if k == 5 then 0x04 else if k == 6 then 0x02 else 0x01
  }

  lemma BitByMask(a: Byte, k: int)
    requires 0 <= k < 8
    ensures BitOf(a, k) == Has(a, MaskOf(k))
  {
  }

  /** What one step of the fold does to a bit. */
  predicate StepBit(op: O.Op, a: bool, b: bool) {
    match op
    case AND => a && b
    case OR => a || b
    case XOR => a != b
    case NOT => a
  }

  lemma CombineBit(op: O.Op, a: Byte, b: Byte, k: int)
    requires 0 <= k < 8
    ensures BitOf(O.Combine(op, a, b), k) == StepBit(op, BitOf(a, k), BitOf(b, k))
    ensures BitOf(O.FirstByte(op, a), k) == if op.NOT? then !BitOf(a, k) else BitOf(a, k)
  {
    hide BitOf, OneBit, MaskOf, Has;
    MaskedOps(a, b, MaskOf(k));
    BitByMask(a, k);
    BitByMask(b, k);
    BitByMask(O.Combine(op, a, b), k);
    BitByMask(O.FirstByte(op, a), k);
  }

  lemma PadBitOf(s: seq<Byte>, j: int, k: int)
    requires 0 <= j && 0 <= k < 8
    ensures PadBit(s, 8 * j + k) == BitOf(PadByte(s, j), k)
  {
    if j < |s| {
      BitAt(s, j, k);
    }
  }

  /** What the fold of `n` sources holds at a bit. */
  ghost predicate FoldIs(op: O.Op, src: seq<seq<Byte>>, p: int, n: int, bit: bool)
    requires 1 <= n <= |src|
  {
    match op
    case AND => bit <==> SetIn(src, p, n) == n
    case OR => bit <==> SetIn(src, p, n) > 0
    case XOR => bit <==> SetIn(src, p, n) % 2 == 1
    case NOT => bit <==> !PadBit(src[0], p)
  }

  lemma {:induction false} FoldBit(op: O.Op, src: seq<seq<Byte>>, j: int, k: int, n: int)
    requires 1 <= n <= |src| && (op.NOT? ==> n == 1) && 0 <= j && 0 <= k < 8
    ensures FoldIs(op, src, 8 * j + k, n, BitOf(O.FoldByte(op, src, j, n), k))
    decreases n
  {
    hide BitOf, O.Combine, O.FirstByte, PadBit, PadByte;
    PadBitOf(src[n - 1], j, k);
    if n == 1 {
      CombineBit(op, PadByte(src[0], j), 0, k);
      assert SetIn(src, 8 * j + k, 0) == 0;
    } else {
      FoldBit(op, src, j, k, n - 1);
      CombineBit(op, O.FoldByte(op, src, j, n - 1), PadByte(src[n - 1], j), k);
    }
  }

  lemma {:induction false} LongestIsReached(src: seq<seq<Byte>>)
    requires src != []
    ensures exists i :: 0 <= i < |src| && |src[i]| == O.MaxLength(src)
    decreases |src|
  {
    var init := src[..|src| - 1];
    if |src[|src| - 1]| <= O.MaxLength(init) {
      if init != [] {
        LongestIsReached(init);
        var i :| 0 <= i < |init| && |init[i]| == O.MaxLength(init);
        assert src[i] == init[i];
      } else {
        assert |src[0]| == O.MaxLength(src);
      }
    } else {
      assert |src[|src| - 1]| == O.MaxLength(src);
    }
  }

  /** Every bit of a BITOP result: set in all sources, in some, in an odd number of them, or not set; and
      the result is as long as the longest source. */
  lemma BitopMeans(op: O.Op, src: seq<seq<Byte>>, res: seq<Byte>, p: int)
    requires src != [] && (op.NOT? ==> |src| == 1) && O.IsResult(op, src, res) && 0 <= p < 8 * |res|
    ensures FoldIs(op, src, p, |src|, Bit(res, p))
    ensures (forall i :: 0 <= i < |src| ==> |src[i]| <= |res|) && exists i :: 0 <= i < |src| && |src[i]| == |res|
  {
    hide BitOf, FoldIs;
    LongestIsReached(src);
    FoldBit(op, src, p / 8, p % 8, |src|);
    assert 8 * (p / 8) + p % 8 == p;
    assert res[p / 8] == O.FoldByte(op, src, p / 8, |src|);
  }

  // ---------------------------------------------------------------------------------------
  // Ranges
  // ---------------------------------------------------------------------------------------

  /** A negative index counts from the end. */
  function From(index: int, total: int): int {
    if index < 0 then total + index else index
  }

  /** The position is between the two indexes; an end before the beginning is the beginning. */
  predicate InSpan(start: int, end: int, total: int, p: int) {
    0 <= p < total && From(start, total) <= p && (p <= From(end, total) || (p == 0 && From(end, total) < 0))
  }

  lemma NormaliseMeans(start: int, end: int, total: int, p: int)
    requires 0 <= total
    ensures var (lo, hi) := Normalise(start, end, total);
            0 <= lo && hi < total && (lo <= p <= hi <==> InSpan(start, end, total, p))
  {
  }

  /** A bit position of a range in bits or in bytes. */
  predicate Names(start: int, end: int, isBit: bool, length: int, p: int) {
    0 <= p < 8 * length && if isBit then InSpan(start, end, 8 * length, p) else InSpan(start, end, length, p / 8)
  }

  lemma BitRangeMeans(start: int, end: int, isBit: bool, length: int, p: int)
    requires 0 <= length
    ensures var (lo, hi) := BitRangeOf(start, end, isBit, length);
            0 <= lo && hi < 8 * length && (lo <= p <= hi <==> Names(start, end, isBit, length, p))
  {
    NormaliseMeans(start, end, if isBit then 8 * length else length, if isBit then p else p / 8);
    hide Normalise, InSpan;
  }

  function SetBits(s: seq<Byte>, lo: int, hi: int): set<int> {
    set p | lo <= p < hi && 0 <= p < 8 * |s| && Bit(s, p)
  }

  lemma {:induction false} CountIsSize(s: seq<Byte>, lo: int, hi: int)
    requires 0 <= lo <= hi <= 8 * |s|
    ensures CountBits(s, lo, hi) == |SetBits(s, lo, hi)|
    decreases hi - lo
  {
    hide Bit;
    if lo == hi {
      assert SetBits(s, lo, hi) == {};
    } else {
      CountIsSize(s, lo, hi - 1);
      assert SetBits(s, lo, hi) == SetBits(s, lo, hi - 1) + if Bit(s, hi - 1) then {hi - 1} else {};
    }
  }

  /** BITCOUNT counts the positions that the range names and that hold a one; a range with both ends
      negative and in the wrong order names nothing. */
  predicate Counts(s: seq<Byte>, range: Option<Range>, p: int) {
    0 <= p < 8 * |s| &&
    match range
    case None => true
    case Some(r) => !(r.start < 0 && r.end < 0 && r.start > r.end) && Names(r.start, r.end, r.isBit, |s|, p)
  }

  lemma BitcountMeans(s: seq<Byte>, range: Option<Range>)
    ensures BitCountOf(s, range) == |set p | 0 <= p < 8 * |s| && Counts(s, range, p) && Bit(s, p)|
  {
    hide Bit, CountBits;
    var named := set p | 0 <= p < 8 * |s| && Counts(s, range, p) && Bit(s, p);
    match range
    case None =>
      CountIsSize(s, 0, 8 * |s|);
      assert named == SetBits(s, 0, 8 * |s|);
    case Some(r) =>
      var (lo, hi) := BitRangeOf(r.start, r.end, r.isBit, |s|);
      forall p ensures 0 <= lo && hi < 8 * |s| && (lo <= p <= hi <==> Names(r.start, r.end, r.isBit, |s|, p)) {
        BitRangeMeans(r.start, r.end, r.isBit, |s|, p);
      }
      hide Names, BitRangeOf;
      if (r.start < 0 && r.end < 0 && r.start > r.end) || lo > hi || hi < 0 {
        assert named == {};
      } else {
        CountIsSize(s, lo, hi + 1);
        assert named == SetBits(s, lo, hi + 1);
      }
  }

  /** The positions that BITPOS looks at: to the end of the string if no end is given. */
  predicate LooksAt(s: seq<Byte>, span: Option<Span>, p: int) {
    0 <= p < 8 * |s| &&
    match span
    case None => true
    case Some(r) => Names(r.start, if r.end.Some? then r.end.value else |s| - 1, r.isBit, |s|, p)
  }

  /** BITPOS gives the least position that it looks at with the bit; if there is none, the position after
      the string for a clear bit without an end, and -1 otherwise or if it looks at nothing. */
  lemma BitposMeans(s: seq<Byte>, bit: bool, span: Option<Span>, reply: int)
    requires BitPosOf(Some(s), bit, span, reply)
    ensures if exists p :: LooksAt(s, span, p) && Bit(s, p) == bit then
              && LooksAt(s, span, reply) && Bit(s, reply) == bit
              && forall q :: LooksAt(s, span, q) && q < reply ==> Bit(s, q) != bit
            else if (exists p :: LooksAt(s, span, p)) && !bit && !(span.Some? && span.value.end.Some?) then
              reply == 8 * |s|
            else reply == -1
  {
    hide Bit;
    var (lo, hi) := match span
      case None => (0, 8 * |s| - 1)
      case Some(r) => BitRangeOf(r.start, if r.end.Some? then r.end.value else |s| - 1, r.isBit, |s|);
    forall p ensures lo <= p <= hi <==> LooksAt(s, span, p) {
      if span.Some? {
        var r := span.value;
        BitRangeMeans(r.start, if r.end.Some? then r.end.value else |s| - 1, r.isBit, |s|, p);
      }
    }
    hide LooksAt, BitRangeOf;
    if lo <= hi {
      assert LooksAt(s, span, lo);
    }
  }

  // ---------------------------------------------------------------------------------------
  // BITFIELD
  // ---------------------------------------------------------------------------------------

  function Least(bits: int, signed: bool): int {
    if signed then -F.Pow2(bits - 1) else 0
  }

  function Greatest(bits: int, signed: bool): int {
    if signed then F.Pow2(bits - 1) - 1 else F.Pow2(bits) - 1
  }

  function Distance(a: int, b: int): int {
    if a < b then b - a else a - b
  }

  /** What an operation makes of a sum: itself in the range; outside it the number with the same low bits,
      the nearest one, or nothing. */
  lemma OutcomeMeans(sum: int, op: F.FieldOp)
    requires 1 <= op.bits
    ensures var (least, greatest, r) := (Least(op.bits, op.signed), Greatest(op.bits, op.signed), F.Outcome(sum, op));
            && (least <= sum <= greatest ==> r == Some(sum))
            && (!(least <= sum <= greatest) && op.ow.Fail? ==> r == None)
            && (!(least <= sum <= greatest) && !op.ow.Fail? ==>
                  && r.Some? && least <= r.value <= greatest
                  && (op.ow.Wrap? ==> (r.value - sum) % F.Pow2(op.bits) == 0)
                  && (op.ow.Sat? ==> forall v :: least <= v <= greatest ==> Distance(r.value, sum) <= Distance(v, sum)))
  {
    F.PowDouble(op.bits);
    var m := F.Pow2(op.bits);
    hide F.Pow2;
    if op.ow.Wrap? {
      ModRange(sum, m);
      SameModulo(sum, m);
    }
  }

  lemma ModRange(x: int, m: int)
    requires m > 0
    ensures 0 <= x % m < m
  {
  }

  lemma SameModulo(x: int, m: int)
    requires m > 0
    ensures (x % m - x) % m == 0 && (x % m - m - x) % m == 0
  {
    var q := x / m;
    assert x == q * m + x % m;
    MultipleIsZero(-q, m);
    MultipleIsZero(-q - 1, m);
    assert x % m - x == -q * m;
    assert x % m - m - x == (-q - 1) * m;
  }

  lemma MultipleIsZero(q: int, m: int)
    requires m > 0
    ensures (q * m) % m == 0
  {
    F.DivModUnique(q * m, m, q, 0);
  }

  /** The stored number, read as two's complement if it is signed: its low bits are those of the field. */
  lemma StoredMeans(s: seq<Byte>, op: F.FieldOp)
    requires 1 <= op.bits
    ensures var (v, u) := (F.Stored(s, op), F.Field(s, op.offset, op.bits));
            && Least(op.bits, op.signed) <= v <= Greatest(op.bits, op.signed)
            && (v == u || v == u - F.Pow2(op.bits))
  {
    F.PowDouble(op.bits);
    hide F.Pow2, F.Field;
  }

  /** Bit by bit, the most significant first. */
  lemma {:induction false} FieldMeans(s: seq<Byte>, offset: int, bits: int, k: int)
    requires 0 <= k < bits
    ensures (F.Field(s, offset, bits) / F.Pow2(bits - 1 - k)) % 2 == One(PadBit(s, offset + k))
    decreases bits
  {
    hide PadBit;
    var u := F.Field(s, offset, bits - 1);
    var last := One(PadBit(s, offset + bits - 1));
    if k == bits - 1 {
      assert F.Pow2(0) == 1;
    } else {
      FieldMeans(s, offset, bits - 1, k);
      HalfOf(u, last, F.Pow2(bits - 2 - k));
      assert F.Pow2(bits - 1 - k) == 2 * F.Pow2(bits - 2 - k);
    }
  }

  lemma HalfOf(u: int, last: int, m: int)
    requires m > 0 && 0 <= last <= 1
    ensures (2 * u + last) / (2 * m) == u / m
  {
    var (q, r) := (u / m, u % m);
    assert u == q * m + r;
    F.DivModUnique(2 * u + last, 2 * m, q, 2 * r + last);
  }
}
