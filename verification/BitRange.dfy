/** BITCOUNT and BITPOS over a range of bytes or bits. */
module BitRange {
  import opened Wrappers
  import opened Bits
  import opened BitCount
  import opened BitPos

  // ---------------------------------------------------------------------------------------
  // Masks at the edges
  // ---------------------------------------------------------------------------------------

  /** The first `i` bits of a byte. */
  function FirstNegMask(i: int): Byte
    requires 0 <= i < 8
  {
    var ones: bv16 := ((1 as bv16) << (8 - i)) - 1;
    (!ones & 0xFF) as Byte
  }

  /** The bits of a byte after bit `j`. */
  function LastNegMask(j: int): Byte
    requires 0 <= j < 8
  {
    (((1 as bv8) << (7 - j)) - 1) as Byte
  }

  lemma FirstMaskBits(i: int, k: int)
    requires 0 <= i < 8 && 0 <= k < 8
    ensures BitOf(FirstNegMask(i), k) == (k < i)
  {
    assert FirstNegMask(i) ==
            (if i == 0 then 0 else if i == 1 then 0x80 else if i == 2 then 0xC0 else if i == 3 then 0xE0
                               else if i == 4 then 0xF0 else if i == 5 then 0xF8 else if i == 6 then 0xFC else 0xFE);
  }

  lemma LastMaskBits(j: int, k: int)
    requires 0 <= j < 8 && 0 <= k < 8
    ensures BitOf(LastNegMask(j), k) == (k > j)
  {
    assert LastNegMask(j) ==
            (if j == 0 then 0x7F else if j == 1 then 0x3F else if j == 2 then 0x1F else if j == 3 then 0x0F
                              else if j == 4 then 0x07 else if j == 5 then 0x03 else if j == 6 then 0x01 else 0);
  }

  lemma MasksVanish(i: int)
    requires 0 <= i < 8
    ensures (FirstNegMask(i) == 0 <==> i == 0) && (LastNegMask(i) == 0 <==> i == 7)
  {
  }

  function And(a: Byte, b: Byte): Byte {
    a & b
  }

  function Or(a: Byte, b: Byte): Byte {
    a | b
  }

  function Not(a: Byte): Byte {
    !a
  }

  lemma AndBits(a: Byte, b: Byte, k: int)
    ensures BitOf(And(a, b), k) == (BitOf(a, k) && BitOf(b, k))
  {
    if k == 0 {
    } else if k == 1 {
    } else if k == 2 {
    } else if k == 3 {
    } else if k == 4 {
    } else if k == 5 {
    } else if k == 6 {
    } else {
    }
  }

  lemma OrBits(a: Byte, b: Byte, k: int)
    ensures BitOf(Or(a, b), k) == (BitOf(a, k) || BitOf(b, k))
  {
    if k == 0 {
    } else if k == 1 {
    } else if k == 2 {
    } else if k == 3 {
    } else if k == 4 {
    } else if k == 5 {
    } else if k == 6 {
    } else {
    }
  }

  lemma NotBits(a: Byte, k: int)
    ensures BitOf(Not(a), k) == !BitOf(a, k)
  {
  }

  // ---------------------------------------------------------------------------------------
  // Ranges
  // ---------------------------------------------------------------------------------------

  /** Negative indexes count from the end, and the range is cut to the string. */
  function Normalise(start: int, end: int, total: int): (int, int) {
    var lo := if start < 0 then total + start else start;
    var hi := if end < 0 then total + end else end;
    var hi := if hi < 0 then 0 else hi;
    (if lo < 0 then 0 else lo, if hi >= total then total - 1 else hi)
  }

  /** The first and last bit of a normalised range. */
  function BitRangeOf(start: int, end: int, isBit: bool, length: int): (int, int) {
    var (lo, hi) := Normalise(start, end, if isBit then 8 * length else length);
    if isBit then (lo, hi) else (8 * lo, 8 * hi + 7)
  }

  lemma {:induction false} CountSlice(s: seq<Byte>, a: int, n: int, k: int)
    requires 0 <= a && 0 <= n && a + n <= |s| && 0 <= k <= 8 * n
    ensures CountBits(s[a..a + n], 0, k) == CountBits(s, 8 * a, 8 * a + k)
    decreases k
  {
    hide BitOf;
    if k > 0 {
      CountSlice(s, a, n, k - 1);
      SliceBit(s, a, n, k - 1);
    }
  }

  lemma SliceBit(s: seq<Byte>, a: int, n: int, k: int)
    requires 0 <= a && 0 <= n && a + n <= |s| && 0 <= k < 8 * n
    ensures Bit(s[a..a + n], k) == Bit(s, 8 * a + k)
  {
    hide BitOf;
    assert (8 * a + k) / 8 == a + k / 8 && (8 * a + k) % 8 == k % 8;
  }

  // ---------------------------------------------------------------------------------------
  // BITCOUNT
  // ---------------------------------------------------------------------------------------

  lemma {:induction false} MaskedCount(b: Byte, i: int, k: int)
    requires 0 <= i < 8 && 0 <= k <= 8
    ensures PartCount(And(b, FirstNegMask(i)), k) == PartCount(b, if k < i then k else i)
    ensures PartCount(And(b, LastNegMask(i)), k) == if k <= i then 0 else PartCount(b, k) - PartCount(b, i + 1)
    decreases k
  {
    hide BitOf, And, FirstNegMask, LastNegMask;
    if k > 0 {
      MaskedCount(b, i, k - 1);
      FirstMaskBits(i, k - 1);
      LastMaskBits(i, k - 1);
      AndBits(b, FirstNegMask(i), k - 1);
      AndBits(b, LastNegMask(i), k - 1);
    }
  }

  /** The bits before `lo` in its byte. */
  lemma BeforeRange(s: seq<Byte>, lo: int)
    requires 0 <= lo < 8 * |s|
    ensures ByteCount(And(s[lo / 8], FirstNegMask(lo % 8))) == CountBits(s, 8 * (lo / 8), lo)
  {
    hide BitOf, And, FirstNegMask, ByteCount, CountBits;
    var m := And(s[lo / 8], FirstNegMask(lo % 8));
    PartIsWhole(m);
    MaskedCount(s[lo / 8], lo % 8, 8);
    CountPart(s, lo / 8, lo % 8);
  }

  /** The bits after `hi` in its byte. */
  lemma AfterRange(s: seq<Byte>, hi: int)
    requires 0 <= hi < 8 * |s|
    ensures ByteCount(And(s[hi / 8], LastNegMask(hi % 8))) == CountBits(s, hi + 1, 8 * (hi / 8) + 8)
  {
    hide BitOf, And, LastNegMask, ByteCount, CountBits;
    var (b, j) := (hi / 8, hi % 8);
    PartIsWhole(And(s[b], LastNegMask(j)));
    MaskedCount(s[b], j, 8);
    CountPart(s, b, 8);
    CountPart(s, b, j + 1);
    CountSplit(s, 8 * b, hi + 1, 8 * b + 8);
  }

  lemma CountPair(a: Byte, b: Byte)
    ensures CountBits([a, b], 0, 16) == ByteCount(a) + ByteCount(b)
  {
    hide BitOf, ByteCount;
    CountNext([a, b], 0);
    CountNext([a, b], 1);
  }

  /** The bytes of the range minus the bits outside it. */
  lemma MaskedSubtraction(s: seq<Byte>, lo: int, hi: int)
    requires 0 <= lo <= hi < 8 * |s|
    ensures CountBits(s, lo, hi + 1) == CountBits(s, 8 * (lo / 8), 8 * (hi / 8) + 8)
              - ByteCount(And(s[lo / 8], FirstNegMask(lo % 8))) - ByteCount(And(s[hi / 8], LastNegMask(hi % 8)))
  {
    hide BitOf, And, FirstNegMask, LastNegMask, ByteCount, CountBits;
    BeforeRange(s, lo);
    AfterRange(s, hi);
    CountSplit(s, 8 * (lo / 8), lo, 8 * (hi / 8) + 8);
    CountSplit(s, lo, hi + 1, 8 * (hi / 8) + 8);
  }

  lemma ZeroMask(b: Byte)
    ensures ByteCount(And(b, 0)) == 0 && ByteCount(0) == 0
  {
  }

  /** The bits set in a normalised, nonempty range. */
  method CountRange(s: seq<Byte>, address: nat, lo: int, hi: int) returns (count: int)
    requires 0 <= lo <= hi < 8 * |s|
    ensures count == CountBits(s, lo, hi + 1)
  {
    hide BitOf, And, FirstNegMask, LastNegMask, ByteCount, CountBits;
    var firstMask, lastMask := FirstNegMask(lo % 8), LastNegMask(hi % 8);
    var start, end := lo / 8, hi / 8;
    var bytes := end - start + 1;
    count := RedisPopcount(s[start..start + bytes], address + start);
    CountSlice(s, start, bytes, 8 * bytes);
    MaskedSubtraction(s, lo, hi);
    ZeroMask(s[start]);
    ZeroMask(s[end]);
    if firstMask != 0 || lastMask != 0 {
      var first, last: Byte := 0, 0;
      if firstMask != 0 {
        first := And(s[start], firstMask);
      }
      if lastMask != 0 {
        last := And(s[end], lastMask);
      }
      CountPair(first, last);
      var outside := RedisPopcount([first, last], 0);
      count := count - outside;
    }
  }

  datatype Range = Range(start: int, end: int, isBit: bool)

  /** What BITCOUNT promises: the set bits of the normalised range. */
  function BitCountOf(s: seq<Byte>, range: Option<Range>): int {
    match range
    case None => CountBits(s, 0, 8 * |s|)
    case Some(r) =>
      var (lo, hi) := BitRangeOf(r.start, r.end, r.isBit, |s|);
      if (r.start < 0 && r.end < 0 && r.start > r.end) || lo > hi || hi < 0 then 0
      else assert hi < 8 * |s|; CountBits(s, lo, hi + 1)
  }

  /** BITCOUNT. */
  method BitcountCommand(s: seq<Byte>, address: nat, range: Option<Range>) returns (count: int)
    ensures count == BitCountOf(s, range)
  {
    hide BitOf, CountBits;
    if range.None? {
      count := RedisPopcount(s, address);
      return;
    }
    var start, end := range.value.start, range.value.end;
    if start < 0 && end < 0 && start > end {
      return 0;
    }
    var total := if range.value.isBit then 8 * |s| else |s|;
    if start < 0 {
      start := total + start;
    }
    if end < 0 {
      end := total + end;
    }
    if start < 0 {
      start := 0;
    }
    if end < 0 {
      end := 0;
    }
    if end >= total {
      end := total - 1;
    }
    if start > end {
      return 0;
    }
    if range.value.isBit {
      count := CountRange(s, address, start, end);
    } else {
      var bytes := end - start + 1;
      count := RedisPopcount(s[start..start + bytes], address + start);
      CountSlice(s, start, bytes, 8 * bytes);
    }
  }

  // ---------------------------------------------------------------------------------------
  // BITPOS
  // ---------------------------------------------------------------------------------------

  ghost predicate NoneIn(s: seq<Byte>, bit: bool, lo: int, hi: int) {
    forall q :: lo <= q <= hi && 0 <= q < 8 * |s| ==> Bit(s, q) != bit
  }

  /** The least matching position of the range. */
  ghost predicate FirstIn(s: seq<Byte>, bit: bool, lo: int, hi: int, pos: int) {
    lo <= pos <= hi && 0 <= pos < 8 * |s| && Bit(s, pos) == bit && NoneIn(s, bit, lo, pos - 1)
  }

  /** Found relative to byte `a`, or not found in the `n` bytes from there. */
  ghost predicate Searched(s: seq<Byte>, bit: bool, a: int, n: int, lo: int, hi: int, pos: int) {
    if 0 <= pos < 8 * n then FirstIn(s, bit, lo, hi, 8 * a + pos)
    else pos == (if bit then -1 else 8 * n) && NoneIn(s, bit, lo, hi)
  }

  method SearchBytes(s: seq<Byte>, address: nat, bit: bool, a: int, n: int) returns (pos: int)
    requires 0 <= a && 0 <= n && a + n <= |s|
    ensures Searched(s, bit, a, n, 8 * a, 8 * a + 8 * n - 1, pos)
  {
    hide BitOf, Bit;
    var part := s[a..a + n];
    pos := RedisBitpos(part, address + a, bit);
    SearchedSlice(s, bit, a, n, pos);
  }

  lemma SearchedSlice(s: seq<Byte>, bit: bool, a: int, n: int, pos: int)
    requires 0 <= a && 0 <= n && a + n <= |s| && IsFirst(s[a..a + n], bit, pos)
    ensures Searched(s, bit, a, n, 8 * a, 8 * a + 8 * n - 1, pos)
  {
    hide BitOf, Bit;
    var part := s[a..a + n];
    forall q | 8 * a <= q < 8 * a + 8 * n ensures Bit(s, q) == Bit(part, q - 8 * a) {
      SliceBit(s, a, n, q - 8 * a);
    }
  }

  /** The bits outside `i..j` of a byte are set to what is not looked for. */
  function Blank(b: Byte, mask: Byte, bit: bool): Byte {
    if bit then And(b, Not(mask)) else Or(b, mask)
  }

  lemma BlankBits(b: Byte, mask: Byte, bit: bool, k: int)
    ensures BitOf(Blank(b, mask, bit), k) == if BitOf(mask, k) then !bit else BitOf(b, k)
  {
    hide BitOf, And, Or, Not;
    AndBits(b, Not(mask), k);
    NotBits(mask, k);
    OrBits(b, mask, k);
  }

  lemma BlankFirst(b: Byte, i: int, bit: bool, k: int)
    requires 0 <= i < 8 && 0 <= k < 8
    ensures BitOf(Blank(b, FirstNegMask(i), bit), k) == if k < i then !bit else BitOf(b, k)
  {
    hide BitOf, Blank, FirstNegMask;
    BlankBits(b, FirstNegMask(i), bit, k);
    FirstMaskBits(i, k);
  }

  lemma BlankLast(b: Byte, j: int, bit: bool, k: int)
    requires 0 <= j < 8 && 0 <= k < 8
    ensures BitOf(Blank(b, LastNegMask(j), bit), k) == if k > j then !bit else BitOf(b, k)
  {
    hide BitOf, Blank, LastNegMask;
    BlankBits(b, LastNegMask(j), bit, k);
    LastMaskBits(j, k);
  }

  /** `t` is byte `a` of the string with the bits outside `i..j` blanked. */
  ghost predicate Edge(s: seq<Byte>, a: int, i: int, j: int, bit: bool, t: Byte)
    requires 0 <= a < |s|
  {
    forall k :: 0 <= k < 8 ==> BitOf(t, k) == if k < i || k > j then !bit else BitOf(s[a], k)
  }

  lemma EdgeSearched(s: seq<Byte>, a: int, i: int, j: int, bit: bool, t: Byte, pos: int)
    requires 0 <= a < |s| && 0 <= i <= j < 8 && Edge(s, a, i, j, bit, t) && IsFirst([t], bit, pos)
    ensures Searched(s, bit, a, 1, 8 * a + i, 8 * a + j, pos)
  {
    hide BitOf;
    forall k | 0 <= k < 8 ensures Bit([t], k) == BitOf(t, k) && Bit(s, 8 * a + k) == BitOf(s[a], k) {
      BitAt(s, a, k);
      BitAt([t], 0, k);
    }
    forall q | 8 * a + i <= q <= 8 * a + j ensures Bit(s, q) == Bit([t], q - 8 * a) {
      assert Bit(s, 8 * a + (q - 8 * a)) == BitOf(s[a], q - 8 * a);
    }
  }

  lemma JoinNone(s: seq<Byte>, bit: bool, lo: int, mid: int, hi: int)
    requires NoneIn(s, bit, lo, mid) && NoneIn(s, bit, mid + 1, hi)
    ensures NoneIn(s, bit, lo, hi)
  {
  }

  lemma JoinFirst(s: seq<Byte>, bit: bool, lo: int, mid: int, hi: int, pos: int)
    requires NoneIn(s, bit, lo, mid) && FirstIn(s, bit, mid + 1, hi, pos) && lo <= mid + 1
    ensures FirstIn(s, bit, lo, hi, pos)
  {
  }

  lemma WidenFirst(s: seq<Byte>, bit: bool, lo: int, mid: int, hi: int, pos: int)
    requires FirstIn(s, bit, lo, mid, pos) && mid <= hi
    ensures FirstIn(s, bit, lo, hi, pos)
  {
  }

  /** Nothing up to `mid`, then a search that reaches the end of the range. */
  lemma JoinSearched(s: seq<Byte>, bit: bool, lo: int, mid: int, hi: int, a: int, n: int, pos: int)
    requires NoneIn(s, bit, lo, mid) && Searched(s, bit, a, n, mid + 1, hi, pos) && lo <= mid + 1
    ensures Searched(s, bit, a, n, lo, hi, pos)
  {
    hide FirstIn, NoneIn;
    if 0 <= pos < 8 * n {
      JoinFirst(s, bit, lo, mid, hi, 8 * a + pos);
    } else {
      JoinNone(s, bit, lo, mid, hi);
    }
  }

  /** The first byte, when the range starts inside it. */
  method SearchFirst(s: seq<Byte>, bit: bool, lo: int, hi: int) returns (pos: int)
    requires 0 <= lo <= hi < 8 * |s|
    ensures var a := lo / 8; Searched(s, bit, a, 1, lo, if hi / 8 == a then hi else 8 * a + 7, pos)
  {
    hide BitOf, Blank, FirstNegMask, LastNegMask, Searched, IsFirst;
    var a, i, j := lo / 8, lo % 8, hi % 8;
    var tmp := Blank(s[a], FirstNegMask(i), bit);
    ghost var first := tmp;
    if LastNegMask(j) != 0 && hi / 8 == a {
      tmp := Blank(tmp, LastNegMask(j), bit);
    }
    ghost var last := if hi / 8 == a then j else 7;
    forall k | 0 <= k < 8 ensures BitOf(tmp, k) == if k < i || k > last then !bit else BitOf(s[a], k) {
      BlankFirst(s[a], i, bit, k);
      BlankLast(first, j, bit, k);
      MasksVanish(j);
    }
    pos := RedisBitpos([tmp], 0, bit);
    EdgeSearched(s, a, i, last, bit, tmp, pos);
  }

  /** The last byte, when the range ends inside it. */
  method SearchLast(s: seq<Byte>, bit: bool, hi: int) returns (pos: int)
    requires 0 <= hi < 8 * |s|
    ensures var b := hi / 8; Searched(s, bit, b, 1, 8 * b, hi, pos)
  {
    hide BitOf, Blank, LastNegMask, Searched, IsFirst;
    var b, j := hi / 8, hi % 8;
    var tmp := Blank(s[b], LastNegMask(j), bit);
    forall k | 0 <= k < 8 ensures BitOf(tmp, k) == if k < 0 || k > j then !bit else BitOf(s[b], k) {
      BlankLast(s[b], j, bit, k);
    }
    pos := RedisBitpos([tmp], 0, bit);
    EdgeSearched(s, b, 0, j, bit, tmp, pos);
  }

  /** From the byte boundary `8 * start` on: whole bytes, then the last byte. */
  method SearchRest(s: seq<Byte>, address: nat, bit: bool, start: int, hi: int) returns (pos: int, base: int,
                    bytes: int)
    requires 0 <= 8 * start <= hi < 8 * |s|
    ensures start <= base && base + bytes == hi / 8 + 1 && 1 <= bytes
    ensures Searched(s, bit, base, bytes, 8 * start, hi, pos)
  {
    hide LastNegMask, FirstIn, NoneIn;
    base, bytes := start, hi / 8 - start + 1;
    MasksVanish(hi % 8);
    var current := bytes - (if LastNegMask(hi % 8) != 0 then 1 else 0);
    if current > 0 {
      pos := SearchBytes(s, address, bit, base, current);
      if bytes == current {
        return;
      }
      if pos != -1 && pos != 8 * current {
        WidenFirst(s, bit, 8 * start, 8 * start + 8 * current - 1, hi, 8 * base + pos);
        return;
      }
      base, bytes := base + current, bytes - current;
      pos := SearchLast(s, bit, hi);
      JoinSearched(s, bit, 8 * start, 8 * base - 1, hi, base, bytes, pos);
      return;
    }
    pos := SearchLast(s, bit, hi);
  }

  /** First byte, whole bytes, last byte. */
  method SearchRange(s: seq<Byte>, address: nat, bit: bool, lo: int, hi: int) returns (pos: int, base: int, bytes: int)
    requires 0 <= lo <= hi < 8 * |s|
    ensures 0 <= base && base + bytes == hi / 8 + 1 && 1 <= bytes && Searched(s, bit, base, bytes, lo, hi, pos)
  {
    hide FirstNegMask, FirstIn, NoneIn;
    base, bytes := lo / 8, hi / 8 - lo / 8 + 1;
    MasksVanish(lo % 8);
    if FirstNegMask(lo % 8) != 0 {
      pos := SearchFirst(s, bit, lo, hi);
      if bytes == 1 {
        return;
      }
      if pos != -1 && pos != 8 {
        WidenFirst(s, bit, lo, 8 * base + 7, hi, 8 * base + pos);
        return;
      }
      ghost var mid := 8 * base + 7;
      pos, base, bytes := SearchRest(s, address, bit, base + 1, hi);
      JoinSearched(s, bit, lo, mid, hi, base, bytes, pos);
    } else {
      pos, base, bytes := SearchRest(s, address, bit, base, hi);
    }
  }

  datatype Span = Span(start: int, end: Option<int>, isBit: bool)

  /** What BITPOS promises: a missing key is an endless row of zeroes. */
  ghost predicate BitPosOf(o: Option<seq<Byte>>, bit: bool, span: Option<Span>, reply: int) {
    if o.None? then reply == if bit then -1 else 0 else BitPosIn(o.value, bit, span, reply)
  }

  ghost predicate BitPosIn(s: seq<Byte>, bit: bool, span: Option<Span>, reply: int) {
    var (lo, hi) := match span
      case None => (0, 8 * |s| - 1)
      case Some(r) => BitRangeOf(r.start, if r.end.Some? then r.end.value else |s| - 1, r.isBit, |s|);
    var endGiven := span.Some? && span.value.end.Some?;
    if lo > hi then reply == -1
    else if NoneIn(s, bit, lo, hi) then reply == if bit || endGiven then -1 else 8 * |s|
    else FirstIn(s, bit, lo, hi, reply)
  }

  /** The reply for a nonempty range. */
  method BitposReply(s: seq<Byte>, address: nat, bit: bool, lo: int, hi: int, endGiven: bool) returns (reply: int)
    requires 0 <= lo <= hi < 8 * |s| && (!endGiven ==> hi == 8 * |s| - 1)
    ensures if NoneIn(s, bit, lo, hi) then reply == (if bit ||
            endGiven then -1 else 8 * |s|) else FirstIn(s, bit, lo, hi, reply)
  {
    hide Bit;
    var pos, base, bytes := SearchRange(s, address, bit, lo, hi);
    if endGiven && !bit && pos == 8 * bytes {
      return -1;
    }
    if pos != -1 {
      pos := pos + 8 * base;
    }
    reply := pos;
  }

  /** BITPOS; the BIT form always comes with an end. */
  method BitposCommand(o: Option<seq<Byte>>, address: nat, bit: bool, span: Option<Span>) returns (reply: int)
    requires span.Some? && span.value.isBit ==> span.value.end.Some?
    ensures BitPosOf(o, bit, span, reply)
  {
    hide NoneIn, FirstIn;
    if o.None? {
      return if bit then -1 else 0;
    }
    var s := o.value;
    var start, end, isBit, endGiven := 0, |s| - 1, false, false;
    if span.Some? {
      start, isBit := span.value.start, span.value.isBit;
      if span.value.end.Some? {
        end, endGiven := span.value.end.value, true;
      }
      var total := if isBit then 8 * |s| else |s|;
      if start < 0 {
        start := total + start;
      }
      if end < 0 {
        end := total + end;
      }
      if start < 0 {
        start := 0;
      }
      if end < 0 {
        end := 0;
      }
      if end >= total {
        end := total - 1;
      }
    }
    if start > end {
      return -1;
    }
    var lo, hi := if isBit then start else 8 * start, if isBit then end else 8 * end + 7;
    reply := BitposReply(s, address, bit, lo, hi, endGiven);
  }
}
