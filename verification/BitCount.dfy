/** The population count: seven words at a time, added up inside their bytes. */
module BitCount {
  import opened Bits

  type Word = bv32

  // ---------------------------------------------------------------------------------------
  // Adding small words adds their values
  // ---------------------------------------------------------------------------------------

  lemma AddEight(a: Word, b: Word)
    requires a <= 48 && b <= 8
    ensures (a + b) as int == a as int + b as int
  {
  }

  lemma AddLow(a: Word, b: Word)
    requires a <= 248 && b <= 7
    ensures (a + b) as int == a as int + b as int
  {
  }

  lemma PlusEight(a: Word, b: Word)
    requires a <= 352 && b == a + 8
    ensures b as int == a as int + 8
  {
  }

  lemma EightLess(a: Word, b: Word, c: Word, b': Word, c': Word)
    requires a <= 248 && 0 < b <= 112 && b & 7 == 0 && c == a + b && b' == b - 8 && c' == a + b'
    ensures b' <= 104 && b' & 7 == 0 && b == b' + 8 && c == c' + 8 && c' <= 352
  {
  }

  /** In steps of eight. */
  lemma {:induction false} AddEights(a: Word, b: Word, c: Word, n: nat)
    requires a <= 248 && b <= 112 && b & 7 == 0 && c == a + b && b as int <= n
    ensures c as int == a as int + b as int
    decreases n
  {
    if b == 0 {
      assert c == a;
    } else {
      var b' := b - 8;
      var c' := a + b';
      EightLess(a, b, c, b', c');
      PlusEight(b', b);
      AddEights(a, b', c', n - 8);
      PlusEight(c', c);
    }
  }

  lemma AddHigh(a: Word, b: Word)
    requires a <= 248 && b <= 112 && b & 7 == 0
    ensures (a + b) as int == a as int + b as int
  {
    AddEights(a, b, a + b, b as int);
  }

  lemma SplitWord(b: Word)
    requires b <= 112
    ensures b as int == (b & 7) as int + (b & 0x78) as int
  {
  }

  lemma AddInParts(a: Word, b: Word)
    requires a <= 112 && b <= 112
    ensures a + b == (a + (b & 7)) + (b & 0x78)
    ensures (b & 7) <= 7 && (b & 0x78) <= 112 && (b & 0x78) & 7 == 0 && a + (b & 7) <= 248
  {
  }

  lemma AddParts(a: Word, b: int, low: Word, high: Word, m: Word, c: Word)
    requires a <= 248 && low <= 7 && high <= 112 && high & 7 == 0 && m == a + low && m <= 248 && c == m + high
    requires b == low as int + high as int
    ensures c as int == a as int + b
  {
    AddLow(a, low);
    AddHigh(m, high);
  }

  lemma AddWords(a: Word, b: Word, c: Word)
    requires a <= 112 && b <= 112 && c == a + b
    ensures c as int == a as int + b as int
  {
    AddInParts(a, b);
    SplitWord(b);
    AddParts(a, b as int, b & 7, b & 0x78, a + (b & 7), a + b);
  }

  lemma SmallWord(v: Word, n: int)
    requires v as int == n
    ensures (n <= 8 ==> v <= 8) && (n <= 48 ==> v <= 48) && (n <= 56 ==> v <= 56)
  {
  }

  // ---------------------------------------------------------------------------------------
  // The bytes of a word
  // ---------------------------------------------------------------------------------------

  function Lane0(x: Word): Word {
    x & 0xFF
  }

  function Lane1(x: Word): Word {
    (x >> 8) & 0xFF
  }

  function Lane2(x: Word): Word {
    (x >> 16) & 0xFF
  }

  function Lane3(x: Word): Word {
    (x >> 24) & 0xFF
  }

  ghost predicate LanesAtMost(x: Word, n: Word) {
    Lane0(x) <= n && Lane1(x) <= n && Lane2(x) <= n && Lane3(x) <= n
  }

  function Plus(x: Word, y: Word): Word {
    x + y
  }

  /** The value of byte `k`, counted from the least significant one. */
  function Lane(x: Word, k: int): int {
    (if k == 0 then Lane0(x) else if k == 1 then Lane1(x) else if k == 2 then Lane2(x) else Lane3(x)) as int
  }

  ghost predicate AtMost(x: Word, n: int) {
    forall k :: 0 <= k < 4 ==> Lane(x, k) <= n
  }

  lemma SmallLane(x: Word, n: int, k: int)
    requires AtMost(x, n) && 0 <= k < 4
    ensures Lane(x, k) <= n
  {
  }

  lemma SmallLanes(x: Word, n: int)
    requires AtMost(x, n)
    ensures (n <= 8 ==> LanesAtMost(x, 8)) && (n <= 48 ==> LanesAtMost(x, 48)) && (n <= 56 ==> LanesAtMost(x, 56))
  {
    SmallLane(x, n, 0);
    SmallLane(x, n, 1);
    SmallLane(x, n, 2);
    SmallLane(x, n, 3);
    SmallWord(Lane0(x), Lane(x, 0));
    SmallWord(Lane1(x), Lane(x, 1));
    SmallWord(Lane2(x), Lane(x, 2));
    SmallWord(Lane3(x), Lane(x, 3));
  }

  /** No carries between bytes. */
  lemma LaneSums(x: Word, y: Word)
    requires LanesAtMost(x, 48) && LanesAtMost(y, 8)
    ensures Lane0(x + y) == Lane0(x) + Lane0(y) && Lane1(x + y) == Lane1(x) + Lane1(y)
    ensures Lane2(x + y) == Lane2(x) + Lane2(y) && Lane3(x + y) == Lane3(x) + Lane3(y)
  {
  }

  lemma LaneSum(a: Word, b: Word, c: Word)
    requires a <= 48 && b <= 8 && c == a + b
    ensures c as int == a as int + b as int
  {
    AddEight(a, b);
  }

  lemma AddLane0(x: Word, y: Word)
    requires LanesAtMost(x, 48) && LanesAtMost(y, 8)
    ensures Lane0(Plus(x, y)) as int == Lane0(x) as int + Lane0(y) as int
  {
    LaneSums(x, y);
    LaneSum(Lane0(x), Lane0(y), Lane0(Plus(x, y)));
  }

  lemma AddLane1(x: Word, y: Word)
    requires LanesAtMost(x, 48) && LanesAtMost(y, 8)
    ensures Lane1(Plus(x, y)) as int == Lane1(x) as int + Lane1(y) as int
  {
    LaneSums(x, y);
    LaneSum(Lane1(x), Lane1(y), Lane1(Plus(x, y)));
  }

  lemma AddLane2(x: Word, y: Word)
    requires LanesAtMost(x, 48) && LanesAtMost(y, 8)
    ensures Lane2(Plus(x, y)) as int == Lane2(x) as int + Lane2(y) as int
  {
    LaneSums(x, y);
    LaneSum(Lane2(x), Lane2(y), Lane2(Plus(x, y)));
  }

  lemma AddLane3(x: Word, y: Word)
    requires LanesAtMost(x, 48) && LanesAtMost(y, 8)
    ensures Lane3(Plus(x, y)) as int == Lane3(x) as int + Lane3(y) as int
  {
    LaneSums(x, y);
    LaneSum(Lane3(x), Lane3(y), Lane3(Plus(x, y)));
  }

  lemma AddLane(x: Word, y: Word, k: int)
    requires LanesAtMost(x, 48) && LanesAtMost(y, 8) && 0 <= k < 4
    ensures Lane(Plus(x, y), k) == Lane(x, k) + Lane(y, k)
  {
    if k == 0 {
      AddLane0(x, y);
    } else if k == 1 {
      AddLane1(x, y);
    } else if k == 2 {
      AddLane2(x, y);
    } else {
      AddLane3(x, y);
    }
  }

  /** Adding words adds every byte on its own. */
  lemma AddLanes(x: Word, y: Word, k: int)
    requires AtMost(x, 48) && AtMost(y, 8) && 0 <= k < 4
    ensures Lane(Plus(x, y), k) == Lane(x, k) + Lane(y, k)
  {
    SmallLanes(x, 48);
    SmallLanes(y, 8);
    AddLane(x, y, k);
  }

  // ---------------------------------------------------------------------------------------
  // Multiplying adds up the bytes
  // ---------------------------------------------------------------------------------------

  lemma LowPair(x: Word)
    requires LanesAtMost(x, 56)
    ensures Lane1(x + (x << 8)) == Lane0(x) + Lane1(x)
  {
  }

  lemma HighPair(x: Word)
    requires LanesAtMost(x, 56)
    ensures Lane3(x + (x << 8)) == Lane2(x) + Lane3(x)
  {
  }

  lemma PairBounds(x: Word)
    requires LanesAtMost(x, 56)
    ensures LanesAtMost(x + (x << 8), 112)
  {
  }

  lemma TopSum(y: Word)
    requires LanesAtMost(y, 112)
    ensures (y + (y << 16)) >> 24 == Lane1(y) + Lane3(y)
  {
  }

  lemma LowPairSum(x: Word)
    requires LanesAtMost(x, 56)
    ensures Lane1(x + (x << 8)) as int == Lane0(x) as int + Lane1(x) as int
  {
    LowPair(x);
    AddWords(Lane0(x), Lane1(x), Lane1(x + (x << 8)));
  }

  lemma HighPairSum(x: Word)
    requires LanesAtMost(x, 56)
    ensures Lane3(x + (x << 8)) as int == Lane2(x) as int + Lane3(x) as int
  {
    HighPair(x);
    AddWords(Lane2(x), Lane3(x), Lane3(x + (x << 8)));
  }

  /** The bytes added up by a multiplication. */
  function Gather(x: Word): int {
    ((x * 0x0101_0101) >> 24) as int
  }

  /** The top byte after the second folding step. */
  function Top(y: Word): int {
    ((y + (y << 16)) >> 24) as int
  }

  lemma TopPairSum(y: Word, n: int, m: int)
    requires LanesAtMost(y, 112) && Lane1(y) as int == n && Lane3(y) as int == m
    ensures Top(y) == n + m
  {
    TopSum(y);
    AddWords(Lane1(y), Lane3(y), (y + (y << 16)) >> 24);
  }

  lemma TopProduct(x: Word)
    ensures Gather(x) == Top(x + (x << 8))
  {
  }

  lemma PairCounts(x: Word)
    requires AtMost(x, 56)
    ensures LanesAtMost(x + (x << 8), 112)
    ensures Lane1(x + (x << 8)) as int == Lane(x, 0) + Lane(x, 1)
    ensures Lane3(x + (x << 8)) as int == Lane(x, 2) + Lane(x, 3)
  {
    SmallLanes(x, 56);
    LowPairSum(x);
    HighPairSum(x);
    PairBounds(x);
  }

  /** The multiplication adds up the four bytes. */
  lemma Multiply(x: Word)
    requires AtMost(x, 56)
    ensures Gather(x) == Lane(x, 0) + Lane(x, 1) + Lane(x, 2) + Lane(x, 3)
  {
    PairCounts(x);
    TopPairSum(x + (x << 8), Lane(x, 0) + Lane(x, 1), Lane(x, 2) + Lane(x, 3));
    TopProduct(x);
  }

  // ---------------------------------------------------------------------------------------
  // Counting inside the bytes
  // ---------------------------------------------------------------------------------------

  function Wide(b: Byte): Word {
    b as Word
  }

  /** Four bytes as a word of a little-endian machine. */
  function Load(a: Byte, b: Byte, c: Byte, d: Byte): Word {
    (a as Word) | ((b as Word) << 8) | ((c as Word) << 16) | ((d as Word) << 24)
  }

  lemma LoadLanes(a: Byte, b: Byte, c: Byte, d: Byte)
    ensures Lane0(Load(a, b, c, d)) == Wide(a) && Lane1(Load(a, b, c, d)) == Wide(b)
    ensures Lane2(Load(a, b, c, d)) == Wide(c) && Lane3(Load(a, b, c, d)) == Wide(d)
  {
  }

  /** The first two steps: every half byte holds its own count. */
  function HalfBytes(aux: Word): Word {
    var x := aux - ((aux >> 1) & 0x5555_5555);
    (x & 0x3333_3333) + ((x >> 2) & 0x3333_3333)
  }

  /** The third step: every byte holds its own count. */
  function Lanes(half: Word): Word {
    (half + (half >> 4)) & 0x0F0F_0F0F
  }

  function ByteCounts(aux: Word): Word {
    Lanes(HalfBytes(aux))
  }

  /** The bits of a byte added up one by one. */
  function Pop(b: Word): Word {
    (b & 1) + ((b >> 1) & 1) + ((b >> 2) & 1) + ((b >> 3) & 1) + ((b >> 4) & 1) + ((b >> 5) & 1) + ((b >> 6) & 1)
            + ((b >> 7) & 1)
  }

  lemma Counted0(w: Word)
    ensures Lane0(ByteCounts(w)) == Pop(Lane0(w))
  {
  }

  lemma Counted1(w: Word)
    ensures Lane1(ByteCounts(w)) == Pop(Lane1(w))
  {
  }

  lemma Counted2(w: Word)
    ensures Lane2(ByteCounts(w)) == Pop(Lane2(w))
  {
  }

  lemma Counted3(w: Word)
    ensures Lane3(ByteCounts(w)) == Pop(Lane3(w))
  {
  }

  lemma PopByte(b: Byte)
    ensures Pop(Wide(b)) as int == ByteCount(b)
  {
  }

  /** After three steps each byte of a word holds the number of bits set in it. */
  lemma WordCounts(a: Byte, b: Byte, c: Byte, d: Byte)
    ensures var w := ByteCounts(Load(a, b, c, d));
            Lane(w, 0) == ByteCount(a) && Lane(w, 1) == ByteCount(b) && Lane(w, 2) == ByteCount(c) &&
                    Lane(w, 3) == ByteCount(d)
  {
    var w := Load(a, b, c, d);
    LoadLanes(a, b, c, d);
    Counted0(w);
    Counted1(w);
    Counted2(w);
    Counted3(w);
    PopByte(a);
    PopByte(b);
    PopByte(c);
    PopByte(d);
  }

  // ---------------------------------------------------------------------------------------
  // Seven words at a time
  // ---------------------------------------------------------------------------------------

  function WordAt(s: seq<Byte>, i: int): Word
    requires 0 <= i && i + 4 <= |s|
  {
    Load(s[i], s[i + 1], s[i + 2], s[i + 3])
  }

  /** The byte counts of `n` words added up. */
  function SumWords(s: seq<Byte>, i: int, n: int): Word
    requires 0 <= i && 1 <= n && i + 4 * n <= |s|
    decreases n
  {
    var last := ByteCounts(WordAt(s, i + 4 * (n - 1)));
    if n == 1 then last else Plus(SumWords(s, i, n - 1), last)
  }

  /** The counts of byte `k` of `n` words added up. */
  function SumLane(c: seq<int>, i: int, n: int, k: int): int
    requires 0 <= i && 1 <= n && 0 <= k < 4 && i + 4 * n <= |c|
    decreases n
  {
    var last := c[i + 4 * (n - 1) + k];
    if n == 1 then last else SumLane(c, i, n - 1, k) + last
  }

  function Sum(c: seq<int>, n: int): int
    requires 0 <= n <= |c|
  {
    if n == 0 then 0 else Sum(c, n - 1) + c[n - 1]
  }

  lemma {:induction false} SumOfLanes(c: seq<int>, i: int, n: int)
    requires 0 <= i && 1 <= n && i + 4 * n <= |c|
    ensures Sum(c, i + 4 * n) == Sum(c, i) + SumLane(c, i, n, 0) + SumLane(c, i, n, 1) + SumLane(c, i, n, 2)
            + SumLane(c, i, n, 3)
    decreases n
  {
    var k := i + 4 * (n - 1);
    if n > 1 {
      SumOfLanes(c, i, n - 1);
    }
    assert Sum(c, k + 2) == Sum(c, k) + c[k] + c[k + 1];
    assert Sum(c, k + 4) == Sum(c, k + 2) + c[k + 2] + c[k + 3];
  }

  /** `c` holds the count of every byte. */
  ghost predicate Counted(s: seq<Byte>, c: seq<int>) {
    |c| == |s| && forall k :: 0 <= k < |s| ==> c[k] == ByteCount(s[k])
  }

  lemma WordAtCounts(s: seq<Byte>, c: seq<int>, i: int, k: int)
    requires Counted(s, c) && 0 <= i && i + 4 <= |s| && 0 <= k < 4
    ensures Lane(ByteCounts(WordAt(s, i)), k) == c[i + k] && 0 <= c[i + k] <= 8
  {
    WordCounts(s[i], s[i + 1], s[i + 2], s[i + 3]);
  }

  lemma WordAtBounds(s: seq<Byte>, c: seq<int>, i: int)
    requires Counted(s, c) && 0 <= i && i + 4 <= |s|
    ensures AtMost(ByteCounts(WordAt(s, i)), 8)
  {
    forall k | 0 <= k < 4 ensures Lane(ByteCounts(WordAt(s, i)), k) <= 8 {
      WordAtCounts(s, c, i, k);
    }
  }

  lemma SumUnfold(s: seq<Byte>, i: int, n: int, j: int)
    requires 0 <= i && 2 <= n && i + 4 * n <= |s| && j == i + 4 * (n - 1)
    ensures SumWords(s, i, n) == Plus(SumWords(s, i, n - 1), ByteCounts(WordAt(s, j)))
  {
  }

  /** Up to seven words fit: no byte carries into the next. */
  lemma {:induction false} SumHolds(s: seq<Byte>, c: seq<int>, i: int, n: int, k: int)
    requires Counted(s, c) && 0 <= i && 1 <= n <= 7 && i + 4 * n <= |s| && 0 <= k < 4
    ensures Lane(SumWords(s, i, n), k) == SumLane(c, i, n, k) <= 8 * n
    decreases n, 0
  {
    hide Lane, Plus, ByteCounts, WordAt, ByteCount;
    var j := i + 4 * (n - 1);
    WordAtCounts(s, c, j, k);
    if n > 1 {
      SumBounds(s, c, i, n - 1);
      SumHolds(s, c, i, n - 1, k);
      WordAtBounds(s, c, j);
      AddLanes(SumWords(s, i, n - 1), ByteCounts(WordAt(s, j)), k);
      SumUnfold(s, i, n, j);
    }
  }

  lemma {:induction false} SumBounds(s: seq<Byte>, c: seq<int>, i: int, n: int)
    requires Counted(s, c) && 0 <= i && 1 <= n <= 7 && i + 4 * n <= |s|
    ensures AtMost(SumWords(s, i, n), 8 * n)
    decreases n, 1
  {
    hide Lane, ByteCount;
    forall k | 0 <= k < 4 ensures Lane(SumWords(s, i, n), k) <= 8 * n {
      SumHolds(s, c, i, n, k);
    }
  }

  /** The seven-word step as it is written. */
  method SevenWords(s: seq<Byte>, ghost c: seq<int>, p4: int) returns (bits: int)
    requires Counted(s, c) && 0 <= p4 && p4 + 28 <= |s|
    ensures Sum(c, p4 + 28) == Sum(c, p4) + bits
  {
    var aux1, aux2, aux3 := WordAt(s, p4), WordAt(s, p4 + 4), WordAt(s, p4 + 8);
    var aux4, aux5 := WordAt(s, p4 + 12), WordAt(s, p4 + 16);
    var aux6, aux7 := WordAt(s, p4 + 20), WordAt(s, p4 + 24);
    aux1, aux2, aux3 := HalfBytes(aux1), HalfBytes(aux2), HalfBytes(aux3);
    aux4, aux5 := HalfBytes(aux4), HalfBytes(aux5);
    aux6, aux7 := HalfBytes(aux6), HalfBytes(aux7);
    var sum := Plus(Plus(Plus(Plus(Plus(Plus(Lanes(aux1), Lanes(aux2)), Lanes(aux3)), Lanes(aux4)), Lanes(aux5)),
                         Lanes(aux6)), Lanes(aux7));
    SevenTerms(s, p4);
    SevenTotal(s, c, p4, sum);
    bits := Gather(sum);
  }

  lemma SevenTotal(s: seq<Byte>, c: seq<int>, p4: int, sum: Word)
    requires |c| == |s| && Counted(s, c) && 0 <= p4 && p4 + 28 <= |s| && sum == SumWords(s, p4, 7)
    ensures Sum(c, p4 + 28) == Sum(c, p4) + Gather(sum)
  {
    hide *;
    SumBounds(s, c, p4, 7);
    Multiply(sum);
    SumHolds(s, c, p4, 7, 0);
    SumHolds(s, c, p4, 7, 1);
    SumHolds(s, c, p4, 7, 2);
    SumHolds(s, c, p4, 7, 3);
    SumOfLanes(c, p4, 7);
  }

  lemma SumNext(s: seq<Byte>, c: seq<int>, n: int)
    requires Counted(s, c) && 0 <= n < |s|
    ensures |c| == |s| && Sum(c, n + 1) == Sum(c, n) + ByteCount(s[n])
  {
  }

  lemma SumNone(s: seq<Byte>, c: seq<int>)
    ensures Sum(c, 0) == 0 == CountBits(s, 0, 0)
  {
  }

  lemma {:induction false} SumIsCount(s: seq<Byte>, c: seq<int>, n: int)
    requires Counted(s, c) && 0 <= n <= |s|
    ensures |c| == |s| && Sum(c, n) == CountBits(s, 0, 8 * n)
  {
    hide *;
    if n == 0 {
      CountedLength(s, c);
      SumNone(s, c);
    } else {
      SumIsCount(s, c, n - 1);
      SumNext(s, c, n - 1);
      CountNext(s, n - 1);
    }
  }

  lemma CountedLength(s: seq<Byte>, c: seq<int>)
    requires Counted(s, c)
    ensures |c| == |s|
  {
  }

  lemma SevenTerms(s: seq<Byte>, i: int)
    requires 0 <= i && i + 28 <= |s|
    ensures SumWords(s, i, 7) == Plus(Plus(Plus(Plus(Plus(Plus(ByteCounts(WordAt(s, i)), ByteCounts(WordAt(s, i + 4))),
              ByteCounts(WordAt(s, i + 8))), ByteCounts(WordAt(s, i + 12))), ByteCounts(WordAt(s, i + 16))),
              ByteCounts(WordAt(s, i + 20))), ByteCounts(WordAt(s, i + 24)))
  {
    assert SumWords(s, i, 3) ==
            Plus(Plus(ByteCounts(WordAt(s, i)), ByteCounts(WordAt(s, i + 4))), ByteCounts(WordAt(s, i + 8)));
    assert SumWords(s, i, 5) ==
            Plus(Plus(SumWords(s, i, 3), ByteCounts(WordAt(s, i + 12))), ByteCounts(WordAt(s, i + 16)));
  }

  /** redisPopcount: for every alignment of the string the result is the number of bits set. */
  method RedisPopcount(s: seq<Byte>, address: nat) returns (bits: int)
    ensures bits == CountBits(s, 0, 8 * |s|)
  {
    hide ByteCount, CountBits;
    bits := 0;
    var p, count := 0, |s|;
    ghost var c := seq(|s|, k requires 0 <= k < |s| => ByteCount(s[k]));
    SumIsCount(s, c, |s|);
    while (address + p) % 4 != 0 && count > 0
      invariant 0 <= p <= |s| && count == |s| - p && bits == Sum(c, p)
      decreases count
    {
      bits := bits + ByteCount(s[p]);
      p := p + 1;
      count := count - 1;
    }
    while count >= 28
      invariant 0 <= p <= |s| && count == |s| - p && bits == Sum(c, p)
    {
      var more := SevenWords(s, c, p);
      bits := bits + more;
      p := p + 28;
      count := count - 28;
    }
    while count > 0
      invariant 0 <= p <= |s| && count == |s| - p && bits == Sum(c, p)
    {
      bits := bits + ByteCount(s[p]);
      p := p + 1;
      count := count - 1;
    }
  }
}
