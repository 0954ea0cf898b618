/** The search for the first bit: whole words are skipped, then one word is scanned. */
module BitPos {
  import opened Bits

  type Long = bv64

  /** The result of a bit-by-bit search; looking for a clear bit, the string is followed by zeroes. */
  ghost predicate IsFirst(s: seq<Byte>, bit: bool, pos: int) {
    if 0 <= pos < 8 * |s| then Bit(s, pos) == bit && forall q :: 0 <= q < pos ==> Bit(s, q) != bit
    else pos == (if bit then -1 else 8 * |s|) && forall q :: 0 <= q < 8 * |s| ==> Bit(s, q) != bit
  }

  // ---------------------------------------------------------------------------------------
  // Masks
  // ---------------------------------------------------------------------------------------

  function Mask8(i: int): Byte {
    if i == 0 then 0x80 else if i == 1 then 0x40 else if i == 2 then 0x20 else if i == 3 then 0x10
    else if i == 4 then 0x08 else if i == 5 then 0x04 else if i == 6 then 0x02 else 0x01
  }

  function InByte(b: Byte, j: int): Long {
    if j == 0 then (b as Long) << 56 else if j == 1 then (b as Long) << 48
    else if j == 2 then (b as Long) << 40 else if j == 3 then (b as Long) << 32
    else if j == 4 then (b as Long) << 24 else if j == 5 then (b as Long) << 16
    else if j == 6 then (b as Long) << 8 else b as Long
  }

  /** The word with bit `k` alone, counted from the most significant one. */
  function MaskAt(k: int): Long {
    InByte(Mask8(k % 8), k / 8)
  }

  function Half(m: Long): Long {
    m >> 1
  }

  predicate Test(m: Long, w: Long) {
    m & w != 0
  }

  lemma HalfMask(j: int, i: int)
    requires 0 <= j < 8 && 0 <= i < 7
    ensures Half(InByte(Mask8(i), j)) == InByte(Mask8(i + 1), j)
  {
  }

  lemma HalfByte(j: int)
    requires 0 <= j < 7
    ensures Half(InByte(Mask8(7), j)) == InByte(Mask8(0), j + 1)
  {
  }

  lemma MaskNext(k: int)
    requires 0 <= k < 63
    ensures Half(MaskAt(k)) == MaskAt(k + 1)
  {
    hide Half, InByte, Mask8;
    var (j, i) := (k / 8, k % 8);
    if i < 7 {
      assert (k + 1) / 8 == j && (k + 1) % 8 == i + 1;
      HalfMask(j, i);
    } else {
      assert (k + 1) / 8 == j + 1 && (k + 1) % 8 == 0;
      HalfByte(j);
    }
  }

  lemma MaskEnds()
    ensures MaskAt(0) == 0x8000_0000_0000_0000 && Half(MaskAt(63)) == 0
  {
  }

  lemma MaskNonzero(k: int)
    requires 0 <= k < 64
    ensures MaskAt(k) != 0
  {
  }

  // ---------------------------------------------------------------------------------------
  // Loading bytes into a word
  // ---------------------------------------------------------------------------------------

  function Push(w: Long, b: Byte): Long {
    (w << 8) | (b as Long)
  }

  function Down(m: Long): Long {
    m >> 8
  }

  lemma PushShifts(m: Long, w: Long, b: Byte)
    requires m & 0xFF == 0
    ensures Test(m, Push(w, b)) == Test(Down(m), w)
  {
  }

  lemma LowClear(b: Byte, j: int)
    requires 0 <= j < 7
    ensures InByte(b, j) & 0xFF == 0
  {
  }

  lemma DownByte(b: Byte, j: int)
    requires 0 <= j < 7
    ensures Down(InByte(b, j)) == InByte(b, j + 1)
  {
  }

  lemma PushOld(w: Long, b: Byte, j: int, i: int)
    requires 0 <= j < 7
    ensures Test(InByte(Mask8(i), j), Push(w, b)) == Test(InByte(Mask8(i), j + 1), w)
  {
    hide Test, InByte, Mask8, Push, Down;
    LowClear(Mask8(i), j);
    DownByte(Mask8(i), j);
    PushShifts(InByte(Mask8(i), j), w, b);
  }

  lemma PushNew(w: Long, b: Byte, i: int)
    requires 0 <= i < 8
    ensures Test(InByte(Mask8(i), 7), Push(w, b)) == BitOf(b, i)
  {
  }

  function PadByte(s: seq<Byte>, n: int): Byte {
    if 0 <= n < |s| then s[n] else 0
  }

  /** The last `j` bytes of the word are the bytes of `s` from `c` on, zeroes after its end. */
  ghost predicate Loaded(s: seq<Byte>, c: int, j: int, word: Long) {
    forall n, i :: 8 - j <= n < 8 && 0 <= i < 8 ==>
            Test(InByte(Mask8(i), n), word) == BitOf(PadByte(s, c + n - (8 - j)), i)
  }

  lemma LoadMore(s: seq<Byte>, c: int, j: int, word: Long)
    requires Loaded(s, c, j, word) && 0 <= j < 8
    ensures Loaded(s, c, j + 1, Push(word, PadByte(s, c + j)))
  {
    hide Test, InByte, Mask8, Push, BitOf, PadByte;
    forall n, i | 8 - (j + 1) <= n < 8 && 0 <= i < 8
      ensures Test(InByte(Mask8(i), n), Push(word, PadByte(s, c + j))) == BitOf(PadByte(s, c + n - (8 - (j + 1))), i)
    {
      if n < 7 {
        PushOld(word, PadByte(s, c + j), n, i);
        assert c + (n + 1) - (8 - j) == c + n - (8 - (j + 1));
      } else {
        PushNew(word, PadByte(s, c + j), i);
        assert c + n - (8 - (j + 1)) == c + j;
      }
    }
  }

  lemma PushZero(w: Long)
    ensures Push(w, 0) == w << 8
  {
  }

  /** The bytes from `c` on as one word, the first byte the most significant. */
  method LoadWord(s: seq<Byte>, c: int) returns (word: Long)
    requires 0 <= c <= |s|
    ensures Loaded(s, c, 8, word)
  {
    hide Test, InByte, Mask8, BitOf;
    word := 0;
    var p, count := c, |s| - c;
    for j := 0 to 8
      invariant c <= p <= |s| && count == |s| - p && (p == c + j || (p == |s| <= c + j))
      invariant Loaded(s, c, j, word)
    {
      LoadMore(s, c, j, word);
      PushZero(word);
      if count > 0 {
        word := Push(word, s[p]);
        p := p + 1;
        count := count - 1;
      } else {
        word := word << 8;
      }
    }
  }

  /** The bit of the string, or of the zeroes after it. */
  predicate PadBit(s: seq<Byte>, p: int) {
    0 <= p < 8 * |s| && Bit(s, p)
  }

  lemma LoadedBit(s: seq<Byte>, c: int, word: Long, k: int)
    requires Loaded(s, c, 8, word) && 0 <= c && 0 <= k < 64
    ensures Test(MaskAt(k), word) == PadBit(s, 8 * c + k)
  {
    hide Test, InByte, Mask8;
    var (n, i) := (k / 8, k % 8);
    assert (8 * c + k) / 8 == c + n && (8 * c + k) % 8 == i;
    assert Test(InByte(Mask8(i), n), word) == BitOf(PadByte(s, c + n - (8 - 8)), i);
  }

  // ---------------------------------------------------------------------------------------
  // Skipping bytes and words
  // ---------------------------------------------------------------------------------------

  function SkipByte(bit: bool): Byte {
    if bit then 0 else 0xFF
  }

  function SkipWord(bit: bool): Long {
    if bit then 0 else 0xFFFF_FFFF_FFFF_FFFF
  }

  lemma SkippedByte(b: Byte, bit: bool, i: int)
    requires b == SkipByte(bit)
    ensures BitOf(b, i) != bit
  {
  }

  lemma KeptByte(b: Byte, bit: bool) returns (i: int)
    requires b != SkipByte(bit)
    ensures 0 <= i < 8 && BitOf(b, i) == bit
  {
    i := if BitOf(b, 0) == bit then 0 else if BitOf(b, 1) == bit then 1 else if BitOf(b, 2) == bit then 2
         else if BitOf(b, 3) == bit then 3 else if BitOf(b, 4) == bit then 4 else if BitOf(b, 5) == bit then 5
         else if BitOf(b, 6) == bit then 6 else 7;
  }

  /** Eight bytes as the machine reads them. */
  function Native(a: Byte, b: Byte, c: Byte, d: Byte, e: Byte, f: Byte, g: Byte, h: Byte): Long {
    (a as Long) | ((b as Long) << 8) | ((c as Long) << 16) | ((d as Long) << 24)
    | ((e as Long) << 32) | ((f as Long) << 40) | ((g as Long) << 48) | ((h as Long) << 56)
  }

  lemma NativeSkips(a: Byte, b: Byte, c: Byte, d: Byte, e: Byte, f: Byte, g: Byte, h: Byte, bit: bool)
    ensures Native(a, b, c, d, e, f, g, h) == SkipWord(bit)
            <==> (var k := SkipByte(bit); a == k && b == k && c == k && d == k && e == k && f == k && g == k && h == k)
  {
  }

  function NativeAt(s: seq<Byte>, c: int): Long
    requires 0 <= c && c + 8 <= |s|
  {
    Native(s[c], s[c + 1], s[c + 2], s[c + 3], s[c + 4], s[c + 5], s[c + 6], s[c + 7])
  }

  lemma WordSkips(s: seq<Byte>, c: int, bit: bool)
    requires 0 <= c && c + 8 <= |s|
    ensures NativeAt(s, c) == SkipWord(bit) <==> forall n :: c <= n < c + 8 ==> s[n] == SkipByte(bit)
  {
    hide Native, SkipWord, SkipByte;
    NativeSkips(s[c], s[c + 1], s[c + 2], s[c + 3], s[c + 4], s[c + 5], s[c + 6], s[c + 7], bit);
  }

  /** Nothing to find in the first `c` bytes. */
  ghost predicate Skipped(s: seq<Byte>, c: int, bit: bool) {
    0 <= c <= |s| && forall n :: 0 <= n < c ==> s[n] == SkipByte(bit)
  }

  lemma SkippedBits(s: seq<Byte>, c: int, bit: bool, q: int)
    requires Skipped(s, c, bit) && 0 <= q < 8 * c
    ensures Bit(s, q) != bit
  {
    hide SkipByte, BitOf;
    SkippedByte(s[q / 8], bit, q % 8);
  }

  /** Somewhere in the next eight bytes, or right after the end of the string. */
  ghost predicate Near(s: seq<Byte>, c: int, bit: bool) {
    (exists n :: 0 <= c <= n < c + 8 && n < |s| && s[n] != SkipByte(bit)) || (!bit && |s| - c < 8)
  }

  lemma NearBit(s: seq<Byte>, c: int, bit: bool) returns (k: int)
    requires 0 <= c <= |s| && Near(s, c, bit)
    ensures 0 <= k < 64 && PadBit(s, 8 * c + k) == bit
  {
    hide SkipByte, BitOf;
    if n :| c <= n < c + 8 && n < |s| && s[n] != SkipByte(bit) {
      var i := KeptByte(s[n], bit);
      k := 8 * (n - c) + i;
      BitAt(s, n, i);
      assert 8 * c + k == 8 * n + i;
    } else {
      k := 8 * (|s| - c);
    }
  }

  lemma NotNear(s: seq<Byte>, c: int, bit: bool)
    requires Skipped(s, c, bit) && |s| - c < 8 && !Near(s, c, bit)
    ensures bit && Skipped(s, |s|, bit)
  {
  }

  lemma ZeroByte(w: Long, n: int)
    requires 0 <= n < 8
    requires forall i :: 0 <= i < 8 ==> !Test(InByte(Mask8(i), n), w)
    ensures w & InByte(0xFF, n) == 0
  {
    assert !Test(InByte(Mask8(0), n), w) && !Test(InByte(Mask8(1), n), w) && !Test(InByte(Mask8(2), n), w) &&
            !Test(InByte(Mask8(3), n), w);
    assert !Test(InByte(Mask8(4), n), w) && !Test(InByte(Mask8(5), n), w) && !Test(InByte(Mask8(6), n), w) &&
            !Test(InByte(Mask8(7), n), w);
  }

  lemma ZeroBytes(w: Long)
    requires w & InByte(0xFF, 0) == 0 && w & InByte(0xFF, 1) == 0 && w & InByte(0xFF, 2) == 0
    requires w & InByte(0xFF, 3) == 0
    requires w & InByte(0xFF, 4) == 0 && w & InByte(0xFF, 5) == 0 && w & InByte(0xFF, 6) == 0
    requires w & InByte(0xFF, 7) == 0
    ensures w == 0
  {
  }

  predicate EmptyByte(w: Long, n: int) {
    w & InByte(0xFF, n) == 0
  }

  lemma EmptyBytes(w: Long)
    requires forall n :: 0 <= n < 8 ==> EmptyByte(w, n)
    ensures w == 0
  {
    assert EmptyByte(w, 0) && EmptyByte(w, 1) && EmptyByte(w, 2) && EmptyByte(w, 3);
    assert EmptyByte(w, 4) && EmptyByte(w, 5) && EmptyByte(w, 6) && EmptyByte(w, 7);
    ZeroBytes(w);
  }

  lemma NoBits(w: Long)
    requires forall n, i :: 0 <= n < 8 && 0 <= i < 8 ==> !Test(InByte(Mask8(i), n), w)
    ensures w == 0
  {
    hide Test, InByte, Mask8;
    forall n | 0 <= n < 8 ensures EmptyByte(w, n) {
      ZeroByte(w, n);
    }
    EmptyBytes(w);
  }

  /** With nothing near, the loaded word is zero. */
  lemma NothingLoaded(s: seq<Byte>, c: int, word: Long)
    requires 0 <= c <= |s| && Loaded(s, c, 8, word) && !Near(s, c, true)
    ensures word == 0
  {
    hide Test, InByte, Mask8, BitOf;
    forall n, i | 0 <= n < 8 && 0 <= i < 8 ensures !Test(InByte(Mask8(i), n), word) {
      assert Test(InByte(Mask8(i), n), word) == BitOf(PadByte(s, c + n - (8 - 8)), i);
      SkippedByte(PadByte(s, c + n), true, i);
    }
    NoBits(word);
  }

  lemma TestZero(m: Long)
    ensures !Test(m, 0)
  {
  }

  /** Bit by bit through the last word: `k` is the distance of the first match. */
  method ScanWord(s: seq<Byte>, c: int, word: Long, bit: bool, ghost goal: int) returns (k: int)
    requires 0 <= c <= |s| && Loaded(s, c, 8, word) && 0 <= goal < 64 && PadBit(s, 8 * c + goal) == bit
    ensures 0 <= k <= goal && PadBit(s, 8 * c + k) == bit && forall p :: 8 * c <= p < 8 * c + k ==> PadBit(s, p) != bit
  {
    hide Test, InByte, Mask8, Half, MaskAt, PadBit;
    k := 0;
    var one: Long := 0x8000_0000_0000_0000;
    MaskEnds();
    while one != 0
      invariant 0 <= k <= goal && one == MaskAt(k)
      invariant forall p :: 8 * c <= p < 8 * c + k ==> PadBit(s, p) != bit
      decreases 64 - k
    {
      LoadedBit(s, c, word, k);
      if Test(one, word) == bit {
        return;
      }
      MaskNext(k);
      k := k + 1;
      one := Half(one);
    }
    MaskNonzero(k);
    assert false;
  }

  /** The position found in the last word is the first of the whole string. */
  lemma Found(s: seq<Byte>, c: int, bit: bool, k: int)
    requires Skipped(s, c, bit) && 0 <= k < 64 && PadBit(s, 8 * c + k) == bit
    requires forall p :: 8 * c <= p < 8 * c + k ==> PadBit(s, p) != bit
    ensures IsFirst(s, bit, 8 * c + k)
  {
    hide SkipByte, BitOf;
    var pos := 8 * c + k;
    forall q | 0 <= q < pos && q < 8 * |s| ensures Bit(s, q) != bit {
      if q < 8 * c {
        SkippedBits(s, c, bit, q);
      } else {
        assert PadBit(s, q) != bit;
      }
    }
    assert !PadBit(s, 8 * |s|);
  }

  lemma NotFound(s: seq<Byte>)
    requires Skipped(s, |s|, true)
    ensures IsFirst(s, true, -1)
  {
    hide SkipByte, BitOf;
    forall q | 0 <= q < 8 * |s| ensures Bit(s, q) != true {
      SkippedBits(s, |s|, true, q);
    }
  }

  lemma LastZero(s: seq<Byte>, c: int)
    requires Skipped(s, c, true) && Loaded(s, c, 8, 0) && (Near(s, c, true) || |s| - c < 8)
    ensures Skipped(s, |s|, true)
  {
    hide Test, InByte, Mask8, MaskAt, BitOf, SkipByte;
    if Near(s, c, true) {
      var k := NearBit(s, c, true);
      LoadedBit(s, c, 0, k);
      TestZero(MaskAt(k));
    } else {
      NotNear(s, c, true);
    }
  }

  lemma LastMatch(s: seq<Byte>, c: int, bit: bool, word: Long) returns (goal: int)
    requires 0 <= c <= |s| && Loaded(s, c, 8, word) && (Near(s, c, bit) || |s| - c < 8) && !(bit && word == 0)
    ensures 0 <= goal < 64 && PadBit(s, 8 * c + goal) == bit
  {
    hide Test, InByte, Mask8, BitOf, SkipByte, Loaded, PadBit;
    if bit && !Near(s, c, true) {
      NothingLoaded(s, c, word);
    }
    goal := NearBit(s, c, bit);
  }

  /** redisBitpos: for every alignment of the string the result is that of the bit-by-bit search. */
  method RedisBitpos(s: seq<Byte>, address: nat, bit: bool) returns (pos: int)
    ensures IsFirst(s, bit, pos)
  {
    hide SkipByte, SkipWord, BitOf, NativeAt, IsFirst, PadBit;
    var c, count, found := 0, |s|, false;
    pos := 0;
    while (address + c) % 8 != 0 && count > 0
      invariant Skipped(s, c, bit) && count == |s| - c && pos == 8 * c && !found
      decreases count
    {
      if s[c] != SkipByte(bit) {
        found := true;
        break;
      }
      c := c + 1;
      count := count - 1;
      pos := pos + 8;
    }
    if !found {
      while count >= 8
        invariant Skipped(s, c, bit) && count == |s| - c && pos == 8 * c
      {
        WordSkips(s, c, bit);
        if NativeAt(s, c) != SkipWord(bit) {
          break;
        }
        c := c + 8;
        count := count - 8;
        pos := pos + 64;
      }
    }
    assert Near(s, c, bit) || count < 8;
    var word := LoadWord(s, c);
    if bit && word == 0 {
      LastZero(s, c);
      NotFound(s);
      return -1;
    }
    ghost var goal := LastMatch(s, c, bit, word);
    var k := ScanWord(s, c, word, bit, goal);
    Found(s, c, bit, k);
    pos := pos + k;
  }
}
