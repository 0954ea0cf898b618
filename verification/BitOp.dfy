/** BITOP: a word-wise fast path over the common length, then byte by byte. */
module BitOp {
  import opened Bits
  import opened BitPos

  datatype Op = AND | OR | XOR | NOT

  // ---------------------------------------------------------------------------------------
  // The bytewise definition
  // ---------------------------------------------------------------------------------------

  function Combine(op: Op, a: Byte, b: Byte): Byte {
    match op
    case AND => a & b
    case OR => a | b
    case XOR => a ^ b
    case NOT => a
  }

  function FirstByte(op: Op, a: Byte): Byte {
    if op.NOT? then !a else a
  }

  /** Byte `j` of the first `n` sources combined, the shorter ones followed by zeroes. */
  function FoldByte(op: Op, src: seq<seq<Byte>>, j: int, n: int): Byte
    requires 1 <= n <= |src|
  {
    if n == 1 then FirstByte(op, PadByte(src[0], j))
    else Combine(op, FoldByte(op, src, j, n - 1), PadByte(src[n - 1], j))
  }

  function MaxLength(src: seq<seq<Byte>>): (n: int)
    ensures forall i :: 0 <= i < |src| ==> |src[i]| <= n
    ensures 0 <= n
  {
    if src == [] then 0
    else
      var (init, last) := (src[..|src| - 1], src[|src| - 1]);
      var n := MaxLength(init);
      assert forall i :: 0 <= i < |init| ==> src[i] == init[i];
      if |last| > n then |last| else n
  }

  /** What BITOP stores: as long as the longest source, each byte the fold of all sources. */
  ghost predicate IsResult(op: Op, src: seq<seq<Byte>>, res: seq<Byte>)
    requires src != []
  {
    |res| == MaxLength(src) && forall j :: 0 <= j < |res| ==> res[j] == FoldByte(op, src, j, |src|)
  }

  // ---------------------------------------------------------------------------------------
  // Words
  // ---------------------------------------------------------------------------------------

  function CombineLong(op: Op, a: Long, b: Long): Long {
    match op
    case AND => a & b
    case OR => a | b
    case XOR => a ^ b
    case NOT => a
  }

  function FlipLong(a: Long): Long {
    !a
  }

  /** Byte `k` of a word as the machine stores it. */
  function ByteOf(w: Long, k: int): Byte {
    if k == 0 then (w & 0xFF) as Byte else if k == 1 then ((w >> 8) & 0xFF) as Byte
    else if k == 2 then ((w >> 16) & 0xFF) as Byte else if k == 3 then ((w >> 24) & 0xFF) as Byte
    else if k == 4 then ((w >> 32) & 0xFF) as Byte else if k == 5 then ((w >> 40) & 0xFF) as Byte
    else if k == 6 then ((w >> 48) & 0xFF) as Byte else ((w >> 56) & 0xFF) as Byte
  }

  function Next(w: Long): Long {
    w >> 8
  }

  lemma NextByte(w: Long, k: int)
    requires 1 <= k < 8
    ensures ByteOf(w, k) == ByteOf(Next(w), k - 1)
  {
    if k == 1 {
    } else if k == 2 {
    } else if k == 3 {
    } else if k == 4 {
    } else if k == 5 {
    } else if k == 6 {
    } else {
    }
  }

  lemma CombineLow(op: Op, a: Long, b: Long)
    ensures ByteOf(CombineLong(op, a, b), 0) == Combine(op, ByteOf(a, 0), ByteOf(b, 0))
  {
    match op
    case AND =>
    case OR =>
    case XOR =>
    case NOT =>
  }

  lemma AndNext(a: Long, b: Long)
    ensures Next(CombineLong(AND, a, b)) == CombineLong(AND, Next(a), Next(b))
  {
  }

  lemma OrNext(a: Long, b: Long)
    ensures Next(CombineLong(OR, a, b)) == CombineLong(OR, Next(a), Next(b))
  {
  }

  lemma XorNext(a: Long, b: Long)
    ensures Next(CombineLong(XOR, a, b)) == CombineLong(XOR, Next(a), Next(b))
  {
  }

  lemma CombineNext(op: Op, a: Long, b: Long)
    ensures Next(CombineLong(op, a, b)) == CombineLong(op, Next(a), Next(b))
  {
    hide Next;
    match op
    case AND => AndNext(a, b);
    case OR => OrNext(a, b);
    case XOR => XorNext(a, b);
    case NOT =>
  }

  /** Combining words combines their bytes. */
  lemma {:induction false} CombineBytes(op: Op, a: Long, b: Long, k: int)
    requires 0 <= k < 8
    ensures ByteOf(CombineLong(op, a, b), k) == Combine(op, ByteOf(a, k), ByteOf(b, k))
    decreases k
  {
    hide ByteOf, Next, CombineLong, Combine;
    if k == 0 {
      CombineLow(op, a, b);
    } else {
      NextByte(a, k);
      NextByte(b, k);
      NextByte(CombineLong(op, a, b), k);
      CombineNext(op, a, b);
      CombineBytes(op, Next(a), Next(b), k - 1);
    }
  }

  lemma FlipBytes(a: Long, k: int)
    requires 0 <= k < 8
    ensures ByteOf(FlipLong(a), k) == FirstByte(NOT, ByteOf(a, k))
  {
    if k == 0 {
    } else if k == 1 {
    } else if k == 2 {
    } else if k == 3 {
    } else if k == 4 {
    } else if k == 5 {
    } else if k == 6 {
    } else {
    }
  }

  lemma NativeBytes(a: Byte, b: Byte, c: Byte, d: Byte, e: Byte, f: Byte, g: Byte, h: Byte)
    ensures var w := Native(a, b, c, d, e, f, g, h);
            ByteOf(w, 0) == a && ByteOf(w, 1) == b && ByteOf(w, 2) == c && ByteOf(w, 3) == d
            && ByteOf(w, 4) == e && ByteOf(w, 5) == f && ByteOf(w, 6) == g && ByteOf(w, 7) == h
  {
  }

  lemma NativeByte(s: seq<Byte>, c: int, k: int)
    requires 0 <= c && c + 8 <= |s| && 0 <= k < 8
    ensures ByteOf(NativeAt(s, c), k) == s[c + k]
  {
    hide ByteOf, Native;
    NativeBytes(s[c], s[c + 1], s[c + 2], s[c + 3], s[c + 4], s[c + 5], s[c + 6], s[c + 7]);
  }

  /** The word at `at` replaced, as eight bytes. */
  function StoreLong(res: seq<Byte>, at: int, w: Long): (r: seq<Byte>)
    requires 0 <= at && at + 8 <= |res|
    ensures |r| == |res|
  {
    res[..at] + [ByteOf(w, 0), ByteOf(w, 1), ByteOf(w, 2), ByteOf(w, 3), ByteOf(w, 4), ByteOf(w, 5), ByteOf(w, 6),
            ByteOf(w, 7)] + res[at + 8..]
  }

  lemma StoredBytes(res: seq<Byte>, at: int, w: Long, n: int)
    requires 0 <= at && at + 8 <= |res| && 0 <= n < |res|
    ensures StoreLong(res, at, w)[n] == if at <= n < at + 8 then ByteOf(w, n - at) else res[n]
  {
    hide ByteOf;
  }

  /** Bytes `at..at + n` combined with those of the source. */
  ghost predicate Combined(op: Op, res: seq<Byte>, other: seq<Byte>, at: int, n: int, r: seq<Byte>)
    requires 0 <= at && 0 <= n && at + n <= |res| && at + n <= |other|
  {
    |r| == |res| && forall k :: 0 <= k < |res| ==>
            r[k] == if at <= k < at + n then Combine(op, res[k], other[k]) else res[k]
  }

  method CombineWord(op: Op, res: seq<Byte>, other: seq<Byte>, at: int) returns (r: seq<Byte>)
    requires 0 <= at && at + 8 <= |res| && at + 8 <= |other|
    ensures Combined(op, res, other, at, 8, r)
  {
    hide ByteOf, NativeAt, CombineLong, Combine, StoreLong;
    var w := CombineLong(op, NativeAt(res, at), NativeAt(other, at));
    r := StoreLong(res, at, w);
    forall k | 0 <= k < |res| ensures r[k] == if at <= k < at + 8 then Combine(op, res[k], other[k]) else res[k] {
      StoredBytes(res, at, w, k);
      if at <= k < at + 8 {
        CombineBytes(op, NativeAt(res, at), NativeAt(other, at), k - at);
        NativeByte(res, at, k - at);
        NativeByte(other, at, k - at);
      }
    }
  }

  lemma CombinedMore(op: Op, res: seq<Byte>, other: seq<Byte>, at: int, n: int, m: int, mid: seq<Byte>, r: seq<Byte>)
    requires 0 <= at && 0 <= n && 0 <= m && at + n + m <= |res| && at + n + m <= |other|
    requires Combined(op, res, other, at, n, mid) && Combined(op, mid, other, at + n, m, r)
    ensures Combined(op, res, other, at, n + m, r)
  {
    hide Combine;
  }

  /** Four words of one source. */
  method CombineFour(op: Op, res: seq<Byte>, other: seq<Byte>, at: int) returns (r: seq<Byte>)
    requires 0 <= at && at + 32 <= |res| && at + 32 <= |other|
    ensures Combined(op, res, other, at, 32, r)
  {
    hide Combine, Combined;
    var a := CombineWord(op, res, other, at);
    assert |a| == |res| by {
      CombinedLength(op, res, other, at, 8, a);
    }
    var b := CombineWord(op, a, other, at + 8);
    CombinedLength(op, a, other, at + 8, 8, b);
    var c := CombineWord(op, b, other, at + 16);
    CombinedLength(op, b, other, at + 16, 8, c);
    r := CombineWord(op, c, other, at + 24);
    CombinedMore(op, res, other, at, 8, 8, a, b);
    CombinedMore(op, res, other, at, 16, 8, b, c);
    CombinedMore(op, res, other, at, 24, 8, c, r);
  }

  lemma CombinedLength(op: Op, res: seq<Byte>, other: seq<Byte>, at: int, n: int, r: seq<Byte>)
    requires 0 <= at && 0 <= n && at + n <= |res| && at + n <= |other| && Combined(op, res, other, at, n, r)
    ensures |r| == |res|
  {
  }

  /** Bytes `at..at + n` flipped. */
  ghost predicate Flipped(res: seq<Byte>, at: int, n: int, r: seq<Byte>)
    requires 0 <= at && 0 <= n && at + n <= |res|
  {
    |r| == |res| && forall k :: 0 <= k < |res| ==> r[k] == if at <= k < at + n then FirstByte(NOT, res[k]) else res[k]
  }

  method FlipWord(res: seq<Byte>, at: int) returns (r: seq<Byte>)
    requires 0 <= at && at + 8 <= |res|
    ensures Flipped(res, at, 8, r)
  {
    hide ByteOf, NativeAt, FlipLong, FirstByte, StoreLong;
    var w := FlipLong(NativeAt(res, at));
    r := StoreLong(res, at, w);
    forall k | 0 <= k < |res| ensures r[k] == if at <= k < at + 8 then FirstByte(NOT, res[k]) else res[k] {
      StoredBytes(res, at, w, k);
      if at <= k < at + 8 {
        FlipBytes(NativeAt(res, at), k - at);
        NativeByte(res, at, k - at);
      }
    }
  }

  lemma FlippedMore(res: seq<Byte>, at: int, n: int, m: int, mid: seq<Byte>, r: seq<Byte>)
    requires 0 <= at && 0 <= n && 0 <= m && at + n + m <= |res|
    requires Flipped(res, at, n, mid) && Flipped(mid, at + n, m, r)
    ensures Flipped(res, at, n + m, r)
  {
    hide FirstByte;
  }

  method FlipFour(res: seq<Byte>, at: int) returns (r: seq<Byte>)
    requires 0 <= at && at + 32 <= |res|
    ensures Flipped(res, at, 32, r)
  {
    hide FirstByte;
    var a := FlipWord(res, at);
    var b := FlipWord(a, at + 8);
    var c := FlipWord(b, at + 16);
    r := FlipWord(c, at + 24);
    FlippedMore(res, at, 8, 8, a, b);
    FlippedMore(res, at, 16, 8, b, c);
    FlippedMore(res, at, 24, 8, c, r);
  }

  // ---------------------------------------------------------------------------------------
  // The command
  // ---------------------------------------------------------------------------------------

  /** The first `n` sources are combined in bytes `j..j + 32`; before that everything is done, after
      that it is still the first source. */
  ghost predicate Progress(op: Op, src: seq<seq<Byte>>, res: seq<Byte>, j: int, minLength: int, n: int)
    requires 1 <= n <= |src|
  {
    && 0 <= j <= minLength <= |res| && minLength <= |src[0]|
    && (forall k :: 0 <= k < j ==> res[k] == FoldByte(op, src, k, |src|))
    && (forall k :: j <= k < j + 32 && k < minLength ==> res[k] == FoldByte(op, src, k, n))
    && (forall k :: j + 32 <= k < minLength ==> res[k] == src[0][k])
  }

  lemma ProgressStart(op: Op, src: seq<seq<Byte>>, res: seq<Byte>, j: int, minLength: int)
    requires src != [] && !op.NOT? && 0 <= j <= minLength <= |res| && minLength <= |src[0]|
    requires forall k :: 0 <= k < j ==> res[k] == FoldByte(op, src, k, |src|)
    requires forall k :: j <= k < minLength ==> res[k] == src[0][k]
    ensures Progress(op, src, res, j, minLength, 1)
  {
    hide Combine;
  }

  lemma ProgressMore(op: Op, src: seq<seq<Byte>>, res: seq<Byte>, j: int, minLength: int, n: int, r: seq<Byte>)
    requires 1 <= n < |src| && Progress(op, src, res, j, minLength, n) && j + 32 <= minLength <= |src[n]|
    requires Combined(op, res, src[n], j, 32, r)
    ensures Progress(op, src, r, j, minLength, n + 1)
  {
    hide Combine;
    forall k | j <= k < j + 32 ensures r[k] == FoldByte(op, src, k, n + 1) {
      assert PadByte(src[n], k) == src[n][k];
    }
  }

  /** One turn of the fast path. */
  method FastStep(op: Op, src: seq<seq<Byte>>, res: seq<Byte>, j: int, minLength: int) returns (r: seq<Byte>)
    requires src != [] && (op.NOT? ==> |src| == 1) && 0 <= j && j + 32 <= minLength <= |res|
    requires forall i :: 0 <= i < |src| ==> minLength <= |src[i]|
    requires forall k :: 0 <= k < j ==> res[k] == FoldByte(op, src, k, |src|)
    requires forall k :: j <= k < minLength ==> res[k] == src[0][k]
    ensures |r| == |res|
    ensures forall k :: 0 <= k < j + 32 ==> r[k] == FoldByte(op, src, k, |src|)
    ensures forall k :: j + 32 <= k < minLength ==> r[k] == src[0][k]
  {
    hide Combine, FirstByte;
    if op.NOT? {
      r := FlipFour(res, j);
      assert forall k :: j <= k < j + 32 ==> PadByte(src[0], k) == src[0][k];
    } else {
      r := res;
      ProgressStart(op, src, res, j, minLength);
      for i := 1 to |src|
        invariant |r| == |res| && Progress(op, src, r, j, minLength, i)
      {
        var before := r;
        r := CombineFour(op, r, src[i], j);
        ProgressMore(op, src, before, j, minLength, i, r);
      }
    }
  }

  predicate Absorbing(op: Op, b: Byte) {
    (op.AND? && b == 0) || (op.OR? && b == 0xFF)
  }

  lemma Absorbs(op: Op, a: Byte, b: Byte)
    requires Absorbing(op, a)
    ensures Combine(op, a, b) == a
  {
  }

  lemma {:induction false} AbsorbsAll(op: Op, src: seq<seq<Byte>>, j: int, n: int, m: int)
    requires 1 <= n <= m <= |src| && Absorbing(op, FoldByte(op, src, j, n))
    ensures FoldByte(op, src, j, m) == FoldByte(op, src, j, n)
    decreases m
  {
    hide Combine;
    if m > n {
      AbsorbsAll(op, src, j, n, m - 1);
      Absorbs(op, FoldByte(op, src, j, m - 1), PadByte(src[m - 1], j));
    }
  }

  /** One byte of the result; a byte that can no longer change ends the loop over the sources. */
  method SlowByte(op: Op, src: seq<seq<Byte>>, j: int) returns (output: Byte)
    requires src != [] && 0 <= j && (op.NOT? ==> |src| == 1)
    ensures output == FoldByte(op, src, j, |src|)
  {
    hide Combine;
    output := FirstByte(op, if |src[0]| <= j then 0 else src[0][j]);
    var i := 1;
    while i < |src|
      invariant 1 <= i <= |src| && output == FoldByte(op, src, j, i)
    {
      var byte := if |src[i]| <= j then 0 else src[i][j];
      output := Combine(op, output, byte);
      i := i + 1;
      if Absorbing(op, output) {
        AbsorbsAll(op, src, j, i, |src|);
        break;
      }
    }
  }

  /** The common length, a missing key being an empty string. */
  method Lengths(src: seq<seq<Byte>>) returns (minLength: int, maxLength: int)
    requires src != []
    ensures maxLength == MaxLength(src) && 0 <= minLength <= maxLength
    ensures forall i :: 0 <= i < |src| ==> minLength <= |src[i]|
  {
    minLength, maxLength := 0, 0;
    for j := 0 to |src|
      invariant maxLength == MaxLength(src[..j]) && 0 <= minLength <= maxLength
      invariant forall i :: 0 <= i < j ==> minLength <= |src[i]|
    {
      assert src[..j + 1][..j] == src[..j];
      if |src[j]| > maxLength {
        maxLength := |src[j]|;
      }
      if j == 0 || |src[j]| < minLength {
        minLength := |src[j]|;
      }
    }
    assert src[..|src|] == src;
  }

  /** The computing part of BITOP: fast path, then byte by byte. */
  method BitopCommand(op: Op, src: seq<seq<Byte>>) returns (res: seq<Byte>)
    requires src != [] && (op.NOT? ==> |src| == 1)
    ensures IsResult(op, src, res)
  {
    hide Combine, FirstByte, FoldByte, MaxLength;
    var minLength, maxLength := Lengths(src);
    res := seq(maxLength, _ => 0);
    var j := 0;
    if minLength >= 32 && |src| <= 16 {
      res := src[0][..minLength] + res[minLength..];
      var left := minLength;
      while left >= 32
        invariant 0 <= left && j + left == minLength && 0 <= j && |res| == maxLength
        invariant forall k :: 0 <= k < j ==> res[k] == FoldByte(op, src, k, |src|)
        invariant forall k :: j <= k < minLength ==> res[k] == src[0][k]
      {
        res := FastStep(op, src, res, j, minLength);
        j := j + 32;
        left := left - 32;
      }
    }
    while j < maxLength
      invariant 0 <= j <= maxLength && |res| == maxLength
      invariant forall k :: 0 <= k < j ==> res[k] == FoldByte(op, src, k, |src|)
    {
      var output := SlowByte(op, src, j);
      res := res[j := output];
      j := j + 1;
    }
  }
}
