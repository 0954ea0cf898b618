/** BITFIELD: integers of 1 to 64 bits at arbitrary bit offsets. */
module BitField {
  import opened Wrappers
  import opened Bits
  import opened BitPos
  import opened BitRange

  // ---------------------------------------------------------------------------------------
  // Powers of two and remainders
  // ---------------------------------------------------------------------------------------

  function Pow2(k: int): (p: int)
    ensures p >= 1
  {
    if k <= 0 then 1 else 2 * Pow2(k - 1)
  }

  const TWO64: int := 0x1_0000_0000_0000_0000
  const TWO63: int := 0x8000_0000_0000_0000

  lemma {:induction false} PowSplit(a: int, b: int)
    requires 0 <= a && 0 <= b
    ensures Pow2(a + b) == Pow2(a) * Pow2(b)
    decreases a
  {
    if a > 0 {
      PowSplit(a - 1, b);
      assert Pow2(a + b) == 2 * (Pow2(a - 1) * Pow2(b));
    }
  }

  lemma PowSquare(k: int, p: int)
    requires 0 <= k && Pow2(k) == p
    ensures Pow2(2 * k) == p * p
  {
    hide Pow2;
    PowSplit(k, k);
  }

  lemma PowConstants()
    ensures Pow2(63) == TWO63 && Pow2(64) == TWO64
  {
    assert Pow2(4) == 16;
    hide Pow2;
    PowSquare(4, 16);
    PowSquare(8, 0x100);
    PowSquare(16, 0x1_0000);
    PowSquare(32, 0x1_0000_0000);
    PowDouble(64);
  }

  lemma PowDouble(k: int)
    requires k >= 1
    ensures Pow2(k) == 2 * Pow2(k - 1)
  {
  }

  lemma {:induction false} PowMonotone(a: int, b: int)
    requires a <= b
    ensures Pow2(a) <= Pow2(b)
    decreases b - a
  {
    if a < b {
      PowMonotone(a, b - 1);
    }
  }

  lemma TimesAtLeast(a: int, m: int)
    requires a >= 1 && m >= 0
    ensures a * m >= m
  {
  }

  lemma QuotientUnique(m: int, q: int, r: int, p: int, t: int)
    requires m > 0 && q * m + r == p * m + t && 0 <= r < m && 0 <= t < m
    ensures q == p && r == t
  {
    assert (q - p) * m == q * m - p * m;
    if q > p {
      TimesAtLeast(q - p, m);
    } else if q < p {
      TimesAtLeast(p - q, m);
    }
  }

  lemma DivModUnique(x: int, m: int, q: int, r: int)
    requires m > 0 && x == q * m + r && 0 <= r < m
    ensures x / m == q && x % m == r
  {
    QuotientUnique(m, q, r, x / m, x % m);
  }

  lemma Regroup(q: int, m: int, k: int, q2: int, r2: int)
    ensures q * (m * k) + (q2 * m + r2) == (q * k + q2) * m + r2
  {
  }

  /** Reducing twice, the second modulus dividing the first. */
  lemma ModMod(x: int, m: int, k: int, n: int)
    requires m > 0 && n > 0 && n == m * k
    ensures (x % n) % m == x % m
  {
    var (q, r) := (x / n, x % n);
    var (q2, r2) := (r / m, r % m);
    Regroup(q, m, k, q2, r2);
    DivModUnique(x, m, q * k + q2, r2);
  }

  lemma DivDiv(x: int, m: int)
    requires m > 0
    ensures x / (2 * m) == (x / m) / 2
  {
    var (q, r) := (x / m, x % m);
    assert x == q * m + r;
    assert x == (q / 2) * (2 * m) + ((q % 2) * m + r) by {
      assert q == (q / 2) * 2 + q % 2;
      assert q * m == (q / 2) * 2 * m + (q % 2) * m;
    }
    assert 0 <= (q % 2) * m + r < 2 * m;
    DivModUnique(x, 2 * m, q / 2, (q % 2) * m + r);
  }

  lemma HalfMod(w: int, m: int)
    requires m > 0
    ensures w % (2 * m) == 2 * ((w / 2) % m) + w % 2
  {
    var (h, b) := (w / 2, w % 2);
    var (q, r) := (h / m, h % m);
    assert h == q * m + r;
    assert w == q * (2 * m) + (2 * r + b);
    DivModUnique(w, 2 * m, q, 2 * r + b);
  }

  // ---------------------------------------------------------------------------------------
  // Reading and writing fields
  // ---------------------------------------------------------------------------------------

  /** Bit `k` of a number, bit 0 the least significant. */
  predicate TestBit(v: int, k: int) {
    (v / Pow2(k)) % 2 == 1
  }

  /** The number in the `bits` bits from `offset` on, zeroes after the end of the string. */
  function Field(s: seq<Byte>, offset: int, bits: int): (v: int)
    ensures 0 <= v < Pow2(bits)
  {
    if bits <= 0 then 0 else 2 * Field(s, offset, bits - 1) + One(PadBit(s, offset + bits - 1))
  }

  /** `t` is `s` with the low bits of `value` written at `offset`, and no other bit changed. */
  ghost predicate FieldSet(s: seq<Byte>, t: seq<Byte>, offset: int, bits: int, value: int) {
    |t| == |s| && forall q :: 0 <= q < 8 * |s| ==>
      Bit(t, q) == if offset <= q < offset + bits then TestBit(value, bits - 1 - (q - offset)) else Bit(s, q)
  }

  /** Reading back gives the value written, modulo the width. */
  lemma {:induction false} ReadBackPart(s: seq<Byte>, t: seq<Byte>, offset: int, bits: int, value: int, k: int)
    requires FieldSet(s, t, offset, bits, value) && 0 <= offset && offset + bits <= 8 * |s| && 0 <= k <= bits
    ensures Field(t, offset, k) == (value / Pow2(bits - k)) % Pow2(k)
    decreases k
  {
    hide Bit, TestBit;
    if k > 0 {
      ReadBackPart(s, t, offset, bits, value, k - 1);
      var w := value / Pow2(bits - k);
      PowDouble(bits - k + 1);
      DivDiv(value, Pow2(bits - k));
      HalfMod(w, Pow2(k - 1));
      assert Bit(t, offset + k - 1) == TestBit(value, bits - k);
      BitValue(value, bits - k);
    }
  }

  lemma BitValue(v: int, k: int)
    ensures One(TestBit(v, k)) == (v / Pow2(k)) % 2
  {
  }

  lemma ReadBack(s: seq<Byte>, t: seq<Byte>, offset: int, bits: int, value: int)
    requires FieldSet(s, t, offset, bits, value) && 0 <= offset && 0 <= bits && offset + bits <= 8 * |s|
    ensures Field(t, offset, bits) == value % Pow2(bits)
  {
    hide Bit, TestBit;
    ReadBackPart(s, t, offset, bits, value, bits);
  }

  /** One bit of a byte written: cleared, then set to the value. */
  function WithBit(b: Byte, i: int, v: bool): Byte {
    var cleared := And(b, Not(Mask8(i)));
    if v then Or(cleared, Mask8(i)) else cleared
  }

  lemma MaskBit(i: int, k: int)
    requires 0 <= i < 8 && 0 <= k < 8
    ensures BitOf(Mask8(i), k) == (k == i)
  {
  }

  lemma WithBitBits(b: Byte, i: int, v: bool, k: int)
    requires 0 <= i < 8 && 0 <= k < 8
    ensures BitOf(WithBit(b, i, v), k) == if k == i then v else BitOf(b, k)
  {
    hide BitOf, And, Or, Not, Mask8;
    MaskBit(i, k);
    NotBits(Mask8(i), k);
    AndBits(b, Not(Mask8(i)), k);
    OrBits(And(b, Not(Mask8(i))), Mask8(i), k);
  }

  lemma BitWritten(s: seq<Byte>, at: int, v: bool, q: int)
    requires 0 <= at < 8 * |s| && 0 <= q < 8 * |s|
    ensures Bit(s[at / 8 := WithBit(s[at / 8], at % 8, v)], q) == if q == at then v else Bit(s, q)
  {
    hide BitOf, WithBit;
    WithBitBits(s[at / 8], at % 8, v, q % 8);
  }

  /** The first `j` bits of the field are written. */
  ghost predicate PartSet(s: seq<Byte>, t: seq<Byte>, offset: int, bits: int, value: int, j: int) {
    |t| == |s| && forall q :: 0 <= q < 8 * |s| ==>
      Bit(t, q) == if offset <= q < offset + j then TestBit(value, bits - 1 - (q - offset)) else Bit(s, q)
  }

  lemma PartNext(s: seq<Byte>, t: seq<Byte>, offset: int, bits: int, value: int, j: int, u: seq<Byte>)
    requires PartSet(s, t, offset, bits, value, j) && 0 <= offset && 0 <= j < bits && offset + bits <= 8 * |s|
    requires u == t[(offset + j) / 8 := WithBit(t[(offset + j) / 8], (offset + j) % 8, TestBit(value, bits - 1 - j))]
    ensures PartSet(s, u, offset, bits, value, j + 1)
  {
    hide Bit, TestBit, WithBit;
    forall q | 0 <= q < 8 * |s|
      ensures Bit(u, q) == if offset <= q < offset + j + 1 then TestBit(value, bits - 1 - (q - offset)) else Bit(s, q)
    {
      BitWritten(t, offset + j, TestBit(value, bits - 1 - j), q);
    }
  }

  /** setUnsignedBitfield, in place. */
  method SetUnsignedBitfield(p: array<Byte>, offset: int, bits: int, value: int)
    requires 0 <= offset && 0 <= bits && offset + bits <= 8 * p.Length
    modifies p
    ensures FieldSet(old(p[..]), p[..], offset, bits, value)
  {
    hide Bit, TestBit, WithBit;
    for j := 0 to bits
      invariant PartSet(old(p[..]), p[..], offset, bits, value, j)
    {
      ghost var before := p[..];
      var bitval := TestBit(value, bits - 1 - j);
      var byte, bit := (offset + j) / 8, (offset + j) % 8;
      p[byte] := WithBit(p[byte], bit, bitval);
      PartNext(old(p[..]), before, offset, bits, value, j, p[..]);
    }
  }

  lemma FieldFits(s: seq<Byte>, offset: int, bits: int)
    requires bits <= 64
    ensures 0 <= Field(s, offset, bits) < TWO64
  {
    hide PadBit;
    PowConstants();
    PowMonotone(bits, 64);
  }

  /** getUnsignedBitfield; with at most 64 bits nothing is shifted out. */
  method GetUnsignedBitfield(p: seq<Byte>, offset: int, bits: int) returns (value: int)
    requires 0 <= offset && 0 <= bits <= 64 && offset + bits <= 8 * |p|
    ensures value == Field(p, offset, bits) && 0 <= value < TWO64
  {
    hide BitOf, Pow2;
    value := 0;
    for j := 0 to bits
      invariant value == Field(p, offset, j)
    {
      FieldFits(p, offset, j + 1);
      var byte, bit := (offset + j) / 8, (offset + j) % 8;
      value := (2 * value) % TWO64 + One(BitOf(p[byte], bit));
    }
    FieldFits(p, offset, bits);
  }

  // ---------------------------------------------------------------------------------------
  // Two's complement
  // ---------------------------------------------------------------------------------------

  function U64(x: int): int {
    x % TWO64
  }

  function I64(x: int): int {
    if U64(x) >= TWO63 then U64(x) - TWO64 else U64(x)
  }

  /** A number of `bits` bits read as signed. */
  function Signed(u: int, bits: int): int {
    if u >= Pow2(bits - 1) then u - Pow2(bits) else u
  }

  ghost predicate InUnsigned(v: int, bits: int) {
    0 <= v < Pow2(bits)
  }

  ghost predicate InSigned(v: int, bits: int) {
    -Pow2(bits - 1) <= v < Pow2(bits - 1)
  }

  lemma ModOfNegative(x: int, m: int)
    requires m > 0 && -m <= x < 0
    ensures x % m == x + m
  {
    DivModUnique(x, m, -1, x + m);
  }

  lemma SmallMod(x: int, m: int)
    requires 0 <= x < m
    ensures x % m == x
  {
    DivModUnique(x, m, 0, x);
  }

  /** Writing a number in range and reading it as signed gives it back. */
  lemma SignedOfMod(v: int, bits: int)
    requires 1 <= bits && InSigned(v, bits)
    ensures Signed(v % Pow2(bits), bits) == v
  {
    hide Pow2;
    PowDouble(bits);
    if v < 0 {
      ModOfNegative(v, Pow2(bits));
    } else {
      SmallMod(v, Pow2(bits));
    }
  }

  lemma ModWidth(x: int, bits: int)
    requires 1 <= bits <= 64
    ensures U64(x) % Pow2(bits) == x % Pow2(bits)
  {
    hide Pow2;
    PowSplit(bits, 64 - bits);
    PowConstants();
    ModMod(x, Pow2(bits), Pow2(64 - bits), TWO64);
  }

  lemma TopBit(u: int, bits: int)
    requires 1 <= bits && 0 <= u < Pow2(bits)
    ensures TestBit(u, bits - 1) <==> u >= Pow2(bits - 1)
  {
    hide Pow2;
    PowDouble(bits);
    var m := Pow2(bits - 1);
    if u >= m {
      DivModUnique(u, m, 1, u - m);
    } else {
      DivModUnique(u, m, 0, u);
    }
  }

  lemma PowBounds(bits: int)
    requires 1 <= bits <= 64
    ensures 2 <= Pow2(bits) <= TWO64 && Pow2(bits) == 2 * Pow2(bits - 1)
    ensures bits < 64 ==> Pow2(bits) <= TWO63
    ensures bits == 64 ==> Pow2(bits) == TWO64
  {
    PowConstants();
    PowMonotone(bits, if bits < 64 then 63 else 64);
    PowMonotone(1, bits);
    PowDouble(bits);
  }

  /** getSignedBitfield: the top bit of the field is propagated. */
  method GetSignedBitfield(p: seq<Byte>, offset: int, bits: int) returns (value: int)
    requires 0 <= offset && 1 <= bits <= 64 && offset + bits <= 8 * |p|
    ensures value == Signed(Field(p, offset, bits), bits)
  {
    hide Pow2, Field, TestBit;
    var u := GetUnsignedBitfield(p, offset, bits);
    value := I64(u);
    PowBounds(bits);
    FieldRange(p, offset, bits);
    TopBit(u, bits);
    if bits < 64 && TestBit(u, bits - 1) {
      value := I64(u + (TWO64 - Pow2(bits)));
    }
  }

  lemma FieldRange(p: seq<Byte>, offset: int, bits: int)
    ensures 0 <= Field(p, offset, bits) < Pow2(bits)
  {
  }

  // ---------------------------------------------------------------------------------------
  // Overflow
  // ---------------------------------------------------------------------------------------

  datatype Overflow = Wrap | Sat | Fail

  /** The returned sign of the overflow, and the value to use instead. */
  datatype Check = Check(flag: int, limit: Option<int>)

  ghost predicate IsInt64(x: int) {
    -TWO63 <= x < TWO63
  }

  function CheckUnsigned(value: int, incr: int, bits: int, ow: Overflow): Check {
    var max := if bits == 64 then TWO64 - 1 else Pow2(bits) - 1;
    var (maxIncr, minIncr) := (I64(max - value), I64(-value));
    var wrapped := Check(1, Some(U64(value + incr) % Pow2(bits)));
    if value > max || (incr > 0 && incr > maxIncr) then
      if ow.Wrap? then wrapped else Check(1, if ow.Sat? then Some(max) else None)
    else if incr < 0 && incr < minIncr then
      if ow.Wrap? then wrapped else Check(-1, if ow.Sat? then Some(0) else None)
    else Check(0, None)
  }

  /** The sum kept inside its width: the sign bit is propagated or the rest is cut off. */
  function WrapSigned(sum: int, bits: int): int {
    var c := U64(sum);
    if bits == 64 then I64(c)
    else if TestBit(c, bits - 1) then I64(c % Pow2(bits) + (TWO64 - Pow2(bits)))
    else I64(c % Pow2(bits))
  }

  function CheckSigned(value: int, incr: int, bits: int, ow: Overflow): Check {
    var max := if bits == 64 then TWO63 - 1 else Pow2(bits - 1) - 1;
    var min := -max - 1;
    var (maxIncr, minIncr) := (I64(max - value), I64(min - value));
    var wrapped := Check(1, Some(WrapSigned(value + incr, bits)));
    if value > max || (bits != 64 && incr > maxIncr) || (value >= 0 && incr > 0 && incr > maxIncr) then
      if ow.Wrap? then wrapped else Check(1, if ow.Sat? then Some(max) else None)
    else if value < min || (bits != 64 && incr < minIncr) || (value < 0 && incr < 0 && incr < minIncr) then
      if ow.Wrap? then wrapped else Check(-1, if ow.Sat? then Some(min) else None)
    else Check(0, None)
  }

  /** What should be stored for a sum outside the range. */
  function Adjusted(sum: int, bits: int, signed: bool, ow: Overflow): Option<int> {
    var (min, max) := if signed then (-Pow2(bits - 1), Pow2(bits - 1) - 1) else (0, Pow2(bits) - 1);
    match ow
    case Fail => None
    case Sat => Some(if sum > max then max else min)
    case Wrap => Some(if signed then Signed(sum % Pow2(bits), bits) else sum % Pow2(bits))
  }

  lemma I64Small(x: int)
    requires IsInt64(x)
    ensures I64(x) == x
  {
    if x < 0 {
      ModOfNegative(x, TWO64);
    } else {
      SmallMod(x, TWO64);
    }
  }

  /** INCRBY on unsigned fields: overflow exactly when the sum leaves the range. */
  lemma UnsignedIsExact(value: int, incr: int, bits: int, ow: Overflow)
    requires 1 <= bits <= 63 && InUnsigned(value, bits) && IsInt64(incr)
    ensures var c := CheckUnsigned(value, incr, bits, ow);
            && (c.flag != 0 <==> !InUnsigned(value + incr, bits))
            && (c.flag != 0 ==> c.limit == Adjusted(value + incr, bits, false, ow))
  {
    hide Pow2, I64, U64;
    PowBounds(bits);
    I64Small(Pow2(bits) - 1 - value);
    I64Small(-value);
    ModWidth(value + incr, bits);
  }

  lemma {:induction false} TestMod(x: int, bits: int)
    requires 1 <= bits <= 64
    ensures TestBit(U64(x), bits - 1) <==> x % Pow2(bits) >= Pow2(bits - 1)
  {
    hide Pow2;
    var (m, n) := (Pow2(bits - 1), Pow2(bits));
    PowDouble(bits);
    PowSplit(bits, 64 - bits);
    PowConstants();
    ModWidth(x, bits);
    var u := U64(x);
    var (q, r) := (u / n, u % n);
    assert u == q * n + r;
    if r >= m {
      assert u == (2 * q + 1) * m + (r - m);
      DivModUnique(u, m, 2 * q + 1, r - m);
    } else {
      assert u == (2 * q) * m + r;
      DivModUnique(u, m, 2 * q, r);
    }
  }

  lemma ModBounds(x: int, m: int)
    requires m > 0
    ensures 0 <= x % m < m
  {
  }

  /** Propagating the sign bit is reading the low bits as signed. */
  lemma WrapIsSigned(sum: int, bits: int)
    requires 1 <= bits <= 64
    ensures WrapSigned(sum, bits) == Signed(sum % Pow2(bits), bits)
  {
    hide Pow2, TestBit;
    PowBounds(bits);
    ModWidth(sum, bits);
    TestMod(sum, bits);
    ModBounds(sum, Pow2(bits));
    if bits < 64 {
      I64Small(sum % Pow2(bits));
    }
  }

  /** INCRBY on signed fields: overflow exactly when the sum leaves the range. */
  lemma SignedIsExact(value: int, incr: int, bits: int, ow: Overflow)
    requires 1 <= bits <= 64 && InSigned(value, bits) && IsInt64(incr)
    ensures var c := CheckSigned(value, incr, bits, ow);
            && (c.flag != 0 <==> !InSigned(value + incr, bits))
            && (c.flag != 0 ==> c.limit == Adjusted(value + incr, bits, true, ow))
  {
    hide Pow2, I64, U64, WrapSigned;
    PowBounds(bits);
    var half := Pow2(bits - 1);
    if bits < 64 || value >= 0 {
      I64Small(half - 1 - value);
    }
    if bits < 64 || value < 0 {
      I64Small(-half - value);
    }
    WrapIsSigned(value + incr, bits);
  }

  /** SET on signed fields: saturation goes to the nearest bound exactly when the distance to the
      upper bound fits 64 bits; otherwise a value far below the range is stored as the upper bound. */
  lemma SignedSetSaturation(value: int, bits: int)
    requires 1 <= bits <= 64 && IsInt64(value) && !InSigned(value, bits)
    ensures CheckSigned(value, 0, bits, Sat).limit == Adjusted(value, bits, true, Sat)
            <==> value >= 0 || Pow2(bits - 1) - 1 - value < TWO63
  {
    hide Pow2;
    PowBounds(bits);
    if value < 0 {
      SmallMod(Pow2(bits - 1) - 1 - value, TWO64);
    }
  }

  /** SET on unsigned fields: any number outside the range, also a negative one, saturates upwards. */
  lemma UnsignedSetSaturation(value: int, bits: int)
    requires 1 <= bits <= 63 && IsInt64(value)
    ensures var c := CheckUnsigned(U64(value), 0, bits, Sat);
            (c.flag != 0 <==> !InUnsigned(value, bits)) && (c.flag != 0 ==> c.limit == Some(Pow2(bits) - 1))
  {
    hide Pow2;
    PowBounds(bits);
  }

  /** The least 64-bit number in an i8 field, and -1 in a u8 field: both are stored as the maximum,
      although the minimum is nearer. */
  lemma SaturatesUpwards()
    ensures CheckSigned(-TWO63, 0, 8, Sat).limit == Some(127) && Adjusted(-TWO63, 8, true, Sat) == Some(-128)
    ensures CheckUnsigned(U64(-1), 0, 8, Sat).limit == Some(255) && Adjusted(-1, 8, false, Sat) == Some(0)
  {
    assert Pow2(7) == 128 && Pow2(8) == 256;
  }

  // ---------------------------------------------------------------------------------------
  // The operations
  // ---------------------------------------------------------------------------------------

  datatype FieldOp = FieldOp(offset: int, bits: int, signed: bool, ow: Overflow)

  ghost predicate OpOk(op: FieldOp, length: int) {
    0 <= op.offset && 1 <= op.bits <= (if op.signed then 64 else 63) && op.offset + op.bits <= 8 * length
  }

  /** The number stored in a field. */
  function Stored(s: seq<Byte>, op: FieldOp): int {
    var u := Field(s, op.offset, op.bits);
    if op.signed then Signed(u, op.bits) else u
  }

  ghost predicate InRange(v: int, op: FieldOp) {
    if op.signed then InSigned(v, op.bits) else InUnsigned(v, op.bits)
  }

  /** The result of an exact sum: itself in the range, adjusted outside it. */
  ghost function Outcome(sum: int, op: FieldOp): Option<int> {
    if InRange(sum, op) then Some(sum) else Adjusted(sum, op.bits, op.signed, op.ow)
  }

  ghost predicate OtherBitsKept(s: seq<Byte>, t: seq<Byte>, op: FieldOp) {
    |t| == |s| && forall q :: 0 <= q < 8 * |s| && !(op.offset <= q < op.offset + op.bits) ==> Bit(t, q) == Bit(s, q)
  }

  lemma SignedRange(u: int, bits: int)
    requires 1 <= bits && 0 <= u < Pow2(bits)
    ensures InSigned(Signed(u, bits), bits)
  {
    PowDouble(bits);
  }

  lemma StoredInRange(s: seq<Byte>, op: FieldOp)
    requires 1 <= op.bits
    ensures InRange(Stored(s, op), op)
  {
    hide Pow2;
    FieldRange(s, op.offset, op.bits);
    SignedRange(Field(s, op.offset, op.bits), op.bits);
  }

  lemma AdjustedInRange(sum: int, op: FieldOp)
    requires 1 <= op.bits && Outcome(sum, op).Some?
    ensures InRange(Outcome(sum, op).value, op)
  {
    hide Pow2;
    PowDouble(op.bits);
    PowPositive(op.bits - 1);
    ModBounds(sum, Pow2(op.bits));
    SignedRange(sum % Pow2(op.bits), op.bits);
  }

  lemma PowPositive(k: int)
    ensures Pow2(k) >= 1
  {
  }

  /** A number in range, written and read back. */
  lemma WrittenIsStored(s: seq<Byte>, t: seq<Byte>, op: FieldOp, v: int, raw: int)
    requires OpOk(op, |s|) && InRange(v, op) && raw % Pow2(op.bits) == v % Pow2(op.bits)
    requires FieldSet(s, t, op.offset, op.bits, raw)
    ensures Stored(t, op) == v && OtherBitsKept(s, t, op)
  {
    hide Bit, TestBit, Pow2;
    ReadBack(s, t, op.offset, op.bits, raw);
    if op.signed {
      SignedOfMod(v, op.bits);
    } else {
      SmallMod(v, Pow2(op.bits));
    }
  }

  method ReadField(s: seq<Byte>, op: FieldOp) returns (v: int)
    requires OpOk(op, |s|)
    ensures v == Stored(s, op)
  {
    hide Pow2, Field;
    if op.signed {
      v := GetSignedBitfield(s, op.offset, op.bits);
    } else {
      v := GetUnsignedBitfield(s, op.offset, op.bits);
    }
  }

  /** setSignedBitfield casts to unsigned first. */
  method WriteField(p: array<Byte>, op: FieldOp, v: int)
    requires OpOk(op, p.Length) && InRange(v, op)
    modifies p
    ensures Stored(p[..], op) == v && OtherBitsKept(old(p[..]), p[..], op)
  {
    hide Pow2, Field, FieldSet, Stored, OtherBitsKept;
    SetUnsignedBitfield(p, op.offset, op.bits, U64(v));
    ModWidth(v, op.bits);
    WrittenIsStored(old(p[..]), p[..], op, v, U64(v));
  }

  lemma IncrementIsExact(s: seq<Byte>, incr: int, op: FieldOp)
    requires OpOk(op, |s|) && IsInt64(incr)
    ensures var old_ := Stored(s, op);
            var c := if op.signed then CheckSigned(old_, incr, op.bits, op.ow)
                    else CheckUnsigned(old_, incr, op.bits, op.ow);
            Outcome(old_ + incr, op) == if c.flag != 0 then c.limit else Some(old_ + incr)
  {
    hide Pow2, Field, CheckSigned, CheckUnsigned, Adjusted;
    StoredInRange(s, op);
    if op.signed {
      SignedIsExact(Stored(s, op), incr, op.bits, op.ow);
    } else {
      UnsignedIsExact(Stored(s, op), incr, op.bits, op.ow);
    }
  }

  /** INCRBY: the exact sum, adjusted, is stored and returned, or nothing is written. */
  method IncrBy(p: array<Byte>, op: FieldOp, incr: int) returns (reply: Option<int>)
    requires OpOk(op, p.Length) && IsInt64(incr)
    modifies p
    ensures reply == Outcome(old(Stored(p[..], op)) + incr, op)
    ensures reply.Some? ==> Stored(p[..], op) == reply.value && OtherBitsKept(old(p[..]), p[..], op)
    ensures reply.None? ==> p[..] == old(p[..])
  {
    hide Pow2, Stored, CheckSigned, CheckUnsigned, Outcome, OtherBitsKept, InRange;
    var oldval := ReadField(p[..], op);
    IncrementIsExact(p[..], incr, op);
    var c := if op.signed then CheckSigned(oldval, incr, op.bits, op.ow)
            else CheckUnsigned(oldval, incr, op.bits, op.ow);
    reply := if c.flag != 0 then c.limit else Some(oldval + incr);
    if reply.Some? {
      AdjustedInRange(oldval + incr, op);
      WriteField(p, op, reply.value);
    }
  }

  /** What SET stores: as an exact sum, but saturation depends on how far outside the number is. */
  ghost function SetOutcome(v: int, op: FieldOp): Option<int> {
    if InRange(v, op) || !op.ow.Sat? then Outcome(v, op)
    else if !op.signed then Some(Pow2(op.bits) - 1)
    else Some(if v >= 0 || Pow2(op.bits - 1) - 1 - v >= TWO63 then Pow2(op.bits - 1) - 1 else -Pow2(op.bits - 1))
  }

  function SetCheck(v: int, op: FieldOp): Check {
    if op.signed then CheckSigned(v, 0, op.bits, op.ow) else CheckUnsigned(U64(v), 0, op.bits, op.ow)
  }

  lemma I64Wraps(x: int)
    requires TWO63 <= x < TWO64
    ensures I64(x) == x - TWO64
  {
    SmallMod(x, TWO64);
  }

  lemma SetSignedIsExact(v: int, op: FieldOp)
    requires op.signed && 1 <= op.bits <= 64 && IsInt64(v)
    ensures SetOutcome(v, op) == if SetCheck(v, op).flag != 0 then SetCheck(v, op).limit else Some(v)
  {
    hide Pow2, WrapSigned, I64, U64;
    PowBounds(op.bits);
    if InSigned(v, op.bits) {
      hide CheckSigned;
      SignedIsExact(v, 0, op.bits, op.ow);
    } else {
      WrapIsSigned(v, op.bits);
      var distance := Pow2(op.bits - 1) - 1 - v;
      if 0 <= distance < TWO63 {
        I64Small(distance);
      } else if distance >= TWO63 {
        I64Wraps(distance);
      }
    }
  }

  lemma SetUnsignedIsExact(v: int, op: FieldOp)
    requires !op.signed && 1 <= op.bits <= 63 && IsInt64(v)
    ensures SetOutcome(v, op) == if SetCheck(v, op).flag != 0 then SetCheck(v, op).limit else Some(v)
  {
    hide Pow2;
    PowBounds(op.bits);
    ModWidth(v, op.bits);
    SmallMod(U64(v), TWO64);
  }

  lemma SetOutcomeInRange(v: int, op: FieldOp)
    requires 1 <= op.bits && SetOutcome(v, op).Some?
    ensures InRange(SetOutcome(v, op).value, op)
  {
    hide Pow2;
    PowPositive(op.bits - 1);
    PowPositive(op.bits);
    if InRange(v, op) || !op.ow.Sat? {
      AdjustedInRange(v, op);
    }
  }

  /** SET: the previous number is returned, or nothing is written. */
  method SetField(p: array<Byte>, op: FieldOp, v: int) returns (reply: Option<int>)
    requires OpOk(op, p.Length) && IsInt64(v)
    modifies p
    ensures reply == if SetOutcome(v, op).Some? then Some(old(Stored(p[..], op))) else None
    ensures reply.Some? ==> Stored(p[..], op) == SetOutcome(v, op).value && OtherBitsKept(old(p[..]), p[..], op)
    ensures reply.None? ==> p[..] == old(p[..])
  {
    hide Pow2, Stored, OtherBitsKept, InRange, SetOutcome, SetCheck;
    var oldval := ReadField(p[..], op);
    if op.signed {
      SetSignedIsExact(v, op);
    } else {
      SetUnsignedIsExact(v, op);
    }
    var c := SetCheck(v, op);
    var newval := if c.flag != 0 then c.limit else Some(v);
    if newval.None? {
      return None;
    }
    SetOutcomeInRange(v, op);
    WriteField(p, op, newval.value);
    reply := Some(oldval);
  }

  /** GET copies nine bytes into a zeroed buffer and reads there. */
  method GetField(s: seq<Byte>, op: FieldOp) returns (v: int)
    requires 0 <= op.offset && 1 <= op.bits <= (if op.signed then 64 else 63)
    ensures v == Stored(s, op)
  {
    hide Pow2, Field, Signed;
    var byte := op.offset / 8;
    var buf: seq<Byte> := [0, 0, 0, 0, 0, 0, 0, 0, 0];
    var i := 0;
    while i < 9 && i + byte < |s|
      invariant 0 <= i <= 9 && |buf| == 9
      invariant forall k :: 0 <= k < i ==> k + byte < |s| && buf[k] == s[k + byte]
      invariant forall k :: i <= k < 9 ==> buf[k] == 0
    {
      buf := buf[i := s[i + byte]];
      i := i + 1;
    }
    assert forall k :: 0 <= k < 9 ==> buf[k] == PadByte(s, byte + k);
    SameField(s, buf, byte, op.offset - 8 * byte, op.bits);
    v := ReadField(buf, op.(offset := op.offset - 8 * byte));
  }

  lemma ZeroBit(k: int)
    ensures !BitOf(0, k)
  {
  }

  lemma {:induction false} SameField(s: seq<Byte>, buf: seq<Byte>, byte: int, offset: int, bits: int)
    requires |buf| == 9 && 0 <= byte && 0 <= offset && 0 <= bits && offset + bits <= 72
    requires forall k :: 0 <= k < 9 ==> buf[k] == PadByte(s, byte + k)
    ensures Field(buf, offset, bits) == Field(s, 8 * byte + offset, bits)
    decreases bits
  {
    hide BitOf, Pow2;
    if bits > 0 {
      SameField(s, buf, byte, offset, bits - 1);
      var q := offset + bits - 1;
      assert (8 * byte + q) / 8 == byte + q / 8 && (8 * byte + q) % 8 == q % 8;
      assert buf[q / 8] == PadByte(s, byte + q / 8);
      ZeroBit(q % 8);
    }
  }
}
