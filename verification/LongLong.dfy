/**
 The 64-bit and 128-bit integers for compilers without them: limbs of 32 bits, with the
 carry found by comparing the low limbs. Limb arithmetic wraps.
 */
module LongLong {
  import opened Bits
  import opened Division
  import opened Machine

  const B63: int := 0x8000_0000_0000_0000
  const B64: int := 0x1_0000_0000_0000_0000
  const B127: int := 0x8000_0000_0000_0000_0000_0000_0000_0000
  const B128: int := 0x1_0000_0000_0000_0000_0000_0000_0000_0000

  /** The two's complement integer of 64 bits with the same bits as `x`. */
  function Wrap64(x: int): int {
    var r := x % B64;
    if r < B63 then r else r - B64
  }

  datatype ULong = ULong(l: uint32, h: uint32)
  datatype Long = Long(l: uint32, h: int32)

  function UVal(x: ULong): (v: int)
    ensures 0 <= v < B64
  {
    x.h * B32 + x.l
  }

  function SVal(x: Long): (v: int)
    ensures -B63 <= v < B63
  {
    x.h * B32 + x.l
  }

  /** make_ulonglong and make_longlong */
  function MakeULong(l: uint32, h: int32): ULong {
    ULong(l, ToUint32(h))
  }

  /** ulonglong(int x) */
  function ULongOfInt(x: int32): ULong {
    ULong(ToUint32(x), if ToInt32(ToUint32(x)) < 0 then ToUint32(-1) else 0)
  }

  /** longlong(int x) */
  function LongOfInt(x: int32): Long {
    Long(ToUint32(x), if ToInt32(ToUint32(x)) < 0 then -1 else 0)
  }

  /** ulonglong(longlong x) */
  function ULongOfLong(x: Long): ULong {
    ULong(x.l, ToUint32(x.h))
  }

  /** longlong(ulonglong x) */
  function LongOfULong(x: ULong): Long {
    Long(x.l, ToInt32(x.h))
  }

  function UAdd(x: ULong, y: ULong): ULong {
    var h := ToInt32(x.h + y.h);
    var l := ToUint32(x.l + y.l);
    MakeULong(l, if l < x.l then ToInt32(h + 1) else h)
  }

  function USub(x: ULong, y: ULong): ULong {
    var h := ToInt32(x.h - y.h);
    var l := ToUint32(x.l - y.l);
    MakeULong(l, if l > x.l then ToInt32(h - 1) else h)
  }

  /** The complement of a limb: every bit flipped. */
  function NotLimb(x: uint32): uint32 {
    Pow2Is32();
    FlipIsComplement(x, 32);
    Flip(x, 32)
  }

  function UNot(x: ULong): ULong {
    ULong(NotLimb(x.l), NotLimb(x.h))
  }

  function UNeg(x: ULong): ULong {
    UAdd(UNot(x), ULongOfInt(1))
  }

  function SAdd(x: Long, y: Long): Long {
    var h := ToInt32(x.h + y.h);
    var l := ToUint32(x.l + y.l);
    Long(l, if l < x.l then ToInt32(h + 1) else h)
  }

  function SSub(x: Long, y: Long): Long {
    var h := ToInt32(x.h - y.h);
    var l := ToUint32(x.l - y.l);
    Long(l, if l > x.l then ToInt32(h - 1) else h)
  }

  function SNot(x: Long): Long {
    Long(NotLimb(x.l), ToInt32(NotLimb(ToUint32(x.h))))
  }

  function SNeg(x: Long): Long {
    SAdd(SNot(x), LongOfInt(1))
  }

  predicate ULess(x: ULong, y: ULong) {
    x.h < y.h || (x.h == y.h && x.l < y.l)
  }

  predicate UGreater(x: ULong, y: ULong) {
    x.h > y.h || (x.h == y.h && x.l > y.l)
  }

  predicate UGreaterEq(x: ULong, y: ULong) {
    x.h > y.h || (x.h == y.h && x.l >= y.l)
  }

  predicate ULessEq(x: ULong, y: ULong) {
    x.h < y.h || (x.h == y.h && x.l <= y.l)
  }

  predicate SLess(x: Long, y: Long) {
    x.h < y.h || (x.h == y.h && x.l < y.l)
  }

  predicate SGreater(x: Long, y: Long) {
    x.h > y.h || (x.h == y.h && x.l > y.l)
  }

  predicate SGreaterEq(x: Long, y: Long) {
    x.h > y.h || (x.h == y.h && x.l >= y.l)
  }

  predicate SLessEq(x: Long, y: Long) {
    x.h < y.h || (x.h == y.h && x.l <= y.l)
  }

  /** The comparison finds the carry. */
  lemma LowSum(a: uint32, b: uint32)
    ensures var l := ToUint32(a + b);
            a + b == l + (if l < a then B32 else 0)
  {}

  /** The comparison finds the borrow. */
  lemma LowDifference(a: uint32, b: uint32)
    ensures var l := ToUint32(a - b);
            a - b == l - (if l > a then B32 else 0)
  {}

  /** Wrapping early changes no later wrapping. */
  lemma WrapOnce(a: int, d: int)
    ensures ToInt32(ToInt32(a) + d) == ToInt32(a + d)
    ensures ToUint32(ToInt32(a)) == ToUint32(a)
  {
    var k := a / B32;
    assert a == B32 * k + a % B32;
    Shifted(a % B32 + d, k, B32);
    Shifted(a % B32, -1, B32);
    Shifted(a % B32 + d, -1, B32);
  }

  /** A 64-bit value from an unwrapped high limb and a low limb. */
  lemma JoinLimbs(h: int, l: uint32)
    ensures (h * B32 + l) % B64 == ToUint32(h) * B32 + l
    ensures Wrap64(h * B32 + l) == ToInt32(h) * B32 + l
  {
    var k := h / B32;
    assert h * B32 + l == k * B64 + ((h % B32) * B32 + l);
  }

  lemma UAddLimbs(x: ULong, y: ULong)
    ensures var l := ToUint32(x.l + y.l);
            UAdd(x, y) == ULong(l, ToUint32(x.h + y.h + if l < x.l then 1 else 0))
  {
    WrapOnce(x.h + y.h, 1);
    WrapOnce(x.h + y.h + 1, 0);
  }

  lemma USubLimbs(x: ULong, y: ULong)
    ensures var l := ToUint32(x.l - y.l);
            USub(x, y) == ULong(l, ToUint32(x.h - y.h - if l > x.l then 1 else 0))
  {
    WrapOnce(x.h - y.h, -1);
    WrapOnce(x.h - y.h - 1, 0);
  }

  /** The limb formula is addition mod 2^64. */
  lemma UAddIsModular(x: ULong, y: ULong)
    ensures UVal(UAdd(x, y)) == (UVal(x) + UVal(y)) % B64
  {
    hide UAdd, ToUint32;
    UAddLimbs(x, y);
    LowSum(x.l, y.l);
    var l := ToUint32(x.l + y.l);
    JoinLimbs(x.h + y.h + if l < x.l then 1 else 0, l);
  }

  /** The limb formula is subtraction mod 2^64. */
  lemma USubIsModular(x: ULong, y: ULong)
    ensures UVal(USub(x, y)) == (UVal(x) - UVal(y)) % B64
  {
    hide USub, ToUint32;
    USubLimbs(x, y);
    LowDifference(x.l, y.l);
    var l := ToUint32(x.l - y.l);
    JoinLimbs(x.h - y.h - if l > x.l then 1 else 0, l);
  }

  /** ~x + 1 is negation mod 2^64. */
  lemma UNegIsModular(x: ULong)
    ensures UVal(UNeg(x)) == -UVal(x) % B64
  {
    hide UAdd;
    UAddIsModular(UNot(x), ULongOfInt(1));
    NotIsComplement(x);
    AddModulus(-UVal(x), B64);
  }

  lemma NotIsComplement(x: ULong)
    ensures UVal(UNot(x)) == B64 - 1 - UVal(x) && UVal(ULongOfInt(1)) == 1
  {
    hide NotLimb;
    NotLimbIs(x.l);
    NotLimbIs(x.h);
  }

  lemma NotLimbIs(x: uint32)
    ensures NotLimb(x) == B32 - 1 - x
  {
    Pow2Is32();
    FlipIsComplement(x, 32);
  }

  lemma SignedLimbs(x: Long, y: Long)
    ensures var l := ToUint32(x.l + y.l);
            SAdd(x, y) == Long(l, ToInt32(x.h + y.h + if l < x.l then 1 else 0))
    ensures var l := ToUint32(x.l - y.l);
            SSub(x, y) == Long(l, ToInt32(x.h - y.h - if l > x.l then 1 else 0))
  {
    WrapOnce(x.h + y.h, 1);
    WrapOnce(x.h - y.h, -1);
  }

  /** Signed sums and differences wrap in two's complement. */
  lemma SignedWraps(x: Long, y: Long)
    ensures SVal(SAdd(x, y)) == Wrap64(SVal(x) + SVal(y))
    ensures SVal(SSub(x, y)) == Wrap64(SVal(x) - SVal(y))
  {
    hide SAdd, SSub, ToUint32, ToInt32, Wrap64;
    SignedLimbs(x, y);
    LowSum(x.l, y.l);
    LowDifference(x.l, y.l);
    var a, d := ToUint32(x.l + y.l), ToUint32(x.l - y.l);
    JoinLimbs(x.h + y.h + if a < x.l then 1 else 0, a);
    JoinLimbs(x.h - y.h - if d > x.l then 1 else 0, d);
  }

  lemma SNotIs(x: Long)
    ensures SVal(SNot(x)) == -1 - SVal(x) && SVal(LongOfInt(1)) == 1
  {
    hide NotLimb;
    NotLimbIs(x.l);
    NotLimbIs(ToUint32(x.h));
  }

  lemma SNegWraps(x: Long)
    ensures SVal(SNeg(x)) == Wrap64(-SVal(x))
  {
    hide SAdd, Wrap64, NotLimb, SVal, LongOfInt, SNot;
    SNotIs(x);
    SignedWraps(SNot(x), LongOfInt(1));
  }

  lemma WrapIsExact(v: int)
    ensures Wrap64(v) == v <==> -B63 <= v < B63
  {}

  /** A signed result is exact precisely when the true result fits in 64 bits. */
  lemma SignedIsExact(x: Long, y: Long)
    ensures SVal(SAdd(x, y)) == SVal(x) + SVal(y) <==> -B63 <= SVal(x) + SVal(y) < B63
    ensures SVal(SSub(x, y)) == SVal(x) - SVal(y) <==> -B63 <= SVal(x) - SVal(y) < B63
    ensures SVal(SNeg(x)) == -SVal(x) <==> SVal(x) != -B63
  {
    hide SAdd, SSub, SNeg, Wrap64;
    SignedWraps(x, y);
    SNegWraps(x);
    WrapIsExact(SVal(x) + SVal(y));
    WrapIsExact(SVal(x) - SVal(y));
    WrapIsExact(-SVal(x));
  }

  /** The limb-wise comparisons are the integer order; here the high limb has no sign. */
  lemma UnsignedComparisons(x: ULong, y: ULong)
    ensures ULess(x, y) <==> UVal(x) < UVal(y)
    ensures ULessEq(x, y) <==> UVal(x) <= UVal(y)
    ensures UGreater(x, y) <==> UVal(x) > UVal(y)
    ensures UGreaterEq(x, y) <==> UVal(x) >= UVal(y)
    ensures x == y <==> UVal(x) == UVal(y)
  {}

  /** Here the high limb decides with its own sign, and the low limb has none. */
  lemma SignedComparisons(s: Long, t: Long)
    ensures SLess(s, t) <==> SVal(s) < SVal(t)
    ensures SLessEq(s, t) <==> SVal(s) <= SVal(t)
    ensures SGreater(s, t) <==> SVal(s) > SVal(t)
    ensures SGreaterEq(s, t) <==> SVal(s) >= SVal(t)
    ensures s == t <==> SVal(s) == SVal(t)
  {}

  /** The classes built from an int have its value, modulo 2^64 without a sign. */
  lemma FromInt(x: int32)
    ensures SVal(LongOfInt(x)) == x && UVal(ULongOfInt(x)) == x % 0x1_0000_0000_0000_0000
  {}

  /** Conversion between the classes keeps the bits. */
  lemma ConversionsKeepBits(x: ULong, s: Long)
    ensures UVal(ULongOfLong(s)) == SVal(s) % B64 && SVal(LongOfULong(x)) == Wrap64(UVal(x))
    ensures LongOfULong(ULongOfLong(s)) == s && ULongOfLong(LongOfULong(x)) == x
  {
    JoinLimbs(s.h, s.l);
    JoinLimbs(x.h, x.l);
  }

  lemma Reduced64(v: int)
    requires 0 <= v < B64
    ensures v % B64 == v
  {}

  /** Wrapping an operand first changes no wrapped sum. */
  lemma WrapOnce64(a: int, d: int)
    ensures Wrap64(Wrap64(a) + d) == Wrap64(a + d)
    ensures Wrap64(d + Wrap64(a)) == Wrap64(d + a)
  {
    ReduceOnce(a, d, B64);
    if Wrap64(a) != a % B64 {
      Shifted(a % B64 + d, -1, B64);
    }
  }

  /** Limb by limb, subtraction undoes addition and addition undoes subtraction. */
  lemma UnsignedInverses(x: ULong, y: ULong)
    ensures USub(UAdd(x, y), y) == x && UAdd(USub(x, y), y) == x
  {
    hide *;
    UAddIsModular(x, y);
    USubIsModular(UAdd(x, y), y);
    ReduceOnce(UVal(x) + UVal(y), -UVal(y), B64);
    USubIsModular(x, y);
    UAddIsModular(USub(x, y), y);
    ReduceOnce(UVal(x) - UVal(y), UVal(y), B64);
    Reduced64(UVal(x));
    UValIsInjective(USub(UAdd(x, y), y), x);
    UValIsInjective(UAdd(USub(x, y), y), x);
  }

  lemma Zero64()
    ensures UVal(ULong(0, 0)) == 0 && SVal(Long(0, 0)) == 0
  {}

  /** x + (-x) is 0, limb by limb. */
  lemma UnsignedNegation(x: ULong)
    ensures UAdd(x, UNeg(x)) == ULong(0, 0)
  {
    hide *;
    Zero64();
    UNegIsModular(x);
    UAddIsModular(x, UNeg(x));
    ReduceOnce(-UVal(x), UVal(x), B64);
    UValIsInjective(UAdd(x, UNeg(x)), ULong(0, 0));
  }

  lemma UValIsInjective(x: ULong, y: ULong)
    ensures UVal(x) == UVal(y) ==> x == y
  {}

  lemma SValIsInjective(x: Long, y: Long)
    ensures SVal(x) == SVal(y) ==> x == y
  {}

  lemma SignedInverses(x: Long, y: Long)
    ensures SSub(SAdd(x, y), y) == x && SAdd(SSub(x, y), y) == x
  {
    hide *;
    SignedWraps(x, y);
    SignedWraps(SAdd(x, y), y);
    SignedWraps(SSub(x, y), y);
    WrapOnce64(SVal(x) + SVal(y), -SVal(y));
    WrapOnce64(SVal(x) - SVal(y), SVal(y));
    WrapIsExact(SVal(x));
    SValIsInjective(SSub(SAdd(x, y), y), x);
    SValIsInjective(SAdd(SSub(x, y), y), x);
  }

  lemma SignedNegation(x: Long)
    ensures SAdd(x, SNeg(x)) == Long(0, 0)
  {
    hide *;
    Zero64();
    SNegWraps(x);
    SignedWraps(x, SNeg(x));
    WrapOnce64(-SVal(x), SVal(x));
    WrapIsExact(0);
    SValIsInjective(SAdd(x, SNeg(x)), Long(0, 0));
  }
}
