/** uint128 and int128: two 64-bit halves, each of them two 32-bit limbs. */
module Int128 {
  import opened Division
  import opened Machine
  import opened LongLong

  datatype U128 = U128(l: ULong, h: ULong)
  datatype S128 = S128(l: ULong, h: Long)

  function Val(x: U128): (v: int)
    ensures 0 <= v < B128
  {
    UVal(x.h) * B64 + UVal(x.l)
  }

  function SignedVal(x: S128): (v: int)
    ensures -B127 <= v < B127
  {
    SVal(x.h) * B64 + UVal(x.l)
  }

  /** uint128(int x) */
  function OfInt(x: int32): U128 {
    U128(ULongOfInt(x), ULongOfInt(if x < 0 then -1 else 0))
  }

  /** uint128(longlong x) */
  function OfLong(x: Long): U128 {
    U128(ULongOfLong(x), ULongOfInt(if SLess(x, LongOfInt(0)) then -1 else 0))
  }

  /** int128(int x), int128(longlong x), int128(ulonglong x) and int128(const uint128 &x) */
  function SignedOfInt(x: int32): S128 {
    S128(ULongOfInt(x), LongOfInt(if x < 0 then -1 else 0))
  }

  function SignedOfLong(x: Long): S128 {
    S128(ULongOfLong(x), LongOfInt(if SLess(x, LongOfInt(0)) then -1 else 0))
  }

  function SignedOfULong(x: ULong): S128 {
    S128(x, LongOfInt(0))
  }

  function SignedOfU128(x: U128): S128 {
    S128(x.l, LongOfULong(x.h))
  }

  function Add(x: U128, y: U128): U128 {
    var h := UAdd(x.h, y.h);
    var l := UAdd(x.l, y.l);
    U128(l, if ULess(l, x.l) then UAdd(h, ULongOfInt(1)) else h)
  }

  function Sub(x: U128, y: U128): U128 {
    var h := USub(x.h, y.h);
    var l := USub(x.l, y.l);
    U128(l, if UGreater(l, x.l) then USub(h, ULongOfInt(1)) else h)
  }

  function Not(x: U128): U128 {
    U128(UNot(x.l), UNot(x.h))
  }

  function Neg(x: U128): U128 {
    Add(Not(x), OfInt(1))
  }

  predicate Less(x: U128, y: U128) {
    ULess(x.h, y.h) || (x.h == y.h && ULess(x.l, y.l))
  }

  predicate LessEq(x: U128, y: U128) {
    ULess(x.h, y.h) || (x.h == y.h && ULessEq(x.l, y.l))
  }

  predicate Greater(x: U128, y: U128) {
    UGreater(x.h, y.h) || (x.h == y.h && UGreater(x.l, y.l))
  }

  predicate GreaterEq(x: U128, y: U128) {
    UGreater(x.h, y.h) || (x.h == y.h && UGreaterEq(x.l, y.l))
  }

  predicate SignedLess(x: S128, y: S128) {
    SLess(x.h, y.h) || (x.h == y.h && ULess(x.l, y.l))
  }

  predicate SignedLessEq(x: S128, y: S128) {
    SLess(x.h, y.h) || (x.h == y.h && ULessEq(x.l, y.l))
  }

  predicate SignedGreater(x: S128, y: S128) {
    SGreater(x.h, y.h) || (x.h == y.h && UGreater(x.l, y.l))
  }

  predicate SignedGreaterEq(x: S128, y: S128) {
    SGreater(x.h, y.h) || (x.h == y.h && UGreaterEq(x.l, y.l))
  }

  /** A 128-bit value from an unwrapped high half. */
  lemma JoinHalves(h: int, l: int)
    requires 0 <= l < B64
    ensures (h * B64 + l) % B128 == (h % B64) * B64 + l
  {
    var k := h / B64;
    assert h * B64 + l == B128 * k + ((h % B64) * B64 + l);
    DivisionIs(h * B64 + l, B128, k, (h % B64) * B64 + l);
  }

  lemma HalfSum(a: int, b: int)
    requires 0 <= a < B64 && 0 <= b < B64
    ensures var l := (a + b) % B64;
            a + b == l + (if l < a then B64 else 0)
    ensures var l := (a - b) % B64;
            a - b == l - (if l > a then B64 else 0)
  {
    if a + b < B64 {
      DivisionIs(a + b, B64, 0, a + b);
    } else {
      DivisionIs(a + b, B64, 1, a + b - B64);
    }
    if a >= b {
      DivisionIs(a - b, B64, 0, a - b);
    } else {
      DivisionIs(a - b, B64, -1, a - b + B64);
    }
  }

  /** Carries run through all four limbs: the sum is exact mod 2^128. */
  lemma AddIsModular(x: U128, y: U128)
    ensures Val(Add(x, y)) == (Val(x) + Val(y)) % B128
  {
    hide UAdd, ULess, UVal;
    var l, h := UAdd(x.l, y.l), UAdd(x.h, y.h);
    UAddIsModular(x.l, y.l);
    UAddIsModular(x.h, y.h);
    UAddIsModular(h, ULongOfInt(1));
    One();
    HalfSum(UVal(x.l), UVal(y.l));
    UnsignedComparisons(l, x.l);
    var carry := if ULess(l, x.l) then 1 else 0;
    ReduceOnce(UVal(x.h) + UVal(y.h), carry, B64);
    JoinHalves(UVal(x.h) + UVal(y.h) + carry, UVal(l));
  }

  lemma One()
    ensures UVal(ULongOfInt(1)) == 1 && UVal(ULongOfInt(0)) == 0
  {}

  /** Borrows run through all four limbs: the difference is exact mod 2^128. */
  lemma SubIsModular(x: U128, y: U128)
    ensures Val(Sub(x, y)) == (Val(x) - Val(y)) % B128
  {
    hide USub, UGreater, UVal;
    var l, h := USub(x.l, y.l), USub(x.h, y.h);
    USubIsModular(x.l, y.l);
    USubIsModular(x.h, y.h);
    USubIsModular(h, ULongOfInt(1));
    One();
    HalfSum(UVal(x.l), UVal(y.l));
    UnsignedComparisons(l, x.l);
    var borrow := if UGreater(l, x.l) then 1 else 0;
    ReduceOnce(UVal(x.h) - UVal(y.h), -borrow, B64);
    JoinHalves(UVal(x.h) - UVal(y.h) - borrow, UVal(l));
  }

  lemma NotIsComplement128(x: U128)
    ensures Val(Not(x)) == B128 - 1 - Val(x) && Val(OfInt(1)) == 1
  {
    NotIsComplement(x.l);
    NotIsComplement(x.h);
    One();
  }

  /** ~x + 1 is negation mod 2^128. */
  lemma NegIsModular(x: U128)
    ensures Val(Neg(x)) == -Val(x) % B128
  {
    hide Add, Val, Not, OfInt;
    AddIsModular(Not(x), OfInt(1));
    NotIsComplement128(x);
    AddModulus(-Val(x), B128);
  }

  /** Different limbs are different numbers. */
  lemma ValIsInjective(x: U128, y: U128)
    requires Val(x) == Val(y)
    ensures x == y
  {
    UValIsInjective(x.l, y.l);
    UValIsInjective(x.h, y.h);
  }

  lemma Reduced(v: int)
    requires 0 <= v < B128
    ensures v % B128 == v
  {}

  /** Subtraction undoes addition, limb by limb. */
  lemma SubUndoesAdd(x: U128, y: U128)
    ensures Sub(Add(x, y), y) == x
  {
    hide *;
    AddIsModular(x, y);
    SubIsModular(Add(x, y), y);
    ReduceOnce(Val(x) + Val(y), -Val(y), B128);
    Reduced(Val(x));
    ValIsInjective(Sub(Add(x, y), y), x);
  }

  /** Addition undoes subtraction, limb by limb. */
  lemma AddUndoesSub(x: U128, y: U128)
    ensures Add(Sub(x, y), y) == x
  {
    hide *;
    SubIsModular(x, y);
    AddIsModular(Sub(x, y), y);
    ReduceOnce(Val(x) - Val(y), Val(y), B128);
    Reduced(Val(x));
    ValIsInjective(Add(Sub(x, y), y), x);
  }

  lemma Zero()
    ensures Val(OfInt(0)) == 0
  {
    One();
  }

  /** x + (-x) is 0, limb by limb. */
  lemma NegIsInverse(x: U128)
    ensures Add(x, Neg(x)) == OfInt(0)
  {
    hide *;
    Zero();
    NegIsModular(x);
    AddIsModular(x, Neg(x));
    ReduceOnce(-Val(x), Val(x), B128);
    ValIsInjective(Add(x, Neg(x)), OfInt(0));
  }

  /** x - y is x + (-y), limb by limb. */
  lemma SubIsAddOfNeg(x: U128, y: U128)
    ensures Sub(x, y) == Add(x, Neg(y))
  {
    hide *;
    NegIsModular(y);
    SubIsModular(x, y);
    AddIsModular(x, Neg(y));
    AddNegated(Val(x), Val(y));
    ValIsInjective(Sub(x, y), Add(x, Neg(y)));
  }

  lemma AddNegated(a: int, b: int)
    ensures (a + -b % B128) % B128 == (a - b) % B128
  {
    ReduceOnce(-b, a, B128);
  }

  lemma AddIsCommutativeAndAssociative(x: U128, y: U128, z: U128)
    ensures Add(x, y) == Add(y, x) && Add(Add(x, y), z) == Add(x, Add(y, z))
  {
    hide Add, Val;
    AddIsModular(x, y);
    AddIsModular(y, x);
    AddIsModular(y, z);
    AddIsModular(Add(x, y), z);
    AddIsModular(x, Add(y, z));
    ReduceOnce(Val(x) + Val(y), Val(z), B128);
    ReduceOnce(Val(y) + Val(z), Val(x), B128);
    ValIsInjective(Add(x, y), Add(y, x));
    ValIsInjective(Add(Add(x, y), z), Add(x, Add(y, z)));
  }

  /** The comparisons of the halves are the integer order, signed or not. */
  lemma ComparisonsAreIntegerOrder128(x: U128, y: U128, s: S128, t: S128)
    ensures Less(x, y) <==> Val(x) < Val(y)
    ensures LessEq(x, y) <==> Val(x) <= Val(y)
    ensures Greater(x, y) <==> Val(x) > Val(y)
    ensures GreaterEq(x, y) <==> Val(x) >= Val(y)
    ensures x == y <==> Val(x) == Val(y)
    ensures SignedLess(s, t) <==> SignedVal(s) < SignedVal(t)
    ensures SignedLessEq(s, t) <==> SignedVal(s) <= SignedVal(t)
    ensures SignedGreater(s, t) <==> SignedVal(s) > SignedVal(t)
    ensures SignedGreaterEq(s, t) <==> SignedVal(s) >= SignedVal(t)
    ensures s == t <==> SignedVal(s) == SignedVal(t)
  {
    UnsignedComparisons(x.h, y.h);
    UnsignedComparisons(x.l, y.l);
    SignedComparisons(s.h, t.h);
    UnsignedComparisons(s.l, t.l);
  }

  /** Conversion from signed integers extends the sign through all limbs. */
  lemma ConversionsExtendSign(x: Long, i: int32)
    ensures Val(OfLong(x)) == SVal(x) % B128
    ensures Val(OfInt(i)) == i % B128
  {
    ConversionsKeepBits(ULong(0, 0), x);
    SignedComparisons(x, LongOfInt(0));
    assert SVal(LongOfInt(0)) == 0;
    assert UVal(ULongOfInt(-1)) == B64 - 1 && UVal(ULongOfInt(0)) == 0;
    assert UVal(ULongOfInt(i)) == if i < 0 then i + B64 else i;
    SignExtended(SVal(x));
    SignExtended(i);
  }

  /** The signed constructors keep the number. */
  lemma SignedConstructors(i: int32, x: Long, u: ULong)
    ensures SignedVal(SignedOfInt(i)) == i && SignedVal(SignedOfLong(x)) == SVal(x)
    ensures SignedVal(SignedOfULong(u)) == UVal(u)
  {
    ConversionsKeepBits(u, x);
    SignedComparisons(x, LongOfInt(0));
    assert SVal(LongOfInt(0)) == 0 && SVal(LongOfInt(-1)) == -1;
    assert UVal(ULongOfInt(i)) == if i < 0 then i + B64 else i;
    SignExtended(SVal(x));
  }

  /** int128(const uint128 &x) keeps the bits. */
  lemma SignedKeepsBits(v: U128)
    ensures SignedVal(SignedOfU128(v)) == if Val(v) < B127 then Val(v) else Val(v) - B128
  {
    ConversionsKeepBits(v.h, Long(0, 0));
  }

  lemma SignExtended(v: int)
    requires -B64 <= v < B64
    ensures v % B64 == if v < 0 then v + B64 else v
    ensures v % B128 == if v < 0 then (B64 - 1) * B64 + (v + B64) else v
  {
    DivisionIs(v, B64, if v < 0 then -1 else 0, if v < 0 then v + B64 else v);
    DivisionIs(v, B128, if v < 0 then -1 else 0, if v < 0 then v + B128 else v);
  }
}
