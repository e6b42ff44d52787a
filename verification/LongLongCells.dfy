/** The operators that change an integer in place: ++, --, += and -=. */
module LongLongCells {
  import opened Division
  import opened Machine
  import opened LongLong
  import opened Int128

  class ULongCell {
    var l: uint32
    var h: uint32

    constructor (x: ULong)
      ensures Value() == x
    {
      l, h := x.l, x.h;
    }

    function Value(): ULong
      reads this
    {
      ULong(l, h)
    }

    method Increment()
      modifies this
      ensures UVal(Value()) == (UVal(old(Value())) + 1) % B64
    {
      StepUp(l, h);
      l := ToUint32(l + 1);
      if l == 0 {
        h := ToUint32(h + 1);
      }
    }

    method Decrement()
      modifies this
      ensures UVal(Value()) == (UVal(old(Value())) - 1) % B64
    {
      StepDown(l, h);
      var was := l;
      l := ToUint32(l - 1);
      if was == 0 {
        h := ToUint32(h - 1);
      }
    }

    method UpThenDown()
      modifies this
      ensures Value() == old(Value())
    {
      ghost var a := Value();
      Increment();
      ghost var b := Value();
      Decrement();
      StepsCancel64(a, b, Value());
    }

    method DownThenUp()
      modifies this
      ensures Value() == old(Value())
    {
      ghost var a := Value();
      Decrement();
      ghost var b := Value();
      Increment();
      StepsCancel64(a, b, Value());
    }

    method AddAssign(y: ULong)
      modifies this
      ensures UVal(Value()) == (UVal(old(Value())) + UVal(y)) % B64
    {
      UAddIsModular(Value(), y);
      var r := UAdd(Value(), y);
      l, h := r.l, r.h;
    }

    method SubAssign(y: ULong)
      modifies this
      ensures UVal(Value()) == (UVal(old(Value())) - UVal(y)) % B64
    {
      USubIsModular(Value(), y);
      var r := USub(Value(), y);
      l, h := r.l, r.h;
    }
  }

  class LongCell {
    var l: uint32
    var h: int32

    constructor (x: Long)
      ensures Value() == x
    {
      l, h := x.l, x.h;
    }

    function Value(): Long
      reads this
    {
      Long(l, h)
    }

    method Increment()
      modifies this
      ensures SVal(Value()) == Wrap64(SVal(old(Value())) + 1)
    {
      StepUp(l, h);
      l := ToUint32(l + 1);
      if l == 0 {
        h := ToInt32(h + 1);
      }
    }

    method Decrement()
      modifies this
      ensures SVal(Value()) == Wrap64(SVal(old(Value())) - 1)
    {
      StepDown(l, h);
      var was := l;
      l := ToUint32(l - 1);
      if was == 0 {
        h := ToInt32(h - 1);
      }
    }

    method UpThenDown()
      modifies this
      ensures Value() == old(Value())
    {
      ghost var a := Value();
      Increment();
      ghost var b := Value();
      Decrement();
      SignedStepsCancel64(a, b, Value());
    }

    method DownThenUp()
      modifies this
      ensures Value() == old(Value())
    {
      ghost var a := Value();
      Decrement();
      ghost var b := Value();
      Increment();
      SignedStepsCancel64(a, b, Value());
    }

    method AddAssign(y: Long)
      modifies this
      ensures SVal(Value()) == Wrap64(SVal(old(Value())) + SVal(y))
    {
      SignedWraps(Value(), y);
      var r := SAdd(Value(), y);
      l, h := r.l, r.h;
    }

    method SubAssign(y: Long)
      modifies this
      ensures SVal(Value()) == Wrap64(SVal(old(Value())) - SVal(y))
    {
      SignedWraps(Value(), y);
      var r := SSub(Value(), y);
      l, h := r.l, r.h;
    }
  }

  /** A step up, limb by limb: the high limb moves when the new low limb is 0. */
  lemma StepUp(l: uint32, h: int)
    ensures var l' := ToUint32(l + 1);
            var h' := if l' == 0 then h + 1 else h;
            && h' * B32 + l' == h * B32 + l + 1
            && (h * B32 + l + 1) % B64 == ToUint32(h') * B32 + l'
            && Wrap64(h * B32 + l + 1) == ToInt32(h') * B32 + l'
            && (-0x8000_0000 <= h < 0x8000_0000 ==> ToInt32(h) == h) && (0 <= h < B32 ==> ToUint32(h) == h)
  {
    var l' := ToUint32(l + 1);
    JoinLimbs(if l' == 0 then h + 1 else h, l');
  }

  /** A step down: the high limb moves when the old low limb is 0. */
  lemma StepDown(l: uint32, h: int)
    ensures var l' := ToUint32(l - 1);
            var h' := if l == 0 then h - 1 else h;
            && h' * B32 + l' == h * B32 + l - 1
            && (h * B32 + l - 1) % B64 == ToUint32(h') * B32 + l'
            && Wrap64(h * B32 + l - 1) == ToInt32(h') * B32 + l'
            && (-0x8000_0000 <= h < 0x8000_0000 ==> ToInt32(h) == h) && (0 <= h < B32 ==> ToUint32(h) == h)
  {
    JoinLimbs(if l == 0 then h - 1 else h, ToUint32(l - 1));
  }

  /** uint128 as an object that holds its two ulonglong halves. */
  class U128Cell {
    const l: ULongCell
    const h: ULongCell

    constructor (x: U128)
      ensures Valid() && fresh(l) && fresh(h) && Value() == x
    {
      l := new ULongCell(x.l);
      h := new ULongCell(x.h);
    }

    ghost predicate Valid() {
      l != h
    }

    function Value(): U128
      reads l, h
    {
      U128(l.Value(), h.Value())
    }

    /** The carry test reads the low half after its own step. */
    method Increment()
      requires Valid()
      modifies l, h
      ensures Val(Value()) == (Val(old(Value())) + 1) % B128
    {
      ghost var low, high := UVal(l.Value()), UVal(h.Value());
      l.Increment();
      HalfStep(low, high, 1);
      ZeroIs(l.Value());
      if l.Value() == ULongOfInt(0) {
        h.Increment();
      }
    }

    /** The borrow test reads the low half before its step. */
    method Decrement()
      requires Valid()
      modifies l, h
      ensures Val(Value()) == (Val(old(Value())) - 1) % B128
    {
      ghost var low, high := UVal(l.Value()), UVal(h.Value());
      HalfStep(low, high, -1);
      ZeroIs(l.Value());
      if l.Value() == ULongOfInt(0) {
        h.Decrement();
      }
      l.Decrement();
    }

    method UpThenDown()
      requires Valid()
      modifies l, h
      ensures Value() == old(Value())
    {
      ghost var a := Value();
      Increment();
      ghost var b := Value();
      Decrement();
      StepsCancel(a, b, Value());
    }

    method DownThenUp()
      requires Valid()
      modifies l, h
      ensures Value() == old(Value())
    {
      ghost var a := Value();
      Decrement();
      ghost var b := Value();
      Increment();
      StepsCancel(a, b, Value());
    }

    method AddAssign(y: U128)
      requires Valid()
      modifies l, h
      ensures Val(Value()) == (Val(old(Value())) + Val(y)) % B128
    {
      AddIsModular(Value(), y);
      Assign(Add(Value(), y));
    }

    method SubAssign(y: U128)
      requires Valid()
      modifies l, h
      ensures Val(Value()) == (Val(old(Value())) - Val(y)) % B128
    {
      SubIsModular(Value(), y);
      Assign(Sub(Value(), y));
    }

    method Assign(x: U128)
      requires Valid()
      modifies l, h
      ensures Value() == x
    {
      l.l, l.h := x.l.l, x.l.h;
      h.l, h.h := x.h.l, x.h.h;
    }
  }

  lemma ZeroIs(x: ULong)
    ensures x == ULongOfInt(0) <==> UVal(x) == 0
  {}

  /** A step of 1 or -1 through two 64-bit halves. */
  lemma HalfStep(low: int, high: int, d: int)
    requires 0 <= low < B64 && 0 <= high < B64 && (d == 1 || d == -1)
    ensures var l := (low + d) % B64;
            var moved := if d == 1 then l == 0 else low == 0;
            var h := if moved then (high + d) % B64 else high;
            h * B64 + l == (high * B64 + low + d) % B128
  {
    var l := (low + d) % B64;
    var moved := if d == 1 then l == 0 else low == 0;
    HalfSum(low, 1);
    JoinHalves(if moved then high + d else high, l);
    DivisionIs(high, B64, 0, high);
  }

  /** ++ and -- undo each other, despite their different tests. */
  lemma StepsCancel(a: U128, b: U128, c: U128)
    ensures Val(b) == (Val(a) + 1) % B128 && Val(c) == (Val(b) - 1) % B128 ==> c == a
    ensures Val(b) == (Val(a) - 1) % B128 && Val(c) == (Val(b) + 1) % B128 ==> c == a
  {
    hide Val;
    ReduceOnce(Val(a) + 1, -1, B128);
    ReduceOnce(Val(a) - 1, 1, B128);
    Reduced(Val(a));
    if Val(c) == Val(a) {
      ValIsInjective(c, a);
    }
  }

  lemma StepsCancel64(a: ULong, b: ULong, c: ULong)
    ensures UVal(b) == (UVal(a) + 1) % B64 && UVal(c) == (UVal(b) - 1) % B64 ==> c == a
    ensures UVal(b) == (UVal(a) - 1) % B64 && UVal(c) == (UVal(b) + 1) % B64 ==> c == a
  {
    hide UVal;
    ReduceOnce(UVal(a) + 1, -1, B64);
    ReduceOnce(UVal(a) - 1, 1, B64);
    Reduced64(UVal(a));
    if UVal(c) == UVal(a) {
      UValIsInjective(c, a);
    }
  }

  lemma SignedStepsCancel64(a: Long, b: Long, c: Long)
    ensures SVal(b) == Wrap64(SVal(a) + 1) && SVal(c) == Wrap64(SVal(b) - 1) ==> c == a
    ensures SVal(b) == Wrap64(SVal(a) - 1) && SVal(c) == Wrap64(SVal(b) + 1) ==> c == a
  {
    hide SVal, Wrap64;
    WrapOnce64(SVal(a) + 1, -1);
    WrapOnce64(SVal(a) - 1, 1);
    WrapIsExact(SVal(a));
    if SVal(c) == SVal(a) {
      SValIsInjective(c, a);
    }
  }
}
