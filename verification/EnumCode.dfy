/** enum_encode and enum_decode: an enum id and a serial number in one address, for words of n + 8 bits. */
module EnumCode {
  import opened Bits
  import opened Division

  /** How many values a word of n + 8 bits has. */
  function Words(n: nat): nat {
    ShiftLeft(256, n)
  }

  /** MAXADDR and MASK: 0xFF in the highest byte. Enum ids are not below it. */
  function MaxAddr(n: nat): nat {
    ShiftLeft(255, n)
  }

  /** id + (serial << NBITS) */
  function Encode(n: nat, id: nat, serial: nat): nat
    requires Words(n) > 0
  {
    (id + ShiftLeft(serial, n)) % Words(n)
  }

  /** delta = (code - MAXADDR) & MASK; the serial is its highest byte, the id is code - delta. */
  function Decode(n: nat, code: nat): (nat, nat)
    requires Words(n) > 0
  {
    var delta := And((code - MaxAddr(n)) % Words(n), MaxAddr(n));
    ((code - delta) % Words(n), ShiftRight(delta, n) % 256)
  }

  /** The word has 256 blocks of the size of the id range. */
  lemma WordsIs(n: nat)
    ensures ShiftLeft(1, n) > 0
    ensures Words(n) == MaxAddr(n) + ShiftLeft(1, n)
  {
    ShiftLeftAdd(255, 1, n);
    OneShifted(n);
  }

  lemma {:induction false} OneShifted(n: nat)
    ensures ShiftLeft(1, n) > 0 && ShiftLeft(0, n) == 0
  {
    if n > 0 {
      OneShifted(n - 1);
    }
  }

  lemma SerialFits(n: nat, s: nat)
    requires s < 256
    ensures ShiftLeft(s, n) <= MaxAddr(n)
    ensures if s == 0 then ShiftLeft(s, n) == 0 else ShiftLeft(s, n) >= ShiftLeft(1, n)
  {
    ShiftLeftAdd(s, 255 - s, n);
    OneShifted(n);
    if s > 0 {
      ShiftLeftAdd(1, s - 1, n);
    }
  }

  /** The mask cuts out the highest byte. */
  lemma HighByte(n: nat, a: nat, s: nat)
    requires a < ShiftLeft(1, n) && s < 256
    ensures And(ShiftLeft(s, n) + a, MaxAddr(n)) == ShiftLeft(s, n)
  {
    AndShifted(ShiftLeft(s, n) + a, 255, n);
    ShiftBack(s, a, n);
    AndByte(s);
  }

  /** One wrap in either direction. */
  lemma WrapIs(x: int, m: int, r: int)
    requires 0 <= r < m && (r == x || r == x + m || r == x - m)
    ensures x % m == r
  {
    DivisionIs(x, m, if r == x then 0 else if r == x + m then -1 else 1, r);
  }

  /** The code of the id at distance `a` from MAXADDR, without wrapping. */
  function CodeOf(n: nat, a: nat, s: nat): int {
    MaxAddr(n) + a + ShiftLeft(s, n) - (if s == 0 then 0 else Words(n))
  }

  lemma CodeOfInRange(n: nat, a: nat, s: nat)
    requires a < ShiftLeft(1, n) && s < 256
    ensures 0 <= CodeOf(n, a, s) < Words(n)
  {
    WordsIs(n);
    SerialFits(n, s);
  }

  lemma EncodeIs(n: nat, a: nat, s: nat)
    requires a < ShiftLeft(1, n) && s < 256 && Words(n) > 0
    ensures Encode(n, MaxAddr(n) + a, s) == CodeOf(n, a, s)
  {
    CodeOfInRange(n, a, s);
    WrapIs(MaxAddr(n) + a + ShiftLeft(s, n), Words(n), CodeOf(n, a, s));
  }

  lemma DecodeIs(n: nat, code: nat, a: nat, s: nat)
    requires a < ShiftLeft(1, n) && s < 256 && Words(n) > 0
    requires code == CodeOf(n, a, s)
    ensures Decode(n, code) == (MaxAddr(n) + a, s)
  {
    hide And, ShiftLeft, ShiftRight, MaxAddr, Words;
    WordsIs(n);
    SerialFits(n, s);
    WrapIs(code - MaxAddr(n), Words(n), ShiftLeft(s, n) + a);
    HighByte(n, a, s);
    WrapIs(code - ShiftLeft(s, n), Words(n), MaxAddr(n) + a);
    ShiftBack(s, 0, n);
    SmallSerial(s);
  }

  lemma SmallSerial(s: nat)
    requires s < 256
    ensures s % 256 == s
  {}

  /** Decoding a code gives back its id and serial. */
  lemma DecodeEncode(n: nat, id: nat, serial: nat)
    requires Words(n) > 0 && MaxAddr(n) <= id < Words(n) && serial < 256
    ensures Decode(n, Encode(n, id, serial)) == (id, serial)
  {
    WordsIs(n);
    EncodeIs(n, id - MaxAddr(n), serial);
    DecodeIs(n, Encode(n, id, serial), id - MaxAddr(n), serial);
  }

  /** Every word is the code of one id in the enum range and one serial. */
  lemma EncodeDecode(n: nat, code: nat)
    requires code < Words(n)
    ensures var (id, serial) := Decode(n, code);
            MaxAddr(n) <= id < Words(n) && serial < 256 && Encode(n, id, serial) == code
  {
    WordsIs(n);
    var x := if code >= MaxAddr(n) then code - MaxAddr(n) else code + ShiftLeft(1, n);
    var s := ShiftRight(x, n);
    ShiftSplit(x, n);
    ShiftRightLess(x, 256, n);
    var a := x - ShiftLeft(s, n);
    SerialFits(n, s);
    DecodeIs(n, code, a, s);
    EncodeIs(n, a, s);
  }

  /** The id is recovered exactly for ids in the enum range. */
  lemma RoundTripIffEnumId(n: nat, id: nat, serial: nat)
    requires id < Words(n) && serial < 256
    ensures Decode(n, Encode(n, id, serial)) == (id, serial) <==> id >= MaxAddr(n)
  {
    if id >= MaxAddr(n) {
      DecodeEncode(n, id, serial);
    } else {
      CodeInRange(n, id, serial);
      EncodeDecode(n, Encode(n, id, serial));
    }
  }

  /** The code is the id plus the serial in the highest byte, modulo the word. */
  lemma CodeIsSum(n: nat, id: nat, serial: nat)
    ensures Words(n) == Pow2(n + 8) && MaxAddr(n) == 255 * Pow2(n)
    ensures Encode(n, id, serial) == (id + serial * Pow2(n)) % Pow2(n + 8)
    ensures Words(24) == 0x1_0000_0000 && Words(56) == 0x1_0000_0000_0000_0000
    ensures Encode(24, id, serial) == (id + serial * 0x100_0000) % 0x1_0000_0000
    ensures Encode(56, id, serial) == (id + serial * 0x100_0000_0000_0000) % 0x1_0000_0000_0000_0000
  {
    hide ShiftLeft, Pow2;
    ShiftIsTimes(256, n);
    ShiftIsTimes(255, n);
    ShiftIsTimes(serial, n);
    EightMore(n);
    ShiftIsTimes(256, 24);
    ShiftIsTimes(serial, 24);
    ShiftIsTimes(256, 56);
    ShiftIsTimes(serial, 56);
    Powers();
  }

  lemma EightMore(n: nat)
    ensures Pow2(n + 8) == 256 * Pow2(n)
  {
    assert Pow2(n + 8) == 4 * Pow2(n + 6) == 16 * Pow2(n + 4) == 64 * Pow2(n + 2);
  }

  lemma Powers()
    ensures Pow2(24) == 0x100_0000 && Pow2(56) == 0x100_0000_0000_0000
  {
    EightMore(0);
    EightMore(8);
    EightMore(16);
    EightMore(24);
    EightMore(32);
    EightMore(40);
    EightMore(48);
  }

  lemma {:induction false} ShiftIsTimes(x: nat, n: nat)
    ensures ShiftLeft(x, n) == x * Pow2(n)
  {
    if n > 0 {
      ShiftIsTimes(x, n - 1);
      TwoTimes(x, Pow2(n - 1));
    }
  }

  lemma TwoTimes(x: nat, p: nat)
    ensures 2 * (x * p) == x * (2 * p)
  {}

  lemma CodeInRange(n: nat, id: nat, serial: nat)
    requires Words(n) > 0
    ensures Encode(n, id, serial) < Words(n)
  {}

  /** MAXADDR for words of 32 and of 64 bits. */
  lemma MaxAddrIs()
    ensures MaxAddr(24) == 0xFF00_0000 && MaxAddr(56) == 0xFF00_0000_0000_0000
  {
    ShiftEight(255, 0);
    ShiftEight(255, 8);
    ShiftEight(255, 16);
    ShiftEight(255, 24);
    ShiftEight(255, 32);
    ShiftEight(255, 40);
    ShiftEight(255, 48);
  }

  lemma ShiftEight(x: nat, n: nat)
    ensures ShiftLeft(x, n + 8) == 256 * ShiftLeft(x, n)
  {
    assert ShiftLeft(x, n + 2) == 4 * ShiftLeft(x, n);
    assert ShiftLeft(x, n + 4) == 4 * ShiftLeft(x, n + 2);
    assert ShiftLeft(x, n + 6) == 4 * ShiftLeft(x, n + 4);
    assert ShiftLeft(x, n + 8) == 4 * ShiftLeft(x, n + 6);
  }

  /** is_one_bit_mask, for words of `w` bits; 0 - 1 wraps. */
  predicate IsOneBitMask(w: nat, mask: nat) {
    And(mask, (mask - 1) % Pow2(w)) == 0
  }

  predicate IsPowerOfTwo(m: nat) {
    exists k :: 0 <= k <= m && m == Pow2(k)
  }

  lemma {:induction false} Pow2Grows(k: nat)
    ensures k < Pow2(k) && (k > 0 ==> Pow2(k) % 2 == 0)
  {
    if k > 0 {
      Pow2Grows(k - 1);
      var p := Pow2(k - 1);
      assert Pow2(k) == 2 * p;
      TwiceIsEven(p);
    }
  }

  lemma TwiceIsEven(p: nat)
    ensures 2 * p % 2 == 0
  {}

  /** An even number is a power of two exactly when its half is; an odd one only if it is 1. */
  lemma HalfPower(m: nat)
    requires m > 0
    ensures IsPowerOfTwo(m) <==> if m % 2 == 0 then IsPowerOfTwo(m / 2) else m == 1
  {
    if IsPowerOfTwo(m) {
      var k: nat :| k <= m && m == Pow2(k);
      Pow2Grows(k);
      if k > 0 {
        Pow2Grows(k - 1);
        assert m / 2 == Pow2(k - 1);
      }
    }
    if m % 2 == 0 && IsPowerOfTwo(m / 2) {
      var k: nat :| k <= m / 2 && m / 2 == Pow2(k);
      Pow2Grows(k + 1);
      assert m == Pow2(k + 1);
    }
    if m == 1 {
      assert m == Pow2(0);
    }
  }

  lemma {:induction false} AndPredecessor(m: nat)
    requires m > 0
    ensures And(m, m - 1) == 0 <==> IsPowerOfTwo(m)
  {
    hide IsPowerOfTwo;
    HalfPower(m);
    if m % 2 == 1 {
      AndSelf(m / 2);
      AndOdd(m);
    } else {
      AndPredecessor(m / 2);
      AndEven(m);
    }
  }

  lemma AndOdd(m: nat)
    requires m % 2 == 1
    ensures And(m, m - 1) == 2 * And(m / 2, m / 2)
  {}

  lemma AndEven(m: nat)
    requires m > 0 && m % 2 == 0
    ensures And(m, m - 1) == 2 * And(m / 2, m / 2 - 1)
  {
    assert (m - 1) / 2 == m / 2 - 1;
  }

  /** The test accepts exactly 0 and the powers of two. */
  lemma OneBitMasks(w: nat, mask: nat)
    requires mask < Pow2(w)
    ensures IsOneBitMask(w, mask) <==> mask == 0 || IsPowerOfTwo(mask)
  {
    if mask > 0 {
      AndPredecessor(mask);
      DivisionIs(mask - 1, Pow2(w), 0, mask - 1);
    }
  }
}
