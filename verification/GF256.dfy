/** Arithmetic of GF(2^8) with modulus x^8 + x^4 + x^3 + x^2 + 1 (0x11D). */
module GF256 {

  type Elem = bv8

  function Add(a: Elem, b: Elem): Elem { a ^ b }

  function Shl(a: Elem): Elem { a << 1 }

  function Shr(a: Elem): Elem { a >> 1 }

  predicate Odd(b: Elem) { b & 1 != 0 }

  predicate HighBit(a: Elem) { a & 0x80 != 0 }

  /** What gf_mul adds to the shifted operand when its high bit falls out. */
  function Overflow(a: Elem): Elem { if HighBit(a) then 0x1D else 0 }

  /** Multiplication by x. */
  function Xtime(a: Elem): Elem { Add(Shl(a), Overflow(a)) }

  function Select(b: Elem, a: Elem): Elem { if Odd(b) then a else 0 }

  /** What the last n iterations of gf_mul's loop add to the result. */
  function MulFrom(a: Elem, b: Elem, n: nat): Elem
    decreases n
  {
    if n == 0 then 0 else Add(Select(b, a), MulFrom(Xtime(a), Shr(b), n - 1))
  }

  function Mul(a: Elem, b: Elem): Elem { MulFrom(a, b, 8) }

  method GfMul(a0: Elem, b0: Elem) returns (result: Elem)
    ensures result == Mul(a0, b0)
  {
    hide Add, Shl, Shr, Odd, HighBit;
    result := 0;
    var a, b := a0, b0;
    AddZero(Mul(a0, b0));
    for i := 0 to 8
      invariant Add(result, MulFrom(a, b, 8 - i)) == Mul(a0, b0)
    {
      ghost var a', b' := a, b;
      AddAssoc(result, Select(b, a), MulFrom(Xtime(a), Shr(b), 7 - i));
      AddZero(result);
      AddZero(Shl(a));
      if Odd(b) {
        result := Add(result, a);
      }
      var highBit := HighBit(a);
      a := Shl(a);
      if highBit {
        a := Add(a, 0x1D);
      }
      b := Shr(b);
      assert a == Xtime(a') && b == Shr(b');
    }
    AddZero(result);
  }

  // ---------- bit-level facts

  lemma AddComm(a: Elem, b: Elem)
    ensures Add(a, b) == Add(b, a)
  {}

  lemma AddAssoc(a: Elem, b: Elem, c: Elem)
    ensures Add(Add(a, b), c) == Add(a, Add(b, c))
  {}

  lemma AddZero(a: Elem)
    ensures Add(a, 0) == Add(0, a) == a
  {}

  lemma AddSelf(a: Elem)
    ensures Add(a, a) == 0
  {}

  lemma AddSwap(a: Elem, b: Elem, c: Elem, d: Elem)
    ensures Add(Add(a, b), Add(c, d)) == Add(Add(a, c), Add(b, d))
  {
    hide Add;
    AddAssoc(a, b, Add(c, d));
    AddAssoc(b, c, d);
    AddComm(b, c);
    AddAssoc(c, b, d);
    AddAssoc(a, c, Add(b, d));
  }

  lemma ShlLinear(a: Elem, c: Elem)
    ensures Shl(Add(a, c)) == Add(Shl(a), Shl(c))
  {}

  lemma OverflowLinear(a: Elem, c: Elem)
    ensures Overflow(Add(a, c)) == Add(Overflow(a), Overflow(c))
  {}

  lemma SelectLinear(b: Elem, a: Elem, c: Elem)
    ensures Select(b, Add(a, c)) == Add(Select(b, a), Select(b, c))
  {}

  lemma ZeroOps()
    ensures Shl(0) == 0 && Overflow(0) == 0
  {}

  // ---------- Mul is linear and commutes with Xtime

  lemma XtimeLinear(a: Elem, c: Elem)
    ensures Xtime(Add(a, c)) == Add(Xtime(a), Xtime(c))
  {
    hide Add, Shl, Overflow;
    ShlLinear(a, c);
    OverflowLinear(a, c);
    AddSwap(Shl(a), Shl(c), Overflow(a), Overflow(c));
  }

  lemma {:induction false} MulFromLinear(a: Elem, c: Elem, b: Elem, n: nat)
    ensures MulFrom(Add(a, c), b, n) == Add(MulFrom(a, b, n), MulFrom(c, b, n))
    decreases n
  {
    hide Add, Shr, Select, Xtime;
    if n == 0 {
      AddZero(0);
    } else {
      XtimeLinear(a, c);
      SelectLinear(b, a, c);
      MulFromLinear(Xtime(a), Xtime(c), Shr(b), n - 1);
      AddSwap(Select(b, a), Select(b, c), MulFrom(Xtime(a), Shr(b), n - 1), MulFrom(Xtime(c), Shr(b), n - 1));
    }
  }

  lemma SelectXtime(b: Elem, a: Elem)
    ensures Select(b, Xtime(a)) == Xtime(Select(b, a))
  {
    hide Shl, Overflow, Odd;
    ZeroOps();
  }

  lemma {:induction false} MulFromXtime(a: Elem, b: Elem, n: nat)
    ensures MulFrom(Xtime(a), b, n) == Xtime(MulFrom(a, b, n))
    decreases n
  {
    if n == 0 {
      ZeroOps();
    } else {
      hide Add, Shr, Select, Xtime;
      MulFromXtime(Xtime(a), Shr(b), n - 1);
      SelectXtime(b, a);
      XtimeLinear(Select(b, a), MulFrom(Xtime(a), Shr(b), n - 1));
    }
  }

  lemma {:induction false} MulFromZero(b: Elem, n: nat)
    ensures MulFrom(0, b, n) == 0
    decreases n
  {
    if n > 0 {
      hide Shr, Odd;
      MulFromZero(Shr(b), n - 1);
      ZeroOps();
    }
  }

  lemma MulZero(a: Elem)
    ensures Mul(0, a) == 0 && Mul(a, 0) == 0
  {
    hide MulFrom;
    MulFromZero(a, 8);
    MulComm(a, 0);
  }

  lemma SelectMul(b: Elem, c: Elem, a: Elem)
    ensures Mul(Select(b, c), a) == Select(b, Mul(c, a))
  {
    hide MulFrom, Odd;
    MulFromZero(a, 8);
  }

  lemma {:induction false} MulFromMul(a: Elem, b: Elem, c: Elem, n: nat)
    ensures Mul(MulFrom(c, b, n), a) == MulFrom(Mul(c, a), b, n)
    decreases n
  {
    hide Add, Shr, Select, Xtime;
    if n == 0 {
      MulFromZero(a, 8);
    } else {
      MulFromLinear(Select(b, c), MulFrom(Xtime(c), Shr(b), n - 1), a, 8);
      SelectMul(b, c, a);
      MulFromMul(a, Shr(b), Xtime(c), n - 1);
      MulFromXtime(c, a, 8);
    }
  }

  // ---------- Mul is a commutative, associative, distributive product with unit 1

  lemma Bits(b: Elem)
    ensures var b1 := Shr(b); var b2 := Shr(b1); var b3 := Shr(b2); var b4 := Shr(b3);
            var b5 := Shr(b4); var b6 := Shr(b5); var b7 := Shr(b6);
            b == Add(Select(b, 1), Add(Select(b1, 2), Add(Select(b2, 4), Add(Select(b3, 8),
                 Add(Select(b4, 16), Add(Select(b5, 32), Add(Select(b6, 64), Select(b7, 128))))))))
  {}

  lemma XtimePowers()
    ensures Xtime(1) == 2 && Xtime(2) == 4 && Xtime(4) == 8 && Xtime(8) == 16
    ensures Xtime(16) == 32 && Xtime(32) == 64 && Xtime(64) == 128
  {}

  lemma MulOneLeft(b: Elem)
    ensures Mul(1, b) == b
  {
    hide Add, Shr, Select, Xtime;
    Bits(b);
    XtimePowers();
    var b1 := Shr(b); var b2 := Shr(b1); var b3 := Shr(b2); var b4 := Shr(b3);
    var b5 := Shr(b4); var b6 := Shr(b5); var b7 := Shr(b6);
    AddZero(Select(b7, 128));
    assert MulFrom(128, b7, 1) == Select(b7, 128);
    assert MulFrom(32, b5, 3) == Add(Select(b5, 32), Add(Select(b6, 64), MulFrom(128, b7, 1)));
    assert MulFrom(8, b3, 5) == Add(Select(b3, 8), Add(Select(b4, 16), MulFrom(32, b5, 3)));
    assert MulFrom(2, b1, 7) == Add(Select(b1, 2), Add(Select(b2, 4), MulFrom(8, b3, 5)));
  }

  lemma MulComm(a: Elem, b: Elem)
    ensures Mul(a, b) == Mul(b, a)
  {
    hide MulFrom;
    MulFromMul(a, b, 1, 8);
    MulOneLeft(a);
    MulOneLeft(b);
  }

  lemma MulAssoc(a: Elem, b: Elem, c: Elem)
    ensures Mul(Mul(a, b), c) == Mul(a, Mul(b, c))
  {
    hide MulFrom;
    MulComm(a, b);
    MulFromMul(c, a, b, 8);
    MulComm(a, Mul(b, c));
  }

  lemma MulAdd(a: Elem, b: Elem, c: Elem)
    ensures Mul(a, Add(b, c)) == Add(Mul(a, b), Mul(a, c))
    ensures Mul(Add(b, c), a) == Add(Mul(b, a), Mul(c, a))
  {
    hide MulFrom, Add;
    MulFromLinear(b, c, a, 8);
    MulComm(a, b);
    MulComm(a, c);
    MulComm(a, Add(b, c));
  }

  lemma MulOne(a: Elem)
    ensures Mul(1, a) == a && Mul(a, 1) == a
  {
    hide MulFrom;
    MulOneLeft(a);
    MulComm(a, 1);
  }

  // ---------- every nonzero element has an inverse: the modulus is irreducible

  ghost predicate Multiple(a: Elem, r: Elem) { exists q: Elem :: Mul(a, q) == r }

  /** One step of long division by a: s is a shifted so that its leading bit is `bit`. */
  function Clear(r: Elem, s: Elem, bit: Elem): Elem { if r & bit != 0 then Add(r, s) else r }

  lemma MultipleSelf(a: Elem)
    ensures Multiple(a, a)
  {
    hide Mul;
    MulOne(a);
  }

  lemma MultipleShl(a: Elem, s: Elem)
    requires Multiple(a, s)
    ensures Multiple(a, Xtime(s))
    ensures !HighBit(s) ==> Multiple(a, Shl(s))
  {
    hide MulFrom, Xtime, HighBit;
    var q: Elem :| Mul(a, q) == s;
    MulFromXtime(q, a, 8);
    MulComm(q, a);
    MulComm(Xtime(q), a);
    assert Mul(a, Xtime(q)) == Xtime(s);
    if !HighBit(s) { XtimeLow(s); }
  }

  lemma XtimeLow(s: Elem)
    ensures HighBit(s) ==> Xtime(s) == Add(Shl(s), 0x1D)
    ensures !HighBit(s) ==> Xtime(s) == Shl(s)
  {
    hide Shl, HighBit;
  }

  lemma MultipleClear(a: Elem, r: Elem, s: Elem, bit: Elem)
    requires Multiple(a, r) && Multiple(a, s)
    ensures Multiple(a, Clear(r, s, bit))
  {
    hide Mul, Add;
    var q: Elem :| Mul(a, q) == r;
    var q': Elem :| Mul(a, q') == s;
    MulAdd(a, q, q');
    assert Mul(a, Add(q, q')) == Add(r, s);
  }

  lemma MultipleTrans(a: Elem, s: Elem, r: Elem)
    requires Multiple(a, s) && Multiple(s, r)
    ensures Multiple(a, r)
  {
    hide Mul;
    var q: Elem :| Mul(a, q) == s;
    var q': Elem :| Mul(s, q') == r;
    MulAssoc(a, q, q');
  }

  /** The remainder of the modulus divided by a, for a of degree 7, 6, ..., 1. */
  function Rem7(a: Elem): Elem { Clear(Add(Shl(a), 0x1D), a, 0x80) }
  function Rem6(a: Elem): Elem { Clear(Rem7(Shl(a)), a, 0x40) }
  function Rem5(a: Elem): Elem { Clear(Rem6(Shl(a)), a, 0x20) }
  function Rem4(a: Elem): Elem { Clear(Rem5(Shl(a)), a, 0x10) }
  function Rem3(a: Elem): Elem { Clear(Rem4(Shl(a)), a, 0x08) }
  function Rem2(a: Elem): Elem { Clear(Rem3(Shl(a)), a, 0x04) }
  function Rem1(a: Elem): Elem { Clear(Rem2(Shl(a)), a, 0x02) }

  // No polynomial of degree 1 to 7 divides the modulus.

  lemma Rem7Nonzero(a: Elem)
    requires 0x80 <= a
    ensures 0 < Rem7(a) < 0x80
  {}

  lemma Rem6Nonzero(a: Elem)
    requires 0x40 <= a < 0x80
    ensures 0 < Rem6(a) < 0x40
  {}

  lemma Rem5Nonzero(a: Elem)
    requires 0x20 <= a < 0x40
    ensures 0 < Rem5(a) < 0x20
  {}

  lemma Rem4Nonzero(a: Elem)
    requires 0x10 <= a < 0x20
    ensures 0 < Rem4(a) < 0x10
  {}

  lemma Rem3Nonzero(a: Elem)
    requires 0x08 <= a < 0x10
    ensures 0 < Rem3(a) < 0x08
  {}

  lemma Rem2Nonzero(a: Elem)
    requires 0x04 <= a < 0x08
    ensures 0 < Rem2(a) < 0x04
  {}

  lemma Rem1Nonzero(a: Elem)
    requires 0x02 <= a < 0x04
    ensures 0 < Rem1(a) < 0x02
  {}

  lemma TopShift(a: Elem)
    ensures HighBit(a) <==> 0x80 <= a
    ensures 0x40 <= a < 0x80 ==> 0x80 <= Shl(a)
    ensures 0x20 <= a < 0x40 ==> 0x40 <= Shl(a) < 0x80
    ensures 0x10 <= a < 0x20 ==> 0x20 <= Shl(a) < 0x40
    ensures 0x08 <= a < 0x10 ==> 0x10 <= Shl(a) < 0x20
    ensures 0x04 <= a < 0x08 ==> 0x08 <= Shl(a) < 0x10
    ensures 0x02 <= a < 0x04 ==> 0x04 <= Shl(a) < 0x08
  {}

  lemma MultipleStep(a: Elem, r: Elem, bit: Elem)
    requires a < 0x80 && Multiple(Shl(a), r)
    ensures Multiple(a, Clear(r, a, bit))
  {
    hide Multiple, Clear, Shl, HighBit;
    TopShift(a);
    MultipleSelf(a);
    MultipleShl(a, a);
    MultipleTrans(a, Shl(a), r);
    MultipleClear(a, r, a, bit);
  }

  lemma Rem7Multiple(a: Elem)
    requires 0x80 <= a
    ensures Multiple(a, Rem7(a))
  {
    hide Multiple, Clear, Shl, HighBit, Xtime, Add;
    TopShift(a);
    MultipleSelf(a);
    MultipleShl(a, a);
    XtimeLow(a);
    MultipleClear(a, Add(Shl(a), 0x1D), a, 0x80);
  }

  lemma Rem6Multiple(a: Elem)
    requires 0x40 <= a < 0x80
    ensures Multiple(a, Rem6(a))
  {
    hide Multiple, Clear, Shl, Rem7;
    TopShift(a);
    Rem7Multiple(Shl(a));
    MultipleStep(a, Rem7(Shl(a)), 0x40);
  }

  lemma Rem5Multiple(a: Elem)
    requires 0x20 <= a < 0x40
    ensures Multiple(a, Rem5(a))
  {
    hide Multiple, Clear, Shl, Rem6;
    TopShift(a);
    Rem6Multiple(Shl(a));
    MultipleStep(a, Rem6(Shl(a)), 0x20);
  }

  lemma Rem4Multiple(a: Elem)
    requires 0x10 <= a < 0x20
    ensures Multiple(a, Rem4(a))
  {
    hide Multiple, Clear, Shl, Rem5;
    TopShift(a);
    Rem5Multiple(Shl(a));
    MultipleStep(a, Rem5(Shl(a)), 0x10);
  }

  lemma Rem3Multiple(a: Elem)
    requires 0x08 <= a < 0x10
    ensures Multiple(a, Rem3(a))
  {
    hide Multiple, Clear, Shl, Rem4;
    TopShift(a);
    Rem4Multiple(Shl(a));
    MultipleStep(a, Rem4(Shl(a)), 0x08);
  }

  lemma Rem2Multiple(a: Elem)
    requires 0x04 <= a < 0x08
    ensures Multiple(a, Rem2(a))
  {
    hide Multiple, Clear, Shl, Rem3;
    TopShift(a);
    Rem3Multiple(Shl(a));
    MultipleStep(a, Rem3(Shl(a)), 0x04);
  }

  lemma Rem1Multiple(a: Elem)
    requires 0x02 <= a < 0x04
    ensures Multiple(a, Rem1(a))
  {
    hide Multiple, Clear, Shl, Rem2;
    TopShift(a);
    Rem2Multiple(Shl(a));
    MultipleStep(a, Rem2(Shl(a)), 0x02);
  }

  /** Long division of the modulus by a leaves a smaller nonzero multiple of a. */
  lemma SmallerMultiple(a: Elem) returns (r: Elem)
    requires 1 < a
    ensures 0 < r < a && Multiple(a, r)
  {
    hide Multiple, Rem7, Rem6, Rem5, Rem4, Rem3, Rem2, Rem1;
    if 0x80 <= a { r := Rem7(a); Rem7Nonzero(a); Rem7Multiple(a); }
    else if 0x40 <= a { r := Rem6(a); Rem6Nonzero(a); Rem6Multiple(a); }
    else if 0x20 <= a { r := Rem5(a); Rem5Nonzero(a); Rem5Multiple(a); }
    else if 0x10 <= a { r := Rem4(a); Rem4Nonzero(a); Rem4Multiple(a); }
    else if 0x08 <= a { r := Rem3(a); Rem3Nonzero(a); Rem3Multiple(a); }
    else if 0x04 <= a { r := Rem2(a); Rem2Nonzero(a); Rem2Multiple(a); }
    else { r := Rem1(a); Rem1Nonzero(a); Rem1Multiple(a); }
  }

  lemma {:induction false} Invertible(a: Elem)
    requires a != 0
    ensures Multiple(a, 1)
    decreases a
  {
    hide Multiple;
    if a == 1 {
      MultipleSelf(1);
    } else {
      var r := SmallerMultiple(a);
      Invertible(r);
      MultipleTrans(a, r, 1);
    }
  }

  lemma NoZeroDivisors(a: Elem, b: Elem)
    requires a != 0 && b != 0
    ensures Mul(a, b) != 0
  {
    hide Mul;
    Invertible(a);
    var q: Elem :| Mul(a, q) == 1;
    MulComm(a, q);
    MulAssoc(q, a, b);
    MulOne(b);
    MulZero(q);
  }

  lemma Cancel(a: Elem, b: Elem, c: Elem)
    requires a != 0 && Mul(a, b) == Mul(a, c)
    ensures b == c
  {
    hide Mul;
    Invertible(a);
    var q: Elem :| Mul(a, q) == 1;
    MulComm(a, q);
    MulAssoc(q, a, b);
    MulAssoc(q, a, c);
    MulOne(b);
    MulOne(c);
  }

  // ---------- powers: a^255 == 1, so a^254 is the inverse

  /** Repeated multiplication. */
  function Pow(a: Elem, n: nat): Elem { if n == 0 then 1 else Mul(a, Pow(a, n - 1)) }

  lemma {:induction false} PowAdd(a: Elem, m: nat, n: nat)
    ensures Pow(a, m + n) == Mul(Pow(a, m), Pow(a, n))
    decreases m
  {
    hide Mul;
    if m == 0 {
      MulOne(Pow(a, n));
    } else {
      PowAdd(a, m - 1, n);
      MulAssoc(a, Pow(a, m - 1), Pow(a, n));
    }
  }

  lemma {:induction false} PowSquare(a: Elem, n: nat)
    ensures Pow(Mul(a, a), n) == Pow(a, 2 * n)
    decreases n
  {
    hide Mul;
    if n > 0 {
      PowSquare(a, n - 1);
      MulAssoc(a, a, Pow(a, 2 * n - 2));
      assert Pow(a, 2 * n) == Mul(a, Pow(a, 2 * n - 1));
      assert Pow(a, 2 * n - 1) == Mul(a, Pow(a, 2 * n - 2));
    }
  }

  method GfPow(a0: Elem, n0: int) returns (result: Elem)
    ensures result == Pow(a0, if n0 > 0 then n0 else 0)
  {
    hide Mul;
    result := 1;
    var a, n := a0, n0;
    ghost var target := Pow(a0, if n0 > 0 then n0 else 0);
    MulOne(target);
    while n > 0
      invariant n0 <= 0 ==> n == n0
      invariant 0 < n0 ==> 0 <= n
      invariant Mul(result, Pow(a, if n > 0 then n else 0)) == target
    {
      PowSquare(a, n / 2);
      if n % 2 == 1 {
        MulAssoc(result, a, Pow(a, n - 1));
        result := GfMul(result, a);
      }
      a := GfMul(a, a);
      n := n / 2;
    }
    MulOne(result);
  }

  function Sq(a: Elem): Elem { Mul(a, a) }

  lemma SqAdd(a: Elem, b: Elem)
    ensures Sq(Add(a, b)) == Add(Sq(a), Sq(b))
  {
    hide Mul, Add;
    MulAdd(Add(a, b), a, b);
    MulAdd(a, a, b);
    MulAdd(b, a, b);
    MulComm(a, b);
    AddComm(Mul(b, a), Sq(b));
    AddSwap(Sq(a), Mul(a, b), Sq(b), Mul(a, b));
    AddSelf(Mul(a, b));
    AddZero(Add(Sq(a), Sq(b)));
  }

  lemma SqMul(a: Elem, b: Elem)
    ensures Sq(Mul(a, b)) == Mul(Sq(a), Sq(b))
  {
    hide Mul;
    MulAssoc(a, b, Mul(a, b));
    MulAssoc(b, a, b);
    MulComm(a, b);
    MulAssoc(a, b, b);
    MulAssoc(a, a, Mul(b, b));
  }

  /** The n-fold Frobenius map, a to the power 2^n. */
  function Frobenius(a: Elem, n: nat): Elem { if n == 0 then a else Sq(Frobenius(a, n - 1)) }

  lemma {:induction false} FrobeniusHom(a: Elem, b: Elem, n: nat)
    ensures Frobenius(Add(a, b), n) == Add(Frobenius(a, n), Frobenius(b, n))
    ensures Frobenius(Mul(a, b), n) == Mul(Frobenius(a, n), Frobenius(b, n))
    decreases n
  {
    hide Add, Mul, Sq;
    if n > 0 {
      FrobeniusHom(a, b, n - 1);
      SqAdd(Frobenius(a, n - 1), Frobenius(b, n - 1));
      SqMul(Frobenius(a, n - 1), Frobenius(b, n - 1));
    }
  }

  lemma SqXtime(a: Elem)
    ensures Sq(Xtime(a)) == Xtime(Xtime(Sq(a)))
  {
    hide MulFrom, Xtime;
    MulFromXtime(a, Xtime(a), 8);
    MulComm(a, Xtime(a));
    MulFromXtime(a, a, 8);
  }

  lemma SqBasis()
    ensures Sq(1) == 1 && Sq(2) == 4 && Sq(4) == 16 && Sq(8) == 64
    ensures Sq(16) == 29 && Sq(64) == 205 && Sq(128) == 19
  {
    assert Xtime(128) == 29 && Xtime(29) == 58 && Xtime(58) == 116 && Xtime(116) == 232;
    assert Xtime(232) == 205 && Xtime(205) == 135 && Xtime(135) == 19;
    XtimePowers();
    hide Mul, Xtime;
    MulOne(1);
    SqXtime(1); SqXtime(2); SqXtime(4); SqXtime(8); SqXtime(16); SqXtime(32); SqXtime(64);
  }

  lemma BasisSums()
    ensures 29 == Add(Add(16, 8), Add(4, 1)) && 76 == Add(Add(29, 64), Add(16, 1))
    ensures 76 == Add(64, Add(8, 4)) && 157 == Add(205, Add(64, 16))
    ensures 157 == Add(Add(128, 16), Add(8, Add(4, 1))) && 95 == Add(Add(19, 29), Add(64, Add(16, 1)))
    ensures 95 == Add(Add(64, 16), Add(Add(8, 4), Add(2, 1)))
    ensures 133 == Add(Add(205, 29), Add(Add(64, 16), Add(4, 1)))
    ensures 133 == Add(128, Add(4, 1)) && 2 == Add(19, Add(16, 1))
  {}

  lemma FrobeniusTwo()
    ensures Frobenius(2, 8) == 2
  {
    hide Add, Mul, Sq;
    SqBasis();
    BasisSums();
    assert Frobenius(2, 3) == 29;
    SqAdd(Add(16, 8), Add(4, 1)); SqAdd(16, 8); SqAdd(4, 1);
    assert Sq(29) == 76;
    SqAdd(64, Add(8, 4)); SqAdd(8, 4);
    assert Sq(76) == 157;
    SqAdd(Add(128, 16), Add(8, Add(4, 1))); SqAdd(128, 16); SqAdd(8, Add(4, 1));
    assert Sq(157) == 95;
    SqAdd(Add(64, 16), Add(Add(8, 4), Add(2, 1))); SqAdd(64, 16); SqAdd(Add(8, 4), Add(2, 1)); SqAdd(2, 1);
    assert Sq(95) == 133;
    SqAdd(128, Add(4, 1));
    assert Sq(133) == 2;
    assert Frobenius(2, 5) == 157;
  }

  lemma Halve(a: Elem)
    ensures a != 0 ==> Shr(a) < a
    ensures a == Add(Xtime(Shr(a)), Select(a, 1))
  {}

  /** a^256 == a: the map fixes 1 and 2 and respects both operations. */
  lemma {:induction false} FrobeniusFixes(a: Elem)
    ensures Frobenius(a, 8) == a
    decreases a
  {
    hide Add, Mul, Sq, Shr, Xtime, Odd, MulFrom;
    assert Frobenius(0, 8) == 0 by { FrobeniusConst(0, 8); }
    if a != 0 {
      Halve(a);
      FrobeniusFixes(Shr(a));
      FrobeniusTwo();
      XtimeIsMul(Shr(a));
      FrobeniusHom(2, Shr(a), 8);
      FrobeniusConst(1, 8);
      FrobeniusHom(Xtime(Shr(a)), Select(a, 1), 8);
    }
  }

  lemma {:induction false} FrobeniusConst(a: Elem, n: nat)
    requires a == 0 || a == 1
    ensures Frobenius(a, n) == a
    decreases n
  {
    hide Mul;
    if n > 0 {
      FrobeniusConst(a, n - 1);
      MulOne(1);
      MulZero(0);
    }
  }

  lemma XtimeIsMul(a: Elem)
    ensures Xtime(a) == Mul(2, a)
  {
    hide MulFrom, Xtime;
    XtimePowers();
    MulFromXtime(1, a, 8);
    MulOne(a);
  }

  lemma PowFrobenius(a: Elem)
    ensures Pow(a, 256) == a
  {
    hide Mul, Pow;
    PowAdd(a, 128, 128); PowAdd(a, 64, 64); PowAdd(a, 32, 32); PowAdd(a, 16, 16);
    PowAdd(a, 8, 8); PowAdd(a, 4, 4); PowAdd(a, 2, 2); PowAdd(a, 1, 1);
    PowOne(a);
    FrobeniusFixes(a);
    assert Frobenius(a, 1) == Pow(a, 2);
    assert Frobenius(a, 2) == Pow(a, 4);
    assert Frobenius(a, 3) == Pow(a, 8);
    assert Frobenius(a, 4) == Pow(a, 16);
    assert Frobenius(a, 5) == Pow(a, 32);
    assert Frobenius(a, 6) == Pow(a, 64);
    assert Frobenius(a, 7) == Pow(a, 128);
  }

  lemma PowOne(a: Elem)
    ensures Pow(a, 1) == a
  {
    hide Mul;
    MulOne(a);
    assert Pow(a, 0) == 1;
  }

  /**
   The powers of x, written out. With commutativity, associativity and distributivity they fix every product:
   x^8 is x^4 + x^3 + x^2 + 1.
   */
  lemma PowersOfX()
    ensures Pow(2, 0) == 0x01 && Pow(2, 1) == 0x02 && Pow(2, 2) == 0x04 && Pow(2, 3) == 0x08
    ensures Pow(2, 4) == 0x10 && Pow(2, 5) == 0x20 && Pow(2, 6) == 0x40 && Pow(2, 7) == 0x80
    ensures Pow(2, 8) == 0x1D
  {
    XtimePowers();
    assert Xtime(128) == 0x1D;
    hide Xtime, Mul;
    XtimeIsMul(1);
    XtimeIsMul(2);
    XtimeIsMul(4);
    XtimeIsMul(8);
    XtimeIsMul(16);
    XtimeIsMul(32);
    XtimeIsMul(64);
    XtimeIsMul(128);
    assert Pow(2, 1) == Mul(2, Pow(2, 0));
    assert Pow(2, 2) == Mul(2, Pow(2, 1));
    assert Pow(2, 3) == Mul(2, Pow(2, 2));
    assert Pow(2, 4) == Mul(2, Pow(2, 3));
    assert Pow(2, 5) == Mul(2, Pow(2, 4));
    assert Pow(2, 6) == Mul(2, Pow(2, 5));
    assert Pow(2, 7) == Mul(2, Pow(2, 6));
    assert Pow(2, 8) == Mul(2, Pow(2, 7));
  }

  function Inv(a: Elem): Elem { Pow(a, 254) }

  function Div(a: Elem, b: Elem): Elem { Mul(a, Inv(b)) }

  /** gf_inv is the inverse on every nonzero element (and 0 on 0). */
  lemma InvLaw(a: Elem)
    ensures a != 0 ==> Mul(a, Inv(a)) == 1
    ensures a == 0 ==> Inv(a) == 0
  {
    hide Mul, Pow;
    PowAdd(a, 1, 254);
    PowOne(a);
    if a == 0 {
      PowAdd(a, 1, 253);
      MulZero(Pow(a, 253));
    } else {
      PowFrobenius(a);
      PowAdd(a, 1, 255);
      MulOne(a);
      Cancel(a, Pow(a, 255), 1);
    }
  }

  method GfInv(a: Elem) returns (r: Elem)
    ensures r == Inv(a)
    ensures if a == 0 then r == 0 else Mul(a, r) == 1
  {
    hide Mul, Pow;
    InvLaw(a);
    r := GfPow(a, 254);
  }

  method GfDiv(a: Elem, b: Elem) returns (r: Elem)
    ensures r == Div(a, b)
    ensures if b == 0 then r == 0 else Mul(b, r) == a
  {
    hide Mul, Inv;
    var i := GfInv(b);
    MulComm(a, i);
    MulAssoc(b, i, a);
    MulOne(a);
    MulZero(a);
    r := GfMul(a, i);
  }
}
