// Bitwise operations on natural numbers. The C code's symbols are unsigned
// integers: a symbol of width m is a natural number below Pow2(m), `^` is Xor,
// `>> n` is Shr and `& (2^n - 1)` is Low.
module Bits {

  function Pow2(n: nat): (r: nat)
    ensures r >= 1
  {
    if n == 0 then 1 else 2 * Pow2(n - 1)
  }

  function Xor(a: nat, b: nat): nat
    decreases a + b
  {
    if a == 0 && b == 0 then 0
    else (if a % 2 == b % 2 then 0 else 1) + 2 * Xor(a / 2, b / 2)
  }

  function Shr(a: nat, n: nat): nat
  {
    if n == 0 then a else Shr(a / 2, n - 1)
  }

  function Low(a: nat, n: nat): (r: nat)
    ensures r < Pow2(n)
  {
    if n == 0 then 0 else a % 2 + 2 * Low(a / 2, n - 1)
  }

  lemma XorUnfold(a: nat, b: nat)
    ensures Xor(a, b) % 2 == if a % 2 == b % 2 then 0 else 1
    ensures Xor(a, b) / 2 == Xor(a / 2, b / 2)
  {
  }

  lemma {:induction false} XorZero(a: nat)
    ensures Xor(a, 0) == a && Xor(0, a) == a
  {
    if a != 0 { XorZero(a / 2); }
  }

  lemma {:induction false} XorSelf(a: nat)
    ensures Xor(a, a) == 0
  {
    if a != 0 { XorSelf(a / 2); }
  }

  lemma {:induction false} XorComm(a: nat, b: nat)
    ensures Xor(a, b) == Xor(b, a)
    decreases a + b
  {
    if a != 0 || b != 0 { XorComm(a / 2, b / 2); }
  }

  lemma HalvesDetermine(x: nat, y: nat)
    requires x % 2 == y % 2 && x / 2 == y / 2
    ensures x == y
  {
  }

  lemma {:induction false} XorAssoc(a: nat, b: nat, c: nat)
    ensures Xor(Xor(a, b), c) == Xor(a, Xor(b, c))
    decreases a + b + c
  {
    hide Xor;
    if a + b + c == 0 {
      XorZero(0);
    } else {
      XorAssoc(a / 2, b / 2, c / 2);
      XorUnfold(a, b);
      XorUnfold(b, c);
      XorUnfold(Xor(a, b), c);
      XorUnfold(a, Xor(b, c));
      HalvesDetermine(Xor(Xor(a, b), c), Xor(a, Xor(b, c)));
    }
  }

  lemma {:induction false} XorBound(a: nat, b: nat, n: nat)
    requires a < Pow2(n) && b < Pow2(n)
    ensures Xor(a, b) < Pow2(n)
  {
    if n > 0 { XorBound(a / 2, b / 2, n - 1); }
  }

  lemma {:induction false} XorEqZero(a: nat, b: nat)
    requires Xor(a, b) == 0
    ensures a == b
    decreases a + b
  {
    if a != 0 || b != 0 {
      XorUnfold(a, b);
      XorEqZero(a / 2, b / 2);
    }
  }

  lemma XorDouble(a: nat, b: nat)
    ensures Xor(2 * a, 2 * b) == 2 * Xor(a, b)
  {
    XorUnfold(2 * a, 2 * b);
  }

  // (a ^ b) ^ (c ^ d) regrouped as (a ^ c) ^ (b ^ d).
  lemma XorSwap(a: nat, b: nat, c: nat, d: nat)
    ensures Xor(Xor(a, b), Xor(c, d)) == Xor(Xor(a, c), Xor(b, d))
  {
    hide Xor;
    XorAssoc(a, b, Xor(c, d));
    XorAssoc(b, c, d);
    XorComm(b, c);
    XorAssoc(c, b, d);
    XorAssoc(a, c, Xor(b, d));
  }

  // Moving the last term of a sum into an accumulator.
  lemma XorMove(acc: nat, rest: nat, term: nat)
    ensures Xor(acc, Xor(rest, term)) == Xor(Xor(acc, term), rest)
    ensures Xor(rest, 0) == rest
  {
    hide Xor;
    XorComm(rest, term);
    XorAssoc(acc, term, rest);
    XorZero(rest);
  }

  // Exclusive-or undoes itself.
  lemma XorCancel(a: nat, b: nat)
    ensures Xor(a, Xor(a, b)) == b && Xor(Xor(b, a), a) == b
  {
    hide Xor;
    XorAssoc(a, a, b);
    XorAssoc(b, a, a);
    XorSelf(a);
    XorZero(b);
  }

  lemma LowUnfold(a: nat, n: nat)
    requires n > 0
    ensures Low(a, n) % 2 == a % 2 && Low(a, n) / 2 == Low(a / 2, n - 1)
  {
  }

  lemma {:induction false} XorLow(a: nat, b: nat, n: nat)
    ensures Low(Xor(a, b), n) == Xor(Low(a, n), Low(b, n))
  {
    hide Xor;
    if n == 0 {
      XorZero(0);
    } else {
      hide Low;
      LowUnfold(a, n);
      LowUnfold(b, n);
      LowUnfold(Xor(a, b), n);
      XorUnfold(a, b);
      XorUnfold(Low(a, n), Low(b, n));
      XorLow(a / 2, b / 2, n - 1);
      HalvesDetermine(Low(Xor(a, b), n), Xor(Low(a, n), Low(b, n)));
    }
  }

  lemma {:induction false} XorShift(a: nat, b: nat, n: nat)
    ensures Shr(Xor(a, b), n) == Xor(Shr(a, n), Shr(b, n))
  {
    if n > 0 {
      XorUnfold(a, b);
      XorShift(a / 2, b / 2, n - 1);
    }
  }

  lemma {:induction false} LowOfSmall(a: nat, n: nat)
    requires a < Pow2(n)
    ensures Low(a, n) == a
  {
    if n > 0 { LowOfSmall(a / 2, n - 1); }
  }

  lemma LowOfZero(n: nat)
    ensures Low(0, n) == 0
  {
    LowOfSmall(0, n);
  }

  lemma {:induction false} ShiftAndMask(a: nat, n: nat)
    ensures a == Pow2(n) * Shr(a, n) + Low(a, n)
  {
    if n > 0 {
      ShiftAndMask(a / 2, n - 1);
      TwiceProduct(Pow2(n - 1), Shr(a / 2, n - 1));
    }
  }

  lemma TwiceProduct(p: nat, q: nat)
    ensures (2 * p) * q == 2 * (p * q)
  {
  }
}
