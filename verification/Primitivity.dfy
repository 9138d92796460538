// What the register test at the end of the table loop of lib/libfec/init_rs.h
// says about a field polynomial, and what it does not.
module Primitivity {
  import opened Bits
  import opened GaloisField
  import opened Periods

  // The numbers of turns after which the register is back at 1.
  ghost function Returns(f: Register): nat -> bool {
    (k: nat) => f.Alpha(k) == 1
  }

  lemma ReturnsClosed(f: Register)
    ensures Closed(Returns(f))
  {
    hide f.StepN;
    var p := Returns(f);
    AlphaZero(f);
    forall a: nat, b: nat | p(a) ensures p(Sum(a, b)) <==> p(b) {
      assert Sum(a, b) == b + a;
      StepNAdd(f, b, a, 1);
    }
  }

  // The register comes back first after nn turns exactly when it is back
  // after nn turns and after no proper divisor of nn: two facts a caller can
  // establish by running the register.
  ghost predicate NoDivisorPeriod(f: Register) {
    forall d: nat :: 0 < d < f.Nn() && Divisor(d, f.Nn()) ==> f.Alpha(d) != 1
  }

  lemma PrimitiveTest(f: Register)
    requires f.m >= 1
    ensures f.Primitive() <==> f.Alpha(f.Nn()) == 1 && NoDivisorPeriod(f)
  {
    hide f.Alpha, f.Size, Divisor;
    if f.Alpha(f.Nn()) == 1 {
      ReturnsClosed(f);
      var p := Returns(f);
      ShortestPeriod(p, f.Nn());
      if NoDivisorPeriod(f) {
        forall i: nat | 0 < i < f.Nn() ensures f.Alpha(i) != 1 {
          assert p(i) == (f.Alpha(i) == 1);
        }
      }
    }
  }

  ghost predicate Prime(n: nat) {
    n >= 2 && forall d: nat :: 0 < d < n && Divisor(d, n) ==> d == 1
  }

  lemma FirstTurn(f: Register)
    requires f.m >= 2
    ensures f.Alpha(1) == 2
  {
    assert f.Alpha(1) == f.Step(f.StepN(0, 1)) == f.Step(1);
    NoCarry(f.m);
    assert f.Step(1) == Low(2, f.m);
    Pow2Above(f.m);
    LowOfSmall(2, f.m);
  }

  lemma {:induction false} NoCarry(m: nat)
    requires m >= 2
    ensures Shr(2, m) == 0
  {
    assert Shr(2, 1) == Shr(1, 0) == 1;
    assert Shr(2, 2) == Shr(1, 1) == Shr(0, 0) == 0;
    ShrOfZero(m - 2);
    assert Shr(2, m) == Shr(1, m - 1) == Shr(0, m - 2);
  }

  lemma Pow2Above(m: nat)
    requires m >= 2
    ensures Pow2(m) >= 4
  {
    assert Pow2(m) == 4 * Pow2(m - 2);
  }

  // When nn is prime the register test alone decides.
  lemma PrimeOrder(f: Register)
    requires f.m >= 2 && Prime(f.Nn())
    ensures f.Primitive() <==> f.Alpha(f.Nn()) == 1
  {
    hide f.Alpha, f.Size;
    FirstTurn(f);
    PrimitiveTest(f);
  }

  // ---------- The tables of a polynomial that is not primitive ----------

  ghost function States(f: Register, k: nat): set<nat> {
    set i: nat | i < k :: f.Alpha(i)
  }

  lemma {:induction false} FewStates(f: Register, k: nat)
    ensures |States(f, k)| <= k
  {
    hide f.Alpha;
    if k > 0 {
      FewStates(f, k - 1);
      assert States(f, k) == States(f, k - 1) + {f.Alpha(k - 1)};
    }
  }

  lemma StateRepeats(f: Register, d: nat, i: nat)
    requires d > 0 && f.Alpha(d) == 1
    ensures f.Alpha(i) in States(f, d)
  {
    hide f.StepN;
    var q, r := i / d, i % d;
    assert i == r + q * d;
    TurnsAround(f, d, q, r);
    assert r < d;
  }

  lemma {:induction false} TurnsAround(f: Register, d: nat, q: nat, r: nat)
    requires f.Alpha(d) == 1
    ensures f.Alpha(r + q * d) == f.Alpha(r)
  {
    hide f.StepN;
    if q > 0 {
      TurnsAround(f, d, q - 1, r);
      assert r + q * d == (r + (q - 1) * d) + d;
      StepNAdd(f, r + (q - 1) * d, d, 1);
    }
  }

  // A nonzero symbol the register never takes.
  ghost predicate Unwritten(f: Register, x: nat) {
    0 < x < f.Size() && forall i: nat :: f.Alpha(i) != x
  }

  lemma MissedSymbol(f: Register) returns (x: nat)
    requires f.m >= 1 && f.Alpha(f.Nn()) == 1 && !f.Primitive()
    ensures Unwritten(f, x)
  {
    hide f.Alpha, f.Size;
    var d: nat :| 0 < d < f.Nn() && f.Alpha(d) == 1;
    FewStates(f, d);
    var all, seen := UpTo(f.Nn()), States(f, d);
    if all <= seen {
      SubsetSize(all, seen);
      assert false;
    }
    var y :| y in all && y !in seen;
    forall i: nat ensures f.Alpha(i) != y { StateRepeats(f, d, i); }
    x := y;
  }

  // A polynomial that passes the register test leaves the logarithm of some
  // nonzero symbol unwritten exactly when it is not primitive.
  lemma UnwrittenLogarithm(f: Register)
    requires f.m >= 1 && f.Alpha(f.Nn()) == 1
    ensures (exists x: nat :: Unwritten(f, x)) <==> !f.Primitive()
  {
    hide f.Alpha, f.Size;
    if f.Primitive() {
      forall x: nat ensures !Unwritten(f, x) {
        if 0 < x < f.Size() { AlphaSurjective(f, x); }
      }
    } else {
      var x := MissedSymbol(f);
    }
  }
}
