/** Bit strings: numbers written in binary, most significant bit first. */
module BitStrings {
  import opened Arith

  type Bits = seq<bool>

  /** The n low bits of v, most significant first. */
  function BitsOf(v: nat, n: nat): (b: Bits)
    ensures |b| == n
  {
    if n == 0 then [] else BitsOf(v / 2, n - 1) + [v % 2 == 1]
  }

  /** The number a bit string denotes. */
  function NumOf(b: Bits): (v: nat)
  {
    if b == [] then 0 else 2 * NumOf(b[..|b| - 1]) + (if b[|b| - 1] then 1 else 0)
  }

  lemma {:induction false} NumOfBits(v: nat, n: nat)
    requires v < Pow2(n)
    ensures NumOf(BitsOf(v, n)) == v
  {
    if n > 0 {
      NumOfBits(v / 2, n - 1);
      var b := BitsOf(v, n);
      assert b[..n - 1] == BitsOf(v / 2, n - 1);
    }
  }

  lemma Halve(x: nat, lo: nat)
    ensures (2 * x + lo) / 2 == x + lo / 2 && (2 * x + lo) % 2 == lo % 2
  {
  }

  lemma DoublePow(hi: nat, n: nat)
    requires n > 0
    ensures hi * Pow2(n) == 2 * (hi * Pow2(n - 1))
  {
  }

  /** A number written with m + n bits is its high part followed by its low part. */
  lemma {:induction false} BitsJoin(hi: nat, m: nat, lo: nat, n: nat)
    requires lo < Pow2(n)
    ensures BitsOf(hi * Pow2(n) + lo, m + n) == BitsOf(hi, m) + BitsOf(lo, n)
  {
    if n > 0 {
      BitsJoin(hi, m, lo / 2, n - 1);
      DoublePow(hi, n);
      Halve(hi * Pow2(n - 1), lo);
      assert BitsOf(hi, m) + BitsOf(lo, n) == (BitsOf(hi, m) + BitsOf(lo / 2, n - 1)) + [lo % 2 == 1];
    }
  }

  lemma {:induction false} BitsOfNum(b: Bits)
    ensures NumOf(b) < Pow2(|b|) && BitsOf(NumOf(b), |b|) == b
  {
    if b != [] {
      var n := |b| - 1;
      BitsOfNum(b[..n]);
      Halve(NumOf(b[..n]), if b[n] then 1 else 0);
      assert b == b[..n] + [b[n]];
    }
  }

  // ----- bitwise or on numbers -----

  function Or(a: nat, b: nat): (n: nat)
    decreases a + b
  {
    if a == 0 && b == 0 then 0
    else 2 * Or(a / 2, b / 2) + (if a % 2 == 1 || b % 2 == 1 then 1 else 0)
  }

  /** Numbers without a common bit: or is addition. */
  lemma {:induction false} OrAboveBelow(x: nat, k: nat, b: nat)
    requires b < Pow2(k)
    ensures Or(x * Pow2(k), b) == x * Pow2(k) + b
  {
    if k == 0 {
      OrZero(x);
    } else {
      OrAboveBelow(x, k - 1, b / 2);
      DoublePow(x, k);
      Halve(x * Pow2(k - 1), 0);
      Halve(x * Pow2(k - 1), b);
    }
  }

  lemma {:induction false} OrZero(x: nat)
    ensures Or(x, 0) == x
  {
    if x > 0 {
      OrZero(x / 2);
    }
  }

  // ----- bitwise exclusive or on numbers -----

  function Xor(a: nat, b: nat): (n: nat)
    decreases a + b
  {
    if a == 0 && b == 0 then 0 else 2 * Xor(a / 2, b / 2) + (a + b) % 2
  }

  lemma {:induction false} XorLess(a: nat, b: nat, n: nat)
    requires a < Pow2(n) && b < Pow2(n)
    ensures Xor(a, b) < Pow2(n)
  {
    if n > 0 {
      XorLess(a / 2, b / 2, n - 1);
    }
  }

  lemma XorHalves(a: nat, b: nat)
    ensures Xor(a, b) == 2 * Xor(a / 2, b / 2) + (a + b) % 2
  {
  }

  lemma OddSum(a: nat, b: nat)
    ensures (a + b) % 2 == 1 <==> (a % 2 == 1) != (b % 2 == 1)
  {
  }

  lemma XorStep(a: nat, b: nat, n: nat)
    requires n > 0
    ensures BitsOf(Xor(a, b), n) == BitsOf(Xor(a / 2, b / 2), n - 1) + [(a % 2 == 1) != (b % 2 == 1)]
  {
    hide BitsOf, Xor;
    XorHalves(a, b);
    OddSum(a, b);
    Halve(Xor(a / 2, b / 2), (a + b) % 2);
    BitsStep(Xor(a, b), n);
  }

  lemma BitsStep(v: nat, n: nat)
    requires n > 0
    ensures BitsOf(v, n) == BitsOf(v / 2, n - 1) + [v % 2 == 1]
  {
  }

  /** A bit is set when the bits at its place differ. */
  lemma {:induction false} XorBitsOf(a: nat, b: nat, n: nat)
    ensures forall i :: 0 <= i < n ==> BitsOf(Xor(a, b), n)[i] == (BitsOf(a, n)[i] != BitsOf(b, n)[i])
  {
    hide BitsOf, Xor;
    if n > 0 {
      XorBitsOf(a / 2, b / 2, n - 1);
      XorStep(a, b, n);
      BitsStep(a, n);
      BitsStep(b, n);
    }
  }
}
