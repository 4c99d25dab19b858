/** The checksum of Code 128: a sum of the codes weighted by their position, modulo 103. */
module Code128Check {
  import opened Arith

  // ----- the weighted sum -----

  /** Sum of i * c[i] over the codes i to m. */
  function Weights(c: seq<Byte>, i: nat, m: nat): (n: nat)
    requires m < |c|
    decreases m + 1 - i
  {
    if i > m then 0 else i * c[i] + Weights(c, i + 1, m)
  }

  /** The start code plus the weighted data codes; the last two codes are check and stop. */
  function Weighted(c: seq<Byte>): (n: nat)
    requires |c| >= 3
  {
    c[0] + Weights(c, 1, |c| - 3)
  }

  ghost predicate CheckOk(c: seq<Byte>)
    requires |c| >= 3
  {
    c[|c| - 2] == Weighted(c) % 103
  }

  /** Codes the add-only loop is made for: a start code, and data codes below 103. */
  ghost predicate Clean(c: seq<Byte>) {
    |c| >= 3 && c[0] < 206 && forall i :: 1 <= i <= |c| - 3 ==> c[i] < 103
  }

  // ----- the same sum without multiplication -----

  /** Plain sum of the codes i to m. */
  function Tail(c: seq<Byte>, i: nat, m: nat): (n: nat)
    requires m < |c|
    decreases m + 1 - i
  {
    if i > m then 0 else c[i] + Tail(c, i + 1, m)
  }

  /** Sum of all tails from i on: what the accumulator adds up to. */
  function Tails(c: seq<Byte>, i: nat, m: nat): (n: nat)
    requires m < |c|
    decreases m + 1 - i
  {
    if i > m then 0 else Tail(c, i, m) + Tails(c, i + 1, m)
  }

  lemma {:induction false} TailsAreWeights(c: seq<Byte>, i: nat, m: nat)
    requires m < |c| && 0 < i
    ensures Weights(c, i, m) == Tails(c, i, m) + (i - 1) * Tail(c, i, m)
    decreases m + 1 - i
  {
    if i <= m {
      TailsAreWeights(c, i + 1, m);
      assert i * Tail(c, i, m) == i * c[i] + i * Tail(c, i + 1, m);
    }
  }

  // ----- what the checksum detects -----

  lemma SmallFactor(a: nat, b: nat)
    requires 2 <= a <= 10
    ensures a * b != 103
  {
    if a == 2 {
    } else if a == 3 {
    } else if a == 4 {
    } else if a == 5 {
    } else if a == 6 {
    } else if a == 7 {
    } else if a == 8 {
    } else if a == 9 {
    } else {
    }
  }

  lemma NoDivisors(d: nat)
    requires 2 <= d <= 102
    ensures 103 % d != 0
  {
    var q := 103 / d;
    if d <= 10 {
      SmallFactor(d, q);
    } else if 2 <= q {
      SmallFactor(q, d);
    }
  }

  lemma AddMultiple(p: int, r: int)
    ensures (103 * p + r) % 103 == r % 103
  {
  }

  /** A factor may be reduced modulo 103. */
  lemma ModProduct(w: nat, d: nat)
    ensures w * d % 103 == w % 103 * d % 103
  {
    var q, v := w / 103, w % 103;
    assert w * d == 103 * (q * d) + v * d;
    AddMultiple(q * d, v * d);
  }

  /** The remainder of 103 by x has the zero products that x has. */
  lemma Remainder(x: nat, y: nat)
    requires 0 < x && x * y % 103 == 0
    ensures 103 % x * y % 103 == 0
  {
    var q, r, k := 103 / x, 103 % x, x * y / 103;
    assert 103 == q * x + r && x * y == 103 * k;
    assert r * y == 103 * y - q * (x * y);
    assert q * (x * y) == 103 * (q * k);
    AddMultiple(y - q * k, 0);
  }

  /** 103 is a prime number. */
  lemma {:induction false} NoZeroProduct(x: nat, y: nat)
    requires 0 < x < 103 && 0 < y < 103
    ensures x * y % 103 != 0
    decreases x
  {
    if x > 1 && x * y % 103 == 0 {
      NoDivisors(x);
      Remainder(x, y);
      NoZeroProduct(103 % x, y);
    }
  }

  /** Equal multiples of two codes. */
  lemma SameMultiples(w: nat, a: nat, b: nat)
    requires a < b < 103 && w % 103 != 0
    ensures w * a % 103 != w * b % 103
  {
    assert w * b - w * a == w * (b - a);
    ModProduct(w, b - a);
    NoZeroProduct(w % 103, b - a);
    if w * a % 103 == w * b % 103 {
      Difference(w * a, w * b);
    }
  }

  lemma Difference(a: int, b: int)
    requires a % 103 == b % 103
    ensures (b - a) % 103 == 0
  {
  }

  /** Codes that differ only inside lo to hi have equal sums outside. */
  lemma {:induction false} WeightsApart(c: seq<Byte>, d: seq<Byte>, i: nat, k: nat, m: nat)
    requires m < |c| == |d| && i <= k <= m && forall j :: i <= j <= m && j != k ==> c[j] == d[j]
    ensures Weights(c, i, m) - k * c[k] == Weights(d, i, m) - k * d[k]
    decreases m + 1 - i
  {
    if i < k {
      WeightsApart(c, d, i + 1, k, m);
    } else {
      WeightsEqual(c, d, i + 1, m);
    }
  }

  lemma {:induction false} WeightsEqual(c: seq<Byte>, d: seq<Byte>, i: nat, m: nat)
    requires m < |c| == |d| && forall j :: i <= j <= m ==> c[j] == d[j]
    ensures Weights(c, i, m) == Weights(d, i, m)
    decreases m + 1 - i
  {
    if i <= m {
      WeightsEqual(c, d, i + 1, m);
    }
  }

  lemma CleanCodes(c: seq<Byte>, k: nat)
    requires Clean(c) && 1 <= k <= |c| - 3
    ensures c[k] < 103
  {
  }

  /** A changed data code is detected when its weight is not a multiple of 103. */
  lemma SubstitutionDetected(c: seq<Byte>, d: seq<Byte>, k: nat)
    requires Clean(c) && Clean(d) && |c| == |d| && 1 <= k <= |c| - 3 && k % 103 != 0
    requires c[k] != d[k] && forall j :: 0 <= j < |c| && j != k ==> c[j] == d[j]
    ensures !(CheckOk(c) && CheckOk(d))
  {
    hide Weights, Clean;
    CleanCodes(c, k);
    CleanCodes(d, k);
    WeightsApart(c, d, 1, k, |c| - 3);
    if c[k] < d[k] {
      SameMultiples(k, c[k], d[k]);
    } else {
      SameMultiples(k, d[k], c[k]);
    }
    RestApart(Weighted(c) - k * c[k], k * c[k], k * d[k]);
  }

  lemma RestApart(x: int, a: int, b: int)
    requires a % 103 != b % 103
    ensures (x + a) % 103 != (x + b) % 103
  {
  }

  lemma SameRemainder(x: int, a: int, b: int)
    requires a % 103 == b % 103
    ensures (x + a) % 103 == (x + b) % 103
  {
  }

  /** Whatever its weight, a changed data code goes unnoticed only when the weight is a multiple
      of 103. */
  lemma SubstitutionMissed(c: seq<Byte>, d: seq<Byte>, k: nat)
    requires Clean(c) && Clean(d) && |c| == |d| && 1 <= k <= |c| - 3 && k % 103 == 0
    requires forall j :: 0 <= j < |c| && j != k ==> c[j] == d[j]
    ensures CheckOk(c) <==> CheckOk(d)
  {
    WeightsApart(c, d, 1, k, |c| - 3);
    ModProduct(k, c[k]);
    ModProduct(k, d[k]);
    SameRemainder(Weighted(c) - k * c[k], k * c[k], k * d[k]);
  }

  /** Two neighbouring data codes in the wrong order are detected. */
  lemma SwapDetected(c: seq<Byte>, d: seq<Byte>, k: nat)
    requires Clean(c) && Clean(d) && |c| == |d| && 1 <= k < |c| - 3
    requires c[k] != c[k + 1] && d == c[k := c[k + 1]][k + 1 := c[k]]
    ensures !(CheckOk(c) && CheckOk(d))
  {
    var e := c[k := c[k + 1]];
    WeightsApart(c, e, 1, k, |c| - 3);
    WeightsApart(e, d, 1, k + 1, |c| - 3);
    SwapChange(k, c[k], c[k + 1]);
    CodesApart(Weighted(c), c[k], c[k + 1]);
  }

  lemma SwapChange(k: nat, a: int, b: int)
    ensures k * b + (k + 1) * a == k * a + (k + 1) * b + a - b
  {
  }

  lemma CodesApart(x: int, a: nat, b: nat)
    requires a < 103 && b < 103 && a != b
    ensures (x + a - b) % 103 != x % 103
  {
  }
}
