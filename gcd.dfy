/** util/gcd.go: Euclid's algorithm on uint, and a left fold of it over a list.
    The source uses a convention of its own: a zero argument, or fewer than
    two arguments, yields 0 instead of the mathematical gcd. */
module Util {
  import opened Common

  /** `d` divides `n`. */
  ghost predicate Divides(d: nat, n: nat)
  {
    exists k: nat :: k * d == n
  }

  /** `g` is a greatest common divisor of `a` and `b`: a common divisor that every common divisor divides. */
  ghost predicate IsGcd(g: nat, a: nat, b: nat)
  {
    && Divides(g, a) && Divides(g, b)
    && forall d: nat :: Divides(d, a) && Divides(d, b) ==> Divides(d, g)
  }

  /** `g` divides every element of `nums`, and every common divisor of all of them divides `g`. */
  ghost predicate IsGcdOfAll(g: nat, nums: seq<u64>)
  {
    && (forall i :: 0 <= i < |nums| ==> Divides(g, nums[i]))
    && forall d: nat :: (forall i :: 0 <= i < |nums| ==> Divides(d, nums[i])) ==> Divides(d, g)
  }

  /** The Euclid iteration `a, b = b, a % b` run until `b` is 0 (util/gcd.go:21-25). */
  function Remainders(a: u64, b: u64): u64
    decreases b
  {
    if b == 0 then a else Remainders(b, a % b)
  }

  /** The source's `gcd(a, b)`: 0 if either argument is 0, the Euclid iteration otherwise. */
  function PairGcd(a: u64, b: u64): u64
  {
    if a == 0 || b == 0 then 0 else Remainders(a, b)
  }

  /** The loop of the source's `Gcd(nums...)`: fold `PairGcd` over the remaining numbers. */
  function Fold(x: u64, rest: seq<u64>): u64
    decreases |rest|
  {
    if rest == [] then x else Fold(PairGcd(x, rest[0]), rest[1..])
  }

  /** The source's `Gcd(nums...)`: 0 for fewer than two numbers, else the fold from `gcd(nums[0], nums[1])`. */
  function GcdOf(nums: seq<u64>): u64
  {
    if |nums| < 2 then 0 else Fold(PairGcd(nums[0], nums[1]), nums[2..])
  }

  // ---------------------------------------------------------------- divisibility facts

  lemma DividesZero(d: nat)
    ensures Divides(d, 0)
  {
    assert 0 * d == 0;
  }

  lemma DividesSelf(n: nat)
    ensures Divides(n, n)
  {
    assert 1 * n == n;
  }

  /** A divisor of a positive number is positive and no larger than it. */
  lemma DividesBound(d: nat, n: nat)
    requires n > 0 && Divides(d, n)
    ensures 0 < d <= n
  {
    var k: nat :| k * d == n;
    assert k >= 1;
    assert k * d >= 1 * d;
  }

  lemma DividesTrans(a: nat, b: nat, c: nat)
    requires Divides(a, b) && Divides(b, c)
    ensures Divides(a, c)
  {
    var x: nat :| x * a == b;
    var y: nat :| y * b == c;
    assert (y * x) * a == y * (x * a);
  }

  /** A common divisor of `a` and `b` divides `a % b`. */
  lemma DividesMod(a: nat, b: nat, d: nat)
    requires b > 0 && Divides(d, a) && Divides(d, b)
    ensures Divides(d, a % b)
  {
    var x: nat :| x * d == a;
    var y: nat :| y * d == b;
    var q := a / b;
    var m := q * y;
    DivisionIdentity(a, b);
    MulAssoc(q, y, d);
    SubMul(x, m, d);
    DividesBound(d, b);
    NonNegFactor(x - m, d);
    DividesWitness(x - m, d, a % b);
  }

  lemma MulNonNeg(x: nat, y: nat)
    ensures x * y >= 0
  {
  }

  lemma DividesWitness(k: nat, d: nat, n: nat)
    requires k * d == n
    ensures Divides(d, n)
  {
  }

  lemma DivisionIdentity(a: nat, b: nat)
    requires b > 0
    ensures a == (a / b) * b + a % b
  {
  }

  lemma MulAssoc(q: int, y: int, d: int)
    ensures q * (y * d) == (q * y) * d
  {
  }

  lemma AddMul(x: int, y: int, d: int)
    ensures (x + y) * d == x * d + y * d
  {
  }

  lemma SubMul(x: int, y: int, d: int)
    ensures (x - y) * d == x * d - y * d
  {
  }

  /** A factor of a non-negative product with a positive factor is non-negative. */
  lemma NonNegFactor(k: int, d: int)
    requires d > 0 && k * d >= 0
    ensures k >= 0
  {
  }

  /** A common divisor of `b` and `a % b` divides `a`. */
  lemma DividesFromMod(a: nat, b: nat, d: nat)
    requires b > 0 && Divides(d, b) && Divides(d, a % b)
    ensures Divides(d, a)
  {
    var y: nat :| y * d == b;
    var z: nat :| z * d == a % b;
    var q := a / b;
    MulNonNeg(q, y);
    var m: nat := q * y;
    DivisionIdentity(a, b);
    MulAssoc(q, y, d);
    AddMul(m, z, d);
    DividesWitness(m + z, d, a);
  }

  /** If every divisor of `a` divides `b` and vice versa, then `a == b`. */
  lemma DividesAntisym(a: nat, b: nat)
    requires Divides(a, b) && Divides(b, a)
    ensures a == b
  {
    if a > 0 && b > 0 {
      DividesBound(a, b);
      DividesBound(b, a);
    } else {
      var k: nat :| k * a == b;
      var m: nat :| m * b == a;
      assert k * 0 == 0 && m * 0 == 0;
    }
  }

  // ---------------------------------------------------------------- Euclid

  /** The Euclid iteration computes a greatest common divisor, and it is positive when `a` is. */
  lemma {:induction false} RemaindersIsGcd(a: u64, b: u64)
    requires a > 0
    ensures IsGcd(Remainders(a, b), a, b)
    ensures Remainders(a, b) > 0
    decreases b
  {
    if b == 0 {
      DividesSelf(a);
      DividesZero(a);
    } else {
      var r := Remainders(b, a % b);
      RemaindersIsGcd(b, a % b);
      assert Divides(r, b) && Divides(r, a % b);
      DividesFromMod(a, b, r);
      forall d: nat | Divides(d, a) && Divides(d, b) ensures Divides(d, r) {
        DividesMod(a, b, d);
      }
    }
  }

  /** util/gcd.go:17-26: zero if either argument is zero; otherwise a positive greatest common
      divisor no larger than either argument. */
  lemma PairGcdSpec(a: u64, b: u64)
    ensures PairGcd(a, b) == 0 <==> a == 0 || b == 0
    ensures a > 0 && b > 0 ==> IsGcd(PairGcd(a, b), a, b) && 0 < PairGcd(a, b) <= a && PairGcd(a, b) <= b
  {
    if a > 0 && b > 0 {
      RemaindersIsGcd(a, b);
      DividesBound(PairGcd(a, b), a);
      DividesBound(PairGcd(a, b), b);
    }
  }

  /** Greatest common divisors are unique. */
  lemma GcdUnique(g: nat, h: nat, a: nat, b: nat)
    requires IsGcd(g, a, b) && IsGcd(h, a, b)
    ensures g == h
  {
    DividesAntisym(g, h);
  }

  // ---------------------------------------------------------------- the fold

  /** Folding from 0 stays at 0; folding from a positive value is zero exactly when a zero is met. */
  lemma {:induction false} FoldZero(x: u64, rest: seq<u64>)
    ensures x == 0 ==> Fold(x, rest) == 0
    ensures x > 0 ==> (Fold(x, rest) == 0 <==> 0 in rest)
  {
    if rest != [] {
      PairGcdSpec(x, rest[0]);
      FoldZero(PairGcd(x, rest[0]), rest[1..]);
      assert rest == [rest[0]] + rest[1..];
    }
  }

  /** Folding from a greatest common divisor of a prefix over positive numbers gives one of the whole list. */
  lemma {:induction false} FoldIsGcd(x: u64, prefix: seq<u64>, rest: seq<u64>)
    requires x > 0 && IsGcdOfAll(x, prefix)
    requires forall i :: 0 <= i < |rest| ==> rest[i] > 0
    ensures IsGcdOfAll(Fold(x, rest), prefix + rest)
    decreases rest
  {
    if rest == [] {
      assert prefix + rest == prefix;
    } else {
      var y := PairGcd(x, rest[0]);
      PairGcdSpec(x, rest[0]);
      var prefix' := prefix + [rest[0]];
      assert IsGcdOfAll(y, prefix') by {
        forall i | 0 <= i < |prefix'| ensures Divides(y, prefix'[i]) {
          if i < |prefix| {
            DividesTrans(y, x, prefix[i]);
          }
        }
        forall d: nat | (forall i :: 0 <= i < |prefix'| ==> Divides(d, prefix'[i])) ensures Divides(d, y) {
          assert forall i :: 0 <= i < |prefix| ==> Divides(d, prefix[i]) by {
            forall i | 0 <= i < |prefix| ensures Divides(d, prefix[i]) {
              assert prefix'[i] == prefix[i];
            }
          }
          assert Divides(d, x);
          assert Divides(d, prefix'[|prefix|]);
        }
      }
      FoldIsGcd(y, prefix', rest[1..]);
      assert prefix' + rest[1..] == prefix + rest;
    }
  }

  /** util/gcd.go:8-14: with at least two numbers, the result is 0 exactly when one of them is 0. */
  lemma GcdOfZeroIff(nums: seq<u64>)
    requires |nums| >= 2
    ensures GcdOf(nums) == 0 <==> 0 in nums
  {
    PairGcdSpec(nums[0], nums[1]);
    FoldZero(PairGcd(nums[0], nums[1]), nums[2..]);
    assert nums == [nums[0], nums[1]] + nums[2..];
  }

  /** util/gcd.go:8-14: with at least two numbers, all positive, the result is the greatest common
      divisor of the whole list, and it is positive. */
  lemma GcdOfIsGcd(nums: seq<u64>)
    requires |nums| >= 2
    requires forall i :: 0 <= i < |nums| ==> nums[i] > 0
    ensures GcdOf(nums) > 0 && IsGcdOfAll(GcdOf(nums), nums)
  {
    var x := PairGcd(nums[0], nums[1]);
    PairGcdSpec(nums[0], nums[1]);
    var prefix := [nums[0], nums[1]];
    assert IsGcdOfAll(x, prefix) by {
      forall d: nat | (forall i :: 0 <= i < |prefix| ==> Divides(d, prefix[i])) ensures Divides(d, x) {
        assert Divides(d, prefix[0]) && Divides(d, prefix[1]);
      }
    }
    FoldIsGcd(x, prefix, nums[2..]);
    assert prefix + nums[2..] == nums;
    GcdOfZeroIff(nums);
    assert nums[0] in nums;
  }

  /** The examples of util/gcd_test.go:8-26. */
  lemma GcdOfExamples()
    ensures GcdOf([2, 4]) == 2
    ensures GcdOf([1, 2, 3, 4, 5]) == 1
    ensures GcdOf([4, 60, 4, 10]) == 2
    ensures GcdOf([3, 6, 9]) == 3
    ensures GcdOf([1, 2, 3, 4, 0]) == 0
  {
    assert PairGcd(2, 4) == 2;
    assert [2, 4][2..] == [];
    assert PairGcd(1, 2) == 1 && PairGcd(1, 3) == 1 && PairGcd(1, 4) == 1 && PairGcd(1, 5) == 1;
    var s := [1, 2, 3, 4, 5];
    assert s[2..] == [3, 4, 5] && [3, 4, 5][1..] == [4, 5] && [4, 5][1..] == [5] && [5][1..] == [];
    assert PairGcd(4, 60) == 4 && PairGcd(4, 4) == 4 && PairGcd(4, 10) == 2;
    var t := [4, 60, 4, 10];
    assert t[2..] == [4, 10] && [4, 10][1..] == [10] && [10][1..] == [];
    assert PairGcd(3, 6) == 3 && PairGcd(3, 9) == 3;
    var u := [3, 6, 9];
    assert u[2..] == [9] && [9][1..] == [];
    var v := [1, 2, 3, 4, 0];
    assert v[2..] == [3, 4, 0] && [3, 4, 0][1..] == [4, 0] && [4, 0][1..] == [0] && [0][1..] == [];
    assert PairGcd(1, 0) == 0 && PairGcd(0, 4) == 0 && PairGcd(0, 0) == 0;
  }

  // ---------------------------------------------------------------- the loops of the source

  /** `gcd(a, b)` of util/gcd.go:17-26, with its swap loop. */
  method Euclid(a0: u64, b0: u64) returns (r: u64)
    ensures r == PairGcd(a0, b0)
    ensures a0 == 0 || b0 == 0 ==> r == 0
    ensures a0 > 0 && b0 > 0 ==> 0 < r <= a0 && r <= b0 && IsGcd(r, a0, b0)
  {
    PairGcdSpec(a0, b0);
    if a0 == 0 || b0 == 0 {
      return 0;
    }
    var a, b := a0, b0;
    while b != 0
      invariant a > 0
      invariant Remainders(a, b) == Remainders(a0, b0)
      decreases b
    {
      a, b := b, a % b;
    }
    r := a;
  }

  /** `Gcd(nums...)` of util/gcd.go:3-15, with its fold loop. */
  method Gcd(nums: seq<u64>) returns (x: u64)
    ensures x == GcdOf(nums)
    ensures |nums| < 2 ==> x == 0
    ensures |nums| >= 2 ==> (x == 0 <==> 0 in nums)
    ensures |nums| >= 2 && 0 !in nums ==> x > 0 && IsGcdOfAll(x, nums)
  {
    if |nums| < 2 {
      return 0;
    }
    if 0 !in nums {
      GcdOfIsGcd(nums);
    }
    GcdOfZeroIff(nums);
    x := Euclid(nums[0], nums[1]);
    var i := 2;
    while i < |nums|
      invariant 2 <= i <= |nums|
      invariant Fold(x, nums[i..]) == GcdOf(nums)
    {
      assert nums[i..] == [nums[i]] + nums[i + 1..];
      x := Euclid(x, nums[i]);
      i := i + 1;
    }
    assert nums[i..] == [];
  }
}
