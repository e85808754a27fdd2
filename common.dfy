/** Shared vocabulary: Go's 64-bit integer types and conversions, an optional value, and sequence helpers. */
module Common {

  const U64: nat := 0x1_0000_0000_0000_0000

  /** Go's `uint64` (and `uint` on a 64-bit platform). */
  type u64 = x: int | 0 <= x < U64

  /** Go's `int` on a 64-bit platform. */
  type i64 = x: int | -0x8000_0000_0000_0000 <= x < 0x8000_0000_0000_0000

  /** Go's conversion `uint(x)` of an `int`: two's complement reinterpretation. */
  function ToUint(x: i64): (r: u64)
    ensures x >= 0 ==> r == x
    ensures x < 0 ==> r == x + U64
  {
    x % U64
  }

  /** Go's conversion `int(x)` of a `uint`: two's complement reinterpretation. */
  function ToInt(x: u64): (r: i64)
    ensures x < 0x8000_0000_0000_0000 ==> r == x
    ensures x >= 0x8000_0000_0000_0000 ==> r == x - U64
  {
    if x < 0x8000_0000_0000_0000 then x else x - U64
  }

  /** `a + b` on uint64: wraps around modulo 2^64. */
  function AddU64(a: u64, b: u64): (r: u64)
    ensures a + b < U64 ==> r == a + b
    ensures a + b >= U64 ==> r == a + b - U64
  {
    (a + b) % U64
  }

  /** `a - b` on uint64: wraps around modulo 2^64. */
  function SubU64(a: u64, b: u64): (r: u64)
    ensures b <= a ==> r == a - b
    ensures a < b ==> r == a - b + U64
  {
    (a - b) % U64
  }

  /** `a + b` on int: wraps around modulo 2^64 into the signed range. */
  function AddI64(a: i64, b: i64): (r: i64)
    ensures -0x8000_0000_0000_0000 <= a + b < 0x8000_0000_0000_0000 ==> r == a + b
    ensures a + b >= 0x8000_0000_0000_0000 ==> r == a + b - U64
    ensures a + b < -0x8000_0000_0000_0000 ==> r == a + b + U64
  {
    ToInt((a + b) % U64)
  }

  /** `a - b` on int: wraps around modulo 2^64 into the signed range. */
  function SubI64(a: i64, b: i64): (r: i64)
    ensures -0x8000_0000_0000_0000 <= a - b < 0x8000_0000_0000_0000 ==> r == a - b
    ensures a - b >= 0x8000_0000_0000_0000 ==> r == a - b - U64
    ensures a - b < -0x8000_0000_0000_0000 ==> r == a - b + U64
  {
    ToInt((a - b) % U64)
  }

  datatype Option<T> = None | Some(value: T)

  /** The elements of a sequence, as a set. */
  function Elems<T>(s: seq<T>): set<T>
  {
    set x | x in s
  }

  /** No element occurs twice. */
  predicate NoDup<T(==)>(s: seq<T>)
  {
    forall i, j :: 0 <= i < j < |s| ==> s[i] != s[j]
  }

  /** `s` with every occurrence of `x` taken out, other elements in their order. */
  function Without<T(==)>(s: seq<T>, x: T): (r: seq<T>)
    ensures Elems(r) == Elems(s) - {x}
    ensures forall i :: 0 <= i < |r| ==> r[i] in s && r[i] != x
    ensures |r| <= |s|
    ensures NoDup(s) ==> NoDup(r)
    ensures x !in s ==> r == s
  {
    if s == [] then []
    else
      assert Elems(s) == {s[0]} + Elems(s[1..]);
      assert NoDup(s) ==> s[0] !in s[1..] && NoDup(s[1..]) by {
        if NoDup(s) { HeadNotInTail(s); }
      }
      if s[0] == x then Without(s[1..], x)
      else
        var rest := Without(s[1..], x);
        assert Elems([s[0]] + rest) == {s[0]} + Elems(rest);
        assert NoDup(s) ==> NoDup([s[0]] + rest) by {
          if NoDup(s) { ConsNoDup(s[0], rest); }
        }
        [s[0]] + rest
  }

  /** Position of the first occurrence of `x` in `s`. */
  function IndexOf<T(==)>(s: seq<T>, x: T): (i: nat)
    requires x in s
    ensures i < |s| && s[i] == x
    ensures forall j :: 0 <= j < i ==> s[j] != x
  {
    if s[0] == x then 0 else 1 + IndexOf(s[1..], x)
  }

  /** Taking an element out keeps the others in their relative order. */
  lemma {:induction false} WithoutKeepsOrder<T>(s: seq<T>, x: T)
    requires NoDup(s)
    ensures forall i, j :: 0 <= i < j < |Without(s, x)| ==>
      IndexOf(s, Without(s, x)[i]) < IndexOf(s, Without(s, x)[j])
  {
    if s != [] {
      HeadNotInTail(s);
      WithoutKeepsOrder(s[1..], x);
      var rt := Without(s[1..], x);
      assert Without(s, x) == if s[0] == x then rt else [s[0]] + rt;
      OrderStep(s, rt);
    }
  }

  /** Positions in the tail, shifted by one, order the same elements in the whole sequence, and the
      head comes before all of them. */
  lemma OrderStep<T>(s: seq<T>, rt: seq<T>)
    requires NoDup(s) && |s| > 0
    requires forall i :: 0 <= i < |rt| ==> rt[i] in s[1..]
    requires forall i, j :: 0 <= i < j < |rt| ==> IndexOf(s[1..], rt[i]) < IndexOf(s[1..], rt[j])
    ensures forall i, j :: 0 <= i < j < |rt| ==> IndexOf(s, rt[i]) < IndexOf(s, rt[j])
    ensures forall i, j :: 0 <= i < j < |[s[0]] + rt| ==>
      IndexOf(s, ([s[0]] + rt)[i]) < IndexOf(s, ([s[0]] + rt)[j])
  {
    HeadNotInTail(s);
    forall i | 0 <= i < |rt| ensures IndexOf(s, rt[i]) == 1 + IndexOf(s[1..], rt[i]) {
      IndexOfShift(s, rt[i]);
    }
    var r := [s[0]] + rt;
    forall i, j | 0 <= i < j < |r| ensures IndexOf(s, r[i]) < IndexOf(s, r[j]) {
      assert r[j] == rt[j - 1];
      if i > 0 {
        assert r[i] == rt[i - 1];
      }
    }
  }

  /** The head of a duplicate-free sequence does not occur in its tail, which has no duplicates. */
  lemma HeadNotInTail<T>(s: seq<T>)
    requires NoDup(s) && |s| > 0
    ensures s[0] !in s[1..] && NoDup(s[1..])
  {
    var t := s[1..];
    forall i, j | 0 <= i < j < |t| ensures t[i] != t[j] {
      assert t[i] == s[i + 1] && t[j] == s[j + 1];
    }
    forall j | 0 <= j < |t| ensures t[j] != s[0] {
      assert t[j] == s[j + 1];
    }
  }

  /** Putting an element that does not occur in front of a duplicate-free sequence keeps it so. */
  lemma ConsNoDup<T>(h: T, t: seq<T>)
    requires NoDup(t) && h !in t
    ensures NoDup([h] + t)
  {
    var s := [h] + t;
    forall i, j | 0 <= i < j < |s| ensures s[i] != s[j] {
      assert s[j] == t[j - 1];
      if i > 0 {
        assert s[i] == t[i - 1];
      }
    }
  }

  /** Past a head that differs from it, an element's position is one more than in the tail. */
  lemma IndexOfShift<T>(s: seq<T>, y: T)
    requires |s| > 0 && y in s[1..] && y != s[0]
    ensures IndexOf(s, y) == 1 + IndexOf(s[1..], y)
  {
  }

  /** A duplicate-free sequence has as many elements as its set of elements. */
  lemma {:induction false} NoDupCard<T>(s: seq<T>)
    requires NoDup(s)
    ensures |Elems(s)| == |s|
  {
    if s != [] {
      assert NoDup(s[1..]) by {
        forall i, j | 0 <= i < j < |s[1..]| ensures s[1..][i] != s[1..][j] {
          assert s[1..][i] == s[i + 1] && s[1..][j] == s[j + 1];
        }
      }
      NoDupCard(s[1..]);
      assert Elems(s) == Elems(s[1..]) + {s[0]};
      assert s[0] !in Elems(s[1..]) by {
        forall j | 0 <= j < |s[1..]| ensures s[1..][j] != s[0] {
          assert s[1..][j] == s[j + 1];
        }
      }
    }
  }

  /** Removing an element of a duplicate-free sequence shortens it by exactly one. */
  lemma {:induction false} WithoutLength<T>(s: seq<T>, x: T)
    requires NoDup(s) && x in s
    ensures |Without(s, x)| == |s| - 1
  {
    NoDupCard(s);
    NoDupCard(Without(s, x));
    assert Elems(Without(s, x)) == Elems(s) - {x};
  }
}
