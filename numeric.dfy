/** The numeric primitives of the source, on exact reals and unbounded ints. */
module Numeric {

  /** Python's `int()` applied to a float: truncation toward zero. */
  function Trunc(v: real): (r: int)
    ensures 0.0 <= v ==> 0 <= r && r as real <= v < r as real + 1.0
    ensures v < 0.0 ==> r <= 0 && r as real - 1.0 < v <= r as real
  {
    if v >= 0.0 then v.Floor else -((-v).Floor)
  }

  /** `math.ceil`: the least integer not below `v`. */
  function Ceil(v: real): (r: int)
    ensures v <= r as real < v + 1.0
  {
    -((-v).Floor)
  }

  /** Python's `sum` over a list of floats. */
  function Sum(s: seq<real>): (r: real)
    ensures |s| == 0 ==> r == 0.0
    ensures |s| == 1 ==> r == s[0]
  {
    if |s| == 0 then 0.0 else Sum(s[..|s| - 1]) + s[|s| - 1]
  }

  /** Python's `max` over a non-empty list. */
  function Max(s: seq<real>): (m: real)
    requires |s| > 0
    ensures m in s
    ensures forall i :: 0 <= i < |s| ==> s[i] <= m
  {
    if |s| == 1 then s[0]
    else
      var m' := Max(s[..|s| - 1]);
      assert m' in s by { assert s[..|s| - 1] <= s; }
      if s[|s| - 1] > m' then s[|s| - 1] else m'
  }

  ghost predicate AllNonNegative(s: seq<real>)
  {
    forall i :: 0 <= i < |s| ==> 0.0 <= s[i]
  }

  lemma SumPrefixStep(s: seq<real>, i: nat)
    requires i < |s|
    ensures Sum(s[..i + 1]) == Sum(s[..i]) + s[i]
  {
    assert s[..i + 1][..i] == s[..i];
  }

  /** A prefix sum of non-negative terms is non-negative. */
  lemma {:induction false} SumPrefixNonNegative(s: seq<real>, i: nat)
    requires AllNonNegative(s)
    requires i <= |s|
    ensures 0.0 <= Sum(s[..i])
  {
    if i > 0 {
      SumPrefixNonNegative(s, i - 1);
      SumPrefixStep(s, i - 1);
    }
  }

  /** Prefix sums of non-negative terms grow with the prefix. */
  lemma {:induction false} SumPrefixMonotone(s: seq<real>, i: nat, j: nat)
    requires AllNonNegative(s)
    requires i <= j <= |s|
    ensures 0.0 <= Sum(s[..i]) <= Sum(s[..j])
    decreases j
  {
    if i == j {
      SumPrefixNonNegative(s, i);
    } else {
      SumPrefixMonotone(s, i, j - 1);
      SumPrefixStep(s, j - 1);
    }
  }

  /** A sum of non-negative terms is zero exactly when every term is. */
  lemma {:induction false} SumZeroIffAllZero(s: seq<real>)
    requires AllNonNegative(s)
    ensures Sum(s) == 0.0 <==> forall i :: 0 <= i < |s| ==> s[i] == 0.0
  {
    if |s| > 0 {
      var init := s[..|s| - 1];
      assert AllNonNegative(init);
      SumZeroIffAllZero(init);
      assert s[..|s|] == s;
      SumPrefixMonotone(s, |s| - 1, |s| - 1);
      if Sum(s) == 0.0 {
        forall i | 0 <= i < |s| ensures s[i] == 0.0 {
          if i < |s| - 1 { assert init[i] == s[i]; }
        }
      } else {
        assert exists i :: 0 <= i < |s| && s[i] != 0.0 by {
          if s[|s| - 1] == 0.0 {
            var k :| 0 <= k < |init| && init[k] != 0.0;
            assert s[k] == init[k];
          }
        }
      }
    }
  }

  /** `s[::-1]`. */
  function Reverse<T>(s: seq<T>): (r: seq<T>)
    ensures |r| == |s|
    ensures |s| > 0 ==> r[0] == s[|s| - 1] && r[|s| - 1] == s[0]
  {
    seq(|s|, i requires 0 <= i < |s| => s[|s| - 1 - i])
  }

  /** Reversing twice gives the sequence back. */
  lemma ReverseReverse<T>(s: seq<T>)
    ensures Reverse(Reverse(s)) == s
  {
  }

  lemma {:induction false} SumConcat(a: seq<real>, b: seq<real>)
    ensures Sum(a + b) == Sum(a) + Sum(b)
    decreases |b|
  {
    if |b| > 0 {
      var b' := b[..|b| - 1];
      assert (a + b)[..|a + b| - 1] == a + b';
      SumConcat(a, b');
    } else {
      assert a + b == a;
    }
  }

  /** Summing in reverse order gives the same total. */
  lemma {:induction false} SumReverse(s: seq<real>)
    ensures Sum(Reverse(s)) == Sum(s)
    decreases |s|
  {
    if |s| > 0 {
      var init := s[..|s| - 1];
      assert Reverse(s) == [s[|s| - 1]] + Reverse(init);
      SumConcat([s[|s| - 1]], Reverse(init));
      SumReverse(init);
      assert Sum([s[|s| - 1]]) == s[|s| - 1] by {
        assert [s[|s| - 1]][..0] == [];
      }
    }
  }

  /** A sum splits at any index into a prefix sum and a suffix sum. */
  lemma SumSplit(s: seq<real>, j: nat)
    requires j <= |s|
    ensures Sum(s) == Sum(s[..j]) + Sum(s[j..])
  {
    assert s == s[..j] + s[j..];
    SumConcat(s[..j], s[j..]);
  }
}
