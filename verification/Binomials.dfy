/** Binomial coefficients by Pascal's rule, and the subsets that they count. */
module Binomials {
  import opened ByteStrings
  import opened FiniteSets

  function Comb(n: nat, k: nat): nat {
    if k == 0 then 1
    else if n == 0 then 0
    else Comb(n - 1, k - 1) + Comb(n - 1, k)
  }

  // ---------------------------------------------------------------- the central coefficient

  lemma {:induction false} CombAboveDiagonal(n: nat, k: nat)
    requires k > n
    ensures Comb(n, k) == 0
  {
    if n == 0 {
    } else {
      CombAboveDiagonal(n - 1, k - 1);
      CombAboveDiagonal(n - 1, k);
    }
  }

  lemma {:induction false} CombSymmetric(n: nat, k: nat)
    requires k <= n
    ensures Comb(n, k) == Comb(n, n - k)
  {
    if 0 < k < n {
      CombSymmetric(n - 1, k - 1);
      CombSymmetric(n - 1, k);
    } else if n > 0 {
      CombDiagonal(n);
    }
  }

  lemma {:induction false} CombDiagonal(n: nat)
    ensures Comb(n, n) == 1
  {
    if n == 0 {
    } else {
      CombDiagonal(n - 1);
      CombAboveDiagonal(n - 1, n);
    }
  }

  /** A row rises up to its middle. */
  lemma {:induction false} CombRises(n: nat, k: nat)
    requires 2 * k + 1 <= n
    ensures Comb(n, k) <= Comb(n, k + 1)
  {
    if k > 0 {
      CombRises(n - 1, k - 1);
      if 2 * k + 1 <= n - 1 {
        CombRises(n - 1, k);
      } else {
        CombSymmetric(n - 1, k - 1);
      }
    } else {
      CombFirst(n);
    }
  }

  lemma {:induction false} CombFirst(n: nat)
    ensures Comb(n, 1) == n
  {
    if n == 0 {
    } else {
      CombFirst(n - 1);
    }
  }

  /** No coefficient of a row exceeds the central one. */
  lemma {:induction false} CentralIsLargest(n: nat, k: nat)
    ensures Comb(n, k) <= Comb(n, n / 2)
    decreases if 2 * k <= n then n - 2 * k else 2 * k
  {
    if k > n {
      CombAboveDiagonal(n, k);
    } else if 2 * k > n {
      CombSymmetric(n, k);
      if 2 * (n - k) < n { CentralIsLargestLeft(n, n - k); }
    } else {
      CentralIsLargestLeft(n, k);
    }
  }

  lemma {:induction false} CentralIsLargestLeft(n: nat, k: nat)
    requires 2 * k <= n
    ensures Comb(n, k) <= Comb(n, n / 2)
    decreases n - 2 * k
  {
    if k == n / 2 {
    } else {
      CombRises(n, k);
      CentralIsLargestLeft(n, k + 1);
    }
  }

  /** Central coefficients rise with the row. */
  lemma {:induction false} CentralRises(n: nat, m: nat)
    requires n <= m
    ensures Comb(n, n / 2) <= Comb(m, m / 2)
    decreases m - n
  {
    if n == m {
    } else {
      assert (n + 1) / 2 == n / 2 || (n + 1) / 2 - 1 == n / 2;
      CentralRises(n + 1, m);
    }
  }

  lemma {:induction false} CentralAtLeastPow2(b: nat)
    ensures Comb(2 * b, b) >= Pow2(b)
  {
    if b == 0 {
    } else {
      var n := 2 * b - 1;
      CentralAtLeastPow2(b - 1);
      CombSymmetric(n, b);
      assert Comb(n, b - 1) >= Comb(n - 1, b - 1);
    }
  }

  lemma {:induction false} CombBelowPow2(n: nat, k: nat)
    requires n >= 1
    ensures Comb(n, k) < Pow2(n)
  {
    if n > 1 && k > 0 {
      CombBelowPow2(n - 1, k - 1);
      CombBelowPow2(n - 1, k);
    } else if n > 1 {
      CombBelowPow2(n - 1, 0);
    } else if k > 0 {
      assert Comb(0, k) == 0;
    }
  }

  // ---------------------------------------------------------------- counting subsets

  /** Every choice of q of the copies 0, ..., n-1. */
  ghost function Subsets(n: nat, q: nat): set<set<int>> {
    set s: set<int> | s <= Range(n) && |s| == q
  }

  ghost function Extended(family: set<set<int>>, x: int): set<set<int>> {
    set s | s in family :: s + {x}
  }

  ghost predicate Avoids(family: set<set<int>>, x: int) {
    forall s :: s in family ==> x !in s
  }

  lemma ExtendedExactly(family: set<set<int>>, x: int, s: set<int>)
    requires Avoids(family, x)
    ensures s in Extended(family, x) <==> x in s && s - {x} in family
  {
    if s in Extended(family, x) {
      var t :| t in family && s == t + {x};
      assert s - {x} == t;
    }
    if x in s && s - {x} in family {
      assert s == (s - {x}) + {x};
    }
  }

  lemma RangeStep(n: nat, s: set<int>)
    requires n > 0
    ensures s <= Range(n) <==> s - {n - 1} <= Range(n - 1)
    ensures n - 1 !in s ==> s - {n - 1} == s
    ensures n - 1 in s ==> |s| == |s - {n - 1}| + 1
  {
    if s - {n - 1} <= Range(n - 1) {
      forall y | y in s
        ensures y in Range(n)
      {
        assert y == n - 1 || y in s - {n - 1};
      }
    }
  }

  /** Adding one fresh member to each set of a family keeps the number of sets. */
  lemma {:induction false} ExtendedSize(family: set<set<int>>, x: int)
    requires Avoids(family, x)
    ensures |Extended(family, x)| == |family|
    decreases |family|
  {
    if family != {} {
      var s :| s in family;
      var rest := family - {s};
      ExtendedSize(rest, x);
      ExtendedExactly(rest, x, s + {x});
      assert (s + {x}) - {x} == s;
      assert Extended(family, x) == Extended(rest, x) + {s + {x}};
    } else {
      assert Extended(family, x) == {};
    }
  }

  lemma SplitSize(kept: set<set<int>>, family: set<set<int>>, x: int)
    requires Avoids(kept, x) && Avoids(family, x)
    ensures |kept + Extended(family, x)| == |kept| + |family|
  {
    ExtendedSize(family, x);
    forall s | s in kept
      ensures s !in Extended(family, x)
    {
      ExtendedExactly(family, x, s);
    }
    assert kept !! Extended(family, x);
  }

  /** Choices without the last copy, and choices that add it to a smaller one. */
  lemma SubsetsSplit(n: nat, q: nat)
    requires n > 0 && q > 0
    ensures Avoids(Subsets(n - 1, q), n - 1) && Avoids(Subsets(n - 1, q - 1), n - 1)
    ensures Subsets(n, q) == Subsets(n - 1, q) + Extended(Subsets(n - 1, q - 1), n - 1)
  {
    forall s: set<int>
      ensures s in Subsets(n, q) <==> s in Subsets(n - 1, q) || s in Extended(Subsets(n - 1, q - 1), n - 1)
    {
      RangeStep(n, s);
      ExtendedExactly(Subsets(n - 1, q - 1), n - 1, s);
    }
  }

  lemma SubsetsPascal(n: nat, q: nat)
    requires n > 0 && q > 0
    ensures |Subsets(n, q)| == |Subsets(n - 1, q)| + |Subsets(n - 1, q - 1)|
  {
    SubsetsSplit(n, q);
    SplitSize(Subsets(n - 1, q), Subsets(n - 1, q - 1), n - 1);
  }

  lemma SubsetsEdge(n: nat, q: nat)
    requires n == 0 || q == 0
    ensures |Subsets(n, q)| == Comb(n, q)
  {
    if q == 0 {
      assert Subsets(n, 0) == {{}};
    } else {
      assert Subsets(0, q) == {};
    }
  }

  lemma {:induction false} SubsetsSize(n: nat, q: nat)
    ensures |Subsets(n, q)| == Comb(n, q)
  {
    if q > 0 && n > 0 {
      SubsetsPascal(n, q);
      SubsetsSize(n - 1, q);
      SubsetsSize(n - 1, q - 1);
    } else {
      SubsetsEdge(n, q);
    }
  }
}
