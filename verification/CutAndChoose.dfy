/** Fallback cut-and-choose: exact soundness of a partition and the smallest balanced schedule. */
module CutAndChoose {
  import opened ByteStrings
  import opened Binomials
  import opened FiniteSets

  datatype Schedule = Schedule(auditCopies: int, liveCopies: int, artifactBytes: int) {
    /** What construction of a schedule checks. */
    ghost predicate Valid() {
      auditCopies >= 1 && liveCopies >= 1 && artifactBytes > 0
    }

    function TotalCopies(): int {
      auditCopies + liveCopies
    }
  }

  // ---------------------------------------------------------------- one partition

  /** Every audited copy is well formed and every live copy is malformed. */
  ghost predicate Undetected(total: nat, malformed: set<int>, live: set<int>) {
    (Range(total) - live) !! malformed && live <= malformed
  }

  ghost function Defeats(s: Schedule, malformed: set<int>): set<set<int>>
    requires s.Valid()
  {
    set live | live in Subsets(s.TotalCopies(), s.liveCopies) && Undetected(s.TotalCopies(), malformed, live)
  }

  /** The share of the equally likely live sets on which a choice of malformed copies goes unnoticed. */
  ghost function FailureProbability(s: Schedule, malformed: set<int>): real
    requires s.Valid()
  {
    SubsetsSize(s.TotalCopies(), s.liveCopies);
    CombPositive(s.TotalCopies(), s.liveCopies);
    |Defeats(s, malformed)| as real / |Subsets(s.TotalCopies(), s.liveCopies)| as real
  }

  lemma {:induction false} CombPositive(n: nat, k: nat)
    requires k <= n
    ensures Comb(n, k) >= 1
  {
    if k == 0 {
    } else {
      CombPositive(n - 1, k - 1);
    }
  }

  lemma DefeatsExactly(s: Schedule, malformed: set<int>)
    requires s.Valid() && malformed <= Range(s.TotalCopies())
    ensures Defeats(s, malformed) == if |malformed| == s.liveCopies then {malformed} else {}
  {
    var n, q := s.TotalCopies(), s.liveCopies;
    forall live: set<int>
      ensures live in Defeats(s, malformed) <==> live == malformed && |malformed| == q
    {
      if live in Defeats(s, malformed) {
        forall x | x in malformed
          ensures x in live
        {
          assert x !in Range(n) - live;
        }
        assert live == malformed;
      }
    }
  }

  /**
   * Exactly one live set defeats the audit when as many copies are malformed as stay live, and none
   * does otherwise; so the stated 1/C(t+q,q) is the best any choice of malformed copies can do.
   */
  lemma PartitionSoundness(s: Schedule, malformed: set<int>)
    requires s.Valid() && malformed <= Range(s.TotalCopies())
    ensures |Subsets(s.TotalCopies(), s.liveCopies)| == Comb(s.TotalCopies(), s.liveCopies) > 0
    ensures |Defeats(s, malformed)| == if |malformed| == s.liveCopies then 1 else 0
    ensures FailureProbability(s, malformed) <= 1.0 / (Comb(s.TotalCopies(), s.liveCopies) as real)
    ensures FailureProbability(s, malformed) == 1.0 / (Comb(s.TotalCopies(), s.liveCopies) as real)
      <==> |malformed| == s.liveCopies
  {
    SubsetsSize(s.TotalCopies(), s.liveCopies);
    CombPositive(s.TotalCopies(), s.liveCopies);
    DefeatsExactly(s, malformed);
    var c := Comb(s.TotalCopies(), s.liveCopies) as real;
    assert 1.0 / c > 0.0;
    assert 0.0 / c == 0.0;
  }

  // ---------------------------------------------------------------- the balanced schedule

  /** The exact integer reading of soundness_bits >= bits. */
  predicate Reaches(s: Schedule, bits: nat)
    requires s.auditCopies >= 0 && s.liveCopies >= 0
  {
    Comb(s.TotalCopies(), s.liveCopies) >= Pow2(bits)
  }

  method MinimumBalancedSchedule(targetBits: int, artifactBytes: int) returns (r: Result<Schedule>)
    ensures r.Ok? <==> targetBits > 0 && artifactBytes > 0
    ensures r.Ok? ==>
      var s := r.value;
      && s.Valid() && s.artifactBytes == artifactBytes && Reaches(s, targetBits)
      && s.liveCopies == s.TotalCopies() / 2
      && targetBits < s.TotalCopies() <= 2 * targetBits
    ensures r.Ok? ==>
      forall other: Schedule :: other.Valid() && other.TotalCopies() < r.value.TotalCopies() ==>
        !Reaches(other, targetBits)
    ensures r.Ok? ==> forall n :: n >= 2 ==> (Comb(n, n / 2) >= Pow2(targetBits) <==> n >= r.value.TotalCopies())
  {
    if targetBits <= 0 {
      return Err;
    }
    var n := 2;
    CentralAtLeastPow2(targetBits);
    while true
      invariant 2 <= n <= 2 * targetBits
      invariant forall m :: 2 <= m < n ==> Comb(m, m / 2) < Pow2(targetBits)
      decreases 2 * targetBits - n
    {
      var q := n / 2;
      var t := n - q;
      if artifactBytes <= 0 {
        return Err;
      }
      var schedule := Schedule(t, q, artifactBytes);
      if Reaches(schedule, targetBits) {
        ReachingNeedsCopies(n, q, targetBits);
        forall m | m >= n
          ensures Comb(m, m / 2) >= Pow2(targetBits)
        {
          CentralRises(n, m);
        }
        forall other: Schedule | other.Valid() && other.TotalCopies() < n
          ensures !Reaches(other, targetBits)
        {
          CentralIsLargest(other.TotalCopies(), other.liveCopies);
        }
        return Ok(schedule);
      }
      assert (2 * targetBits) / 2 == targetBits;
      n := n + 1;
    }
  }

  /** Fewer than bits + 1 copies can never carry bits of soundness. */
  lemma ReachingNeedsCopies(n: nat, k: nat, bits: nat)
    requires n >= 1 && Comb(n, k) >= Pow2(bits)
    ensures bits < n
  {
    CombBelowPow2(n, k);
    if bits >= n { Pow2Monotone(n, bits); }
  }

  lemma {:induction false} Pow2Monotone(a: nat, b: nat)
    requires a <= b
    ensures Pow2(a) <= Pow2(b)
  {
    if a == b {
    } else {
      Pow2Monotone(a, b - 1);
    }
  }
}
