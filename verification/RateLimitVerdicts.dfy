/**
 What the limiter's own verdicts add up to, over every run of the machine: exactly like
 plain counters while no read meets an expired entry, and within a bound always.
 */
module RateLimitVerdicts {
  import opened Prelude
  import opened RateLimitSpec
  import opened RateLimitHistory
  import opened RateLimitWrites
  import opened RateLimitMachine

  /** The verdicts given so far, in the order of the turns. */
  function Verdicts(m: Machine): (r: seq<Option<Decision>>)
    ensures |r| == |m.servedBy|
  {
    seq(|m.servedBy|, i requires 0 <= i < |m.servedBy| =>
          if m.servedBy[i] < |m.procs| && m.procs[m.servedBy[i]].phase.Finished?
          then Some(m.procs[m.servedBy[i]].phase.decision) else None)
  }

  predicate LetIn(c: Call, verdict: Option<Decision>, b: Bucket, lo: real, hi: real) {
    Charged(c.attempt, b) && lo <= c.now < hi && verdict == Some(Allowed)
  }

  /** Cost of the turns on the bucket that were let through and read the clock in [lo, hi). */
  function LetThrough(served: seq<Call>, verdicts: seq<Option<Decision>>, b: Bucket, lo: real, hi: real): int
    requires |served| == |verdicts|
  {
    if served == [] then 0
    else
      var n := |served| - 1;
      LetThrough(served[..n], verdicts[..n], b, lo, hi) + if LetIn(served[n], verdicts[n], b, lo, hi) then served[n].attempt.cost else 0
  }

  lemma LetThroughUnfold(served: seq<Call>, verdicts: seq<Option<Decision>>, c: Call, verdict: Option<Decision>, b: Bucket,
                         lo: real, hi: real)
    requires |served| == |verdicts|
    ensures LetThrough(served + [c], verdicts + [verdict], b, lo, hi)
            == LetThrough(served, verdicts, b, lo, hi) + if LetIn(c, verdict, b, lo, hi) then c.attempt.cost else 0
  {
    SnocSplit(served, c);
    SnocSplit(verdicts, verdict);
  }

  // ------------------------------------------------- like plain counters, if timely

  /** In a timely run the verdicts are those of the serial run. */
  lemma TimelyVerdicts(policies: map<string, Policy>, attempts: seq<Attempt>, acts: seq<Act>)
    requires ValidPolicies(policies) && forall i :: 0 <= i < |attempts| ==> attempts[i].Valid()
    requires TimelyRun(policies, Initial(attempts), acts)
    ensures var m := Exec(policies, Initial(attempts), acts);
            && ValidHistory(policies, m.served) && |m.servedBy| == |m.served|
            && (forall i :: 0 <= i < |m.served| ==> Verdicts(m)[i] == Some(IdealRun(policies, m.served).1[i]))
  {
    EveryInterleavingIsSerial(policies, attempts, acts);
  }

  lemma {:induction false} PrefixRun(policies: map<string, Policy>, h: seq<Call>, n: nat)
    requires ValidHistory(policies, h) && n <= |h|
    ensures IdealRun(policies, h[..n]).1 == IdealRun(policies, h).1[..n]
    decreases |h|
  {
    if n < |h| {
      PrefixRun(policies, h[..|h| - 1], n);
      assert h[..|h| - 1][..n] == h[..n];
    } else {
      assert h[..n] == h;
    }
  }

  /**
   For any mix of attempts and any interleaving in which no read meets an expired entry:
   the attempt whose turn is i is admitted exactly when its operation is not limited or
   each of its buckets still holds all costs charged to it in the slot up to and including
   its own, and a denial reports the wait to the end of the slot.
   */
  lemma VerdictsBySums(policies: map<string, Policy>, attempts: seq<Attempt>, acts: seq<Act>, i: nat)
    requires ValidPolicies(policies) && forall k :: 0 <= k < |attempts| ==> attempts[k].Valid()
    requires TimelyRun(policies, Initial(attempts), acts) && i < |Exec(policies, Initial(attempts), acts).served|
    ensures var m := Exec(policies, Initial(attempts), acts);
            var a := m.served[i].attempt;
            && i < |m.servedBy| && Verdicts(m)[i].Some?
            && (Verdicts(m)[i].value.Allowed? <==>
                  a.operation !in policies || forall b :: Charged(a, b) ==> Admits(m.served[..i + 1], b, policies[a.operation]))
            && (Verdicts(m)[i].value.Denied? ==>
                  a.operation in policies
                  && Verdicts(m)[i].value.retryAfter == RetryAfter(m.served[i].now, policies[a.operation].window))
            && !Verdicts(m)[i].value.Failed?
  {
    TimelyVerdicts(policies, attempts, acts);
    var m := Exec(policies, Initial(attempts), acts);
    PrefixRun(policies, m.served, i + 1);
    DecisionBySums(policies, m.served[..i + 1]);
    assert m.served[..i + 1][i] == m.served[i];
  }

  lemma {:induction false} LetThroughIsAdmitted(served: seq<Call>, verdicts: seq<Option<Decision>>, b: Bucket, policy: Policy,
                                                lo: real, hi: real)
    requires policy.Valid() && |served| == |verdicts| && forall i :: 0 <= i < |served| ==> served[i].attempt.Valid()
    requires forall i :: 0 <= i < |served| && Charged(served[i].attempt, b) && verdicts[i] == Some(Allowed) ==>
               Admits(served[..i + 1], b, policy)
    ensures LetThrough(served, verdicts, b, lo, hi) <= AdmittedCost(served, b, policy, lo, hi)
  {
    if served != [] {
      var n := |served| - 1;
      forall i | 0 <= i < n && Charged(served[i].attempt, b) && verdicts[i] == Some(Allowed)
        ensures Admits(served[..n][..i + 1], b, policy)
      {
        assert served[..n][..i + 1] == served[..i + 1];
      }
      LetThroughIsAdmitted(served[..n], verdicts[..n], b, policy, lo, hi);
      assert served[..n + 1] == served;
    }
  }

  /** If no read meets an expired entry, any half-open window lets through at most twice the limit on a bucket. */
  lemma TimelyLetsThroughTwice(policies: map<string, Policy>, attempts: seq<Attempt>, acts: seq<Act>, b: Bucket, lo: real)
    requires ValidPolicies(policies) && forall k :: 0 <= k < |attempts| ==> attempts[k].Valid()
    requires TimelyRun(policies, Initial(attempts), acts) && b.operation in policies
    ensures var m := Exec(policies, Initial(attempts), acts);
            var policy := policies[b.operation];
            |m.served| == |m.servedBy|
            && LetThrough(m.served, Verdicts(m), b, lo, lo + policy.window as real) <= 2 * policy.limit
  {
    var m := Exec(policies, Initial(attempts), acts);
    var policy := policies[b.operation];
    TimelyVerdicts(policies, attempts, acts);
    forall i | 0 <= i < |m.served| && Charged(m.served[i].attempt, b) && Verdicts(m)[i] == Some(Allowed)
      ensures Admits(m.served[..i + 1], b, policy)
    {
      VerdictsBySums(policies, attempts, acts, i);
    }
    LetThroughIsAdmitted(m.served, Verdicts(m), b, policy, lo, lo + policy.window as real);
    TwiceTheLimitInAnyWindow(m.served, b, policy, lo);
  }

  predicate ChargesAlike(a: Attempt, c: Attempt) {
    a.operation == c.operation && a.clientKey == c.clientKey && a.subjectDigest == c.subjectDigest
  }

  /** Of the turns on the same buckets within a slot of a timely run, those let through come first. */
  lemma TimelyAdmitsAPrefix(policies: map<string, Policy>, attempts: seq<Attempt>, acts: seq<Act>, i: nat, j: nat)
    requires ValidPolicies(policies) && forall k :: 0 <= k < |attempts| ==> attempts[k].Valid()
    requires TimelyRun(policies, Initial(attempts), acts)
    requires var served := Exec(policies, Initial(attempts), acts).served;
             && i <= j < |served| && ChargesAlike(served[i].attempt, served[j].attempt)
             && (served[i].attempt.operation in policies ==>
                   var window := policies[served[i].attempt.operation].window;
                   Slot(served[i].now, window) == Slot(served[j].now, window))
    ensures var m := Exec(policies, Initial(attempts), acts);
            j < |m.servedBy| && (Verdicts(m)[j] == Some(Allowed) ==> Verdicts(m)[i] == Some(Allowed))
  {
    var m := Exec(policies, Initial(attempts), acts);
    VerdictsBySums(policies, attempts, acts, i);
    VerdictsBySums(policies, attempts, acts, j);
    TimelyVerdicts(policies, attempts, acts);
    var a := m.served[i].attempt;
    if Verdicts(m)[j] == Some(Allowed) && a.operation in policies {
      forall b | Charged(a, b) ensures Admits(m.served[..i + 1], b, policies[a.operation]) {
        AdmittedIsPrefix(m.served, b, policies[a.operation], i, j);
      }
    }
  }

  function AllowedCount(verdicts: seq<Option<Decision>>): nat {
    if verdicts == [] then 0
    else AllowedCount(verdicts[..|verdicts| - 1]) + if verdicts[|verdicts| - 1] == Some(Allowed) then 1 else 0
  }

  lemma {:induction false} CountsAgree(served: seq<Call>, verdicts: seq<Option<Decision>>, b: Bucket, policy: Policy)
    requires policy.Valid() && |served| == |verdicts|
    requires forall i :: 0 <= i < |served| ==> (verdicts[i] == Some(Allowed) <==> Admits(served[..i + 1], b, policy))
    ensures AllowedCount(verdicts) == AdmittedCount(served, b, policy)
  {
    if served != [] {
      var n := |served| - 1;
      forall i | 0 <= i < n ensures verdicts[..n][i] == Some(Allowed) <==> Admits(served[..n][..i + 1], b, policy) {
        assert served[..n][..i + 1] == served[..i + 1];
      }
      CountsAgree(served[..n], verdicts[..n], b, policy);
      assert served[..n + 1] == served;
    }
  }

  /** Every attempt charges this one bucket and no other. */
  ghost predicate OnlyOn(attempts: seq<Attempt>, b: Bucket) {
    forall k, b' :: 0 <= k < |attempts| ==> (Charged(attempts[k], b') <==> b' == b)
  }

  /** The run's turns so far all read the clock in this slot. */
  predicate InOneSlot(served: seq<Call>, slot: int, window: int)
    requires window > 0
  {
    forall k :: 0 <= k < |served| ==> Slot(served[k].now, window) == slot
  }

  /** In a timely run on one bucket each turn is let through exactly if the bucket admits it. */
  lemma OneBucketVerdicts(policies: map<string, Policy>, attempts: seq<Attempt>, acts: seq<Act>, b: Bucket)
    requires ValidPolicies(policies) && b.operation in policies && forall k :: 0 <= k < |attempts| ==> attempts[k].Valid()
    requires OnlyOn(attempts, b) && TimelyRun(policies, Initial(attempts), acts)
    ensures var m := Exec(policies, Initial(attempts), acts);
            && |m.served| == |m.servedBy|
            && forall i :: 0 <= i < |m.served| ==>
                 && m.served[i].attempt in attempts && Charged(m.served[i].attempt, b) && Verdicts(m)[i].Some?
                 && (Verdicts(m)[i].value.Allowed? <==> Admits(m.served[..i + 1], b, policies[b.operation]))
  {
    var m := Exec(policies, Initial(attempts), acts);
    EveryInterleavingIsSerial(policies, attempts, acts);
    forall i | 0 <= i < |m.served|
      ensures m.served[i].attempt in attempts && Charged(m.served[i].attempt, b) && Verdicts(m)[i].Some?
      ensures Verdicts(m)[i].value.Allowed? <==> Admits(m.served[..i + 1], b, policies[b.operation])
    {
      VerdictsBySums(policies, attempts, acts, i);
      assert m.served[i].attempt == attempts[m.servedBy[i]];
      assert Charged(m.served[i].attempt, b);
    }
  }

  /** N unit-cost attempts on one bucket in one slot of a timely run: exactly min(N, limit) are let through. */
  lemma TimelyUnitAttempts(policies: map<string, Policy>, attempts: seq<Attempt>, acts: seq<Act>, b: Bucket, slot: int)
    requires ValidPolicies(policies) && b.operation in policies && OnlyOn(attempts, b)
    requires forall k :: 0 <= k < |attempts| ==> attempts[k].cost == 1
    requires TimelyRun(policies, Initial(attempts), acts)
    requires InOneSlot(Exec(policies, Initial(attempts), acts).served, slot, policies[b.operation].window)
    ensures var m := Exec(policies, Initial(attempts), acts);
            var limit := policies[b.operation].limit;
            AllowedCount(Verdicts(m)) == if |m.served| < limit then |m.served| else limit
  {
    var m := Exec(policies, Initial(attempts), acts);
    OneBucketVerdicts(policies, attempts, acts, b);
    CountsAgree(m.served, Verdicts(m), b, policies[b.operation]);
    UnitAttemptsAdmitExactly(m.served, b, policies[b.operation], slot);
  }

  /** Sum of the costs of the first `n` turns. */
  function CostOf(served: seq<Call>, n: nat): int
    requires n <= |served|
  {
    if n == 0 then 0 else CostOf(served, n - 1) + served[n - 1].attempt.cost
  }

  lemma {:induction false} AllHitsSum(h: seq<Call>, n: nat, b: Bucket, slot: int, window: int)
    requires window > 0 && n <= |h| && forall i :: 0 <= i < n ==> Hits(h[i], b, slot, window)
    ensures UsedInSlot(h[..n], b, slot, window) == CostOf(h, n)
  {
    if n > 0 {
      AllHitsSum(h, n - 1, b, slot, window);
      assert h[..n][..n - 1] == h[..n - 1];
    }
  }

  /**
   N coroutines charging one and the same single bucket within one slot: the attempt whose
   turn is i is admitted exactly when all costs up to and including its own fit the limit.
   */
  lemma OneBucketAdmitsBySum(policies: map<string, Policy>, attempts: seq<Attempt>, acts: seq<Act>, b: Bucket, slot: int, i: nat)
    requires ValidPolicies(policies) && b.operation in policies && OnlyOn(attempts, b)
    requires forall k :: 0 <= k < |attempts| ==> attempts[k].Valid()
    requires TimelyRun(policies, Initial(attempts), acts)
    requires InOneSlot(Exec(policies, Initial(attempts), acts).served, slot, policies[b.operation].window)
    requires i < |Exec(policies, Initial(attempts), acts).served|
    ensures var m := Exec(policies, Initial(attempts), acts);
            && i < |m.servedBy| && Verdicts(m)[i].Some?
            && (Verdicts(m)[i].value.Allowed? <==> CostOf(m.served, i + 1) <= policies[b.operation].limit)
  {
    var m := Exec(policies, Initial(attempts), acts);
    OneBucketVerdicts(policies, attempts, acts, b);
    AllHitsSum(m.served, i + 1, b, slot, policies[b.operation].window);
    assert m.served[..i + 1][i] == m.served[i];
  }

  /**
   In a timely run: a caller denied on turn i that comes back exactly as long after its
   clock reading as it was told, on turn j, is let through, unless it asks for more than the
   limit or some turn before it read the clock in a later slot than the denied one.
   */
  lemma TimelyWaitingSucceeds(policies: map<string, Policy>, attempts: seq<Attempt>, acts: seq<Act>, i: nat, j: nat)
    requires ValidPolicies(policies) && forall k :: 0 <= k < |attempts| ==> attempts[k].Valid()
    requires TimelyRun(policies, Initial(attempts), acts)
    requires var m := Exec(policies, Initial(attempts), acts);
             && i < j < |m.served| && |m.served| == |m.servedBy|
             && Verdicts(m)[i].Some? && Verdicts(m)[i].value.Denied?
             && m.served[j].attempt.operation == m.served[i].attempt.operation
             && m.served[j].now == m.served[i].now + Verdicts(m)[i].value.retryAfter as real
             && (m.served[i].attempt.operation in policies ==>
                   var policy := policies[m.served[i].attempt.operation];
                   && m.served[j].attempt.cost <= policy.limit
                   && forall k :: 0 <= k < j ==> Slot(m.served[k].now, policy.window) <= Slot(m.served[i].now, policy.window))
    ensures Verdicts(Exec(policies, Initial(attempts), acts))[j] == Some(Allowed)
  {
    var m := Exec(policies, Initial(attempts), acts);
    VerdictsBySums(policies, attempts, acts, i);
    TimelyVerdicts(policies, attempts, acts);
    WaitingSucceeds(policies, m.served[..j], i, m.served[j].attempt);
    PrefixRun(policies, m.served, j + 1);
    assert m.served[..j + 1] == m.served[..j] + [m.served[j]];
  }
}
