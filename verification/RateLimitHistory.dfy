/**
 What the counters mean over a whole history of attempts, taken in the order in which
 they held the lock.
 */
module RateLimitHistory {
  import opened Prelude
  import opened RateLimitSpec

  datatype Call = Call(attempt: Attempt, now: real)

  datatype Bucket = Bucket(operation: string, kind: Kind, value: string)

  ghost predicate ValidHistory(policies: map<string, Policy>, h: seq<Call>) {
    ValidPolicies(policies) && forall i :: 0 <= i < |h| ==> h[i].attempt.Valid()
  }

  ghost function IdealRun(policies: map<string, Policy>, h: seq<Call>): (r: (Counters, seq<Decision>))
    requires ValidHistory(policies, h)
    ensures |r.1| == |h|
  {
    if h == [] then (map[], []) else
      var (counters, decisions) := IdealRun(policies, h[..|h| - 1]);
      var last := h[|h| - 1];
      var (after, d) := Ideal(counters, policies, last.attempt, last.now);
      (after, decisions + [d])
  }

  predicate Charged(a: Attempt, b: Bucket) {
    && a.operation == b.operation
    && if b.kind.Client? then a.clientKey == Some(b.value) else a.subjectDigest == Some(b.value)
  }

  /** The call is charged to the bucket in this slot. */
  predicate Hits(c: Call, b: Bucket, slot: int, window: int)
    requires window > 0
  {
    Charged(c.attempt, b) && Slot(c.now, window) == slot
  }

  /** Cost charged to the bucket in the slot, admitted or not. */
  function UsedInSlot(h: seq<Call>, b: Bucket, slot: int, window: int): int
    requires window > 0
  {
    if h == [] then 0
    else
      UsedInSlot(h[..|h| - 1], b, slot, window)
      + if Hits(h[|h| - 1], b, slot, window) then h[|h| - 1].attempt.cost else 0
  }

  /** The bucket still has room for the last call of `h`, counting every earlier one. */
  predicate Admits(h: seq<Call>, b: Bucket, policy: Policy)
    requires policy.Valid() && h != []
  {
    UsedInSlot(h, b, Slot(h[|h| - 1].now, policy.window), policy.window) <= policy.limit
  }

  lemma {:induction false} UsedGrows(h: seq<Call>, n: nat, b: Bucket, slot: int, window: int)
    requires window > 0 && n <= |h| && forall i :: 0 <= i < |h| ==> h[i].attempt.Valid()
    ensures 0 <= UsedInSlot(h[..n], b, slot, window) <= UsedInSlot(h, b, slot, window)
    decreases |h|
  {
    if n == |h| {
      assert h[..n] == h;
      if h != [] {
        UsedGrows(h[..n - 1], n - 1, b, slot, window);
        assert h[..n - 1][..n - 1] == h[..n - 1];
      }
    } else {
      UsedGrows(h[..|h| - 1], n, b, slot, window);
      assert h[..|h| - 1][..n] == h[..n];
    }
  }

  // ------------------------------------------------- counters are sums over history

  lemma {:induction false} ChargeCounts(counters: Counters, a: Attempt, policy: Policy, now: real, b: Bucket, slot: int)
    requires policy.Valid() && b.operation == a.operation
    ensures var keys := Keys(a, policy, now);
            var key := Key(slot, b.operation, b.kind, b.value);
            var (after, retry) := Charge(counters, keys, a.cost, policy, now, |keys|);
            Count(after, key) == Count(counters, key)
                                 + if Hits(Call(a, now), b, slot, policy.window) then a.cost else 0
  {
    ChargeUnrolled(counters, a, policy, now);
  }

  /** `Charge` over an attempt's zero, one or two buckets, written out. */
  lemma {:induction false} ChargeUnrolled(counters: Counters, a: Attempt, policy: Policy, now: real)
    requires policy.Valid()
    ensures var keys := Keys(a, policy, now);
            var wait := RetryAfter(now, policy.window);
            var r := Charge(counters, keys, a.cost, policy, now, |keys|);
            match |keys|
            case 0 => r == (counters, 0)
            case 1 =>
              var used := Count(counters, keys[0]) + a.cost;
              r == (counters[keys[0] := used], if used <= policy.limit then 0 else wait)
            case _ =>
              |keys| == 2 && keys[0] != keys[1] &&
              var used0, used1 := Count(counters, keys[0]) + a.cost, Count(counters, keys[1]) + a.cost;
              r == (counters[keys[0] := used0][keys[1] := used1],
                    if used0 <= policy.limit && used1 <= policy.limit then 0 else wait)
  {
    var keys := Keys(a, policy, now);
    if |keys| >= 1 {
      assert Charge(counters, keys, a.cost, policy, now, 0) == (counters, 0);
      var first := Charge(counters, keys, a.cost, policy, now, 1);
      assert first.0 == counters[keys[0] := Count(counters, keys[0]) + a.cost];
      if |keys| == 2 {
        assert keys[0].kind != keys[1].kind;
        assert Charge(counters, keys, a.cost, policy, now, 2).0
            == first.0[keys[1] := Count(first.0, keys[1]) + a.cost];
      }
    }
  }

  lemma {:induction false} CountersAreSums(policies: map<string, Policy>, h: seq<Call>, b: Bucket, slot: int)
    requires ValidHistory(policies, h) && b.operation in policies
    ensures Count(IdealRun(policies, h).0, Key(slot, b.operation, b.kind, b.value))
            == UsedInSlot(h, b, slot, policies[b.operation].window)
  {
    if h != [] {
      var before, last := h[..|h| - 1], h[|h| - 1];
      CountersAreSums(policies, before, b, slot);
      var counters := IdealRun(policies, before).0;
      if last.attempt.operation == b.operation {
        ChargeCounts(counters, last.attempt, policies[b.operation], last.now, b, slot);
      } else if last.attempt.operation in policies {
        OtherOperation(counters, last.attempt, policies[last.attempt.operation], last.now, Key(slot, b.operation, b.kind, b.value));
      }
    }
  }

  lemma {:induction false} OtherOperation(counters: Counters, a: Attempt, policy: Policy, now: real, k: Key)
    requires policy.Valid() && k.operation != a.operation
    ensures var keys := Keys(a, policy, now);
            Count(Charge(counters, keys, a.cost, policy, now, |keys|).0, k) == Count(counters, k)
  {
    ChargeUnrolled(counters, a, policy, now);
  }

  /** The last attempt's keys are its charged buckets in the current slot, and each holds the sum before it. */
  lemma LastCharge(policies: map<string, Policy>, h: seq<Call>)
    requires ValidHistory(policies, h) && h != [] && h[|h| - 1].attempt.operation in policies
    ensures var before, last := h[..|h| - 1], h[|h| - 1];
            var policy := policies[last.attempt.operation];
            var keys, slot := Keys(last.attempt, policy, last.now), Slot(last.now, policy.window);
            && (forall b: Bucket :: Charged(last.attempt, b) ==>
                  Key(slot, last.attempt.operation, b.kind, b.value) in keys)
            && (forall i :: 0 <= i < |keys| ==>
                  var b := Bucket(last.attempt.operation, keys[i].kind, keys[i].value);
                  && keys[i] == Key(slot, b.operation, b.kind, b.value) && Charged(last.attempt, b)
                  && (Admits(h, b, policy) <==> Count(IdealRun(policies, before).0, keys[i]) + last.attempt.cost <= policy.limit))
  {
    var before, last := h[..|h| - 1], h[|h| - 1];
    var policy := policies[last.attempt.operation];
    var keys, slot := Keys(last.attempt, policy, last.now), Slot(last.now, policy.window);
    forall i | 0 <= i < |keys|
      ensures var b := Bucket(last.attempt.operation, keys[i].kind, keys[i].value);
              && keys[i] == Key(slot, b.operation, b.kind, b.value) && Charged(last.attempt, b)
              && (Admits(h, b, policy) <==> Count(IdealRun(policies, before).0, keys[i]) + last.attempt.cost <= policy.limit)
    {
      CountersAreSums(policies, before, Bucket(last.attempt.operation, keys[i].kind, keys[i].value), slot);
    }
  }

  /**
   The last attempt of any history is allowed exactly when its operation is not limited or
   each of its buckets still holds the sum of all costs charged in the slot, its own
   included; a denial always reports the wait to the end of the slot.
   */
  lemma DecisionBySums(policies: map<string, Policy>, h: seq<Call>)
    requires ValidHistory(policies, h) && h != []
    ensures var last := h[|h| - 1];
            var d := IdealRun(policies, h).1[|h| - 1];
            var op := last.attempt.operation;
            && (d.Allowed? <==>
                  op !in policies || forall b :: Charged(last.attempt, b) ==> Admits(h, b, policies[op]))
            && !d.Failed?
            && (d.Denied? ==> op in policies && d.retryAfter == RetryAfter(last.now, policies[op].window))
  {
    var before, last := h[..|h| - 1], h[|h| - 1];
    var op := last.attempt.operation;
    if op in policies {
      var policy := policies[op];
      ChargeUnrolled(IdealRun(policies, before).0, last.attempt, policy, last.now);
      RetryLandsInNextSlot(last.now, policy.window, 0);
      LastCharge(policies, h);
    }
  }

  // ------------------------------------------------------ one bucket within one slot

  /** Within a slot, what a bucket admits is a prefix of what it is asked. */
  lemma AdmittedIsPrefix(h: seq<Call>, b: Bucket, policy: Policy, i: nat, j: nat)
    requires policy.Valid() && i <= j < |h| && forall k :: 0 <= k < |h| ==> h[k].attempt.Valid()
    requires Slot(h[i].now, policy.window) == Slot(h[j].now, policy.window)
    requires Admits(h[..j + 1], b, policy)
    ensures Admits(h[..i + 1], b, policy)
  {
    var hj := h[..j + 1];
    UsedGrows(hj, i + 1, b, Slot(h[j].now, policy.window), policy.window);
    assert hj[..i + 1] == h[..i + 1];
  }

  function AdmittedCount(h: seq<Call>, b: Bucket, policy: Policy): nat
    requires policy.Valid()
  {
    if h == [] then 0
    else AdmittedCount(h[..|h| - 1], b, policy) + if Admits(h, b, policy) then 1 else 0
  }

  /** N unit-cost attempts on one bucket in one slot admit exactly min(N, limit). */
  lemma {:induction false} UnitAttemptsAdmitExactly(h: seq<Call>, b: Bucket, policy: Policy, slot: int)
    requires policy.Valid()
    requires forall i :: 0 <= i < |h| ==> h[i].attempt.cost == 1 && Hits(h[i], b, slot, policy.window)
    ensures UsedInSlot(h, b, slot, policy.window) == |h|
    ensures AdmittedCount(h, b, policy) == if |h| < policy.limit then |h| else policy.limit
  {
    if h != [] {
      UnitAttemptsAdmitExactly(h[..|h| - 1], b, policy, slot);
    }
  }

  // ------------------------------------------------------------- any sliding window

  /** Cost of the calls the bucket admitted with a clock reading in [lo, hi). */
  function AdmittedCost(h: seq<Call>, b: Bucket, policy: Policy, lo: real, hi: real): int
    requires policy.Valid()
  {
    if h == [] then 0
    else
      AdmittedCost(h[..|h| - 1], b, policy, lo, hi)
      + var last := h[|h| - 1];
        if Charged(last.attempt, b) && lo <= last.now < hi && Admits(h, b, policy) then last.attempt.cost else 0
  }

  /** The same for one slot. */
  function AdmittedInSlot(h: seq<Call>, b: Bucket, policy: Policy, slot: int): int
    requires policy.Valid()
  {
    if h == [] then 0
    else
      AdmittedInSlot(h[..|h| - 1], b, policy, slot)
      + if Hits(h[|h| - 1], b, slot, policy.window) && Admits(h, b, policy) then h[|h| - 1].attempt.cost else 0
  }

  lemma {:induction false} SlotNeverOverspends(h: seq<Call>, b: Bucket, policy: Policy, slot: int)
    requires policy.Valid() && forall i :: 0 <= i < |h| ==> h[i].attempt.Valid()
    ensures AdmittedInSlot(h, b, policy, slot) <= policy.limit
    ensures AdmittedInSlot(h, b, policy, slot) <= UsedInSlot(h, b, slot, policy.window)
  {
    if h != [] {
      SlotNeverOverspends(h[..|h| - 1], b, policy, slot);
    }
  }

  lemma {:induction false} IntervalCoveredByTwoSlots(h: seq<Call>, b: Bucket, policy: Policy, lo: real)
    requires policy.Valid() && forall i :: 0 <= i < |h| ==> h[i].attempt.Valid()
    ensures AdmittedCost(h, b, policy, lo, lo + policy.window as real)
            <= AdmittedInSlot(h, b, policy, Slot(lo, policy.window)) + AdmittedInSlot(h, b, policy, Slot(lo, policy.window) + 1)
  {
    if h != [] {
      IntervalCoveredByTwoSlots(h[..|h| - 1], b, policy, lo);
      WithinTwoSlots(lo, h[|h| - 1].now, policy.window);
    }
  }

  lemma WithinTwoSlots(lo: real, now: real, window: int)
    requires window > 0
    ensures lo <= now < lo + window as real ==> Slot(now, window) == Slot(lo, window) || Slot(now, window) == Slot(lo, window) + 1
  {
    var k := Slot(lo, window);
    SlotBounds(lo, window);
    assert SlotEnd(k + 1, window) == SlotEnd(k, window) + window as real;
    assert SlotEnd(k, window) == ((k + 1) * window) as real;
    if lo <= now < SlotEnd(k, window) {
      SlotUnique(now, window, k);
    } else if SlotEnd(k, window) <= now < SlotEnd(k + 1, window) {
      SlotUnique(now, window, k + 1);
    }
  }

  /**
   Whatever the history, a bucket admits at most twice its limit in any half-open interval
   as long as the window.
   */
  lemma TwiceTheLimitInAnyWindow(h: seq<Call>, b: Bucket, policy: Policy, lo: real)
    requires policy.Valid() && forall i :: 0 <= i < |h| ==> h[i].attempt.Valid()
    ensures AdmittedCost(h, b, policy, lo, lo + policy.window as real) <= 2 * policy.limit
  {
    IntervalCoveredByTwoSlots(h, b, policy, lo);
    SlotNeverOverspends(h, b, policy, Slot(lo, policy.window));
    SlotNeverOverspends(h, b, policy, Slot(lo, policy.window) + 1);
  }

  lemma {:induction false} UntouchedSlot(h: seq<Call>, b: Bucket, slot: int, window: int)
    requires window > 0 && forall i :: 0 <= i < |h| ==> !Hits(h[i], b, slot, window)
    ensures UsedInSlot(h, b, slot, window) == 0
  {
    if h != [] {
      UntouchedSlot(h[..|h| - 1], b, slot, window);
    }
  }

  /**
   A caller denied on turn i that waits as told is admitted, unless it asks for more than
   the limit or was overtaken by a turn in a later slot.
   */
  lemma WaitingSucceeds(policies: map<string, Policy>, h: seq<Call>, i: nat, a: Attempt)
    requires ValidHistory(policies, h) && i < |h| && a.Valid() && h[i].attempt.operation == a.operation
    requires a.operation in policies && a.cost <= policies[a.operation].limit
    requires var window := policies[a.operation].window;
             forall k :: 0 <= k < |h| ==> Slot(h[k].now, window) <= Slot(h[i].now, window)
    ensures var window := policies[a.operation].window;
            var retried := h + [Call(a, h[i].now + RetryAfter(h[i].now, window) as real)];
            ValidHistory(policies, retried) && IdealRun(policies, retried).1[|h|] == Allowed
  {
    var policy := policies[a.operation];
    var c := Call(a, h[i].now + RetryAfter(h[i].now, policy.window) as real);
    var retried := h + [c];
    RetryLandsInNextSlot(h[i].now, policy.window, 0);
    DecisionBySums(policies, retried);
    SnocSplit(h, c);
    forall b | Charged(a, b) ensures Admits(retried, b, policy) {
      UntouchedSlot(h, b, Slot(h[i].now, policy.window) + 1, policy.window);
    }
  }
}
