/**
 Expiry against counting, over runs: exactly when the expiring store counts like counters
 that never expire.
 */
module RateLimitDeadlines {
  import opened Prelude
  import opened RateLimitSpec
  import opened RateLimitHistory
  import opened RateLimitMachine

  // --------------------------------------------------- what every run keeps, timely or not

  ghost predicate Shaped(policies: map<string, Policy>, m: Machine) {
    && ValidPolicies(policies)
    && (forall p :: 0 <= p < |m.procs| ==> m.procs[p].attempt.Valid())
    && ValidHistory(policies, m.served)
    && Exclusive(m)
  }

  lemma ShapeKept(policies: map<string, Policy>, m: Machine, act: Act)
    requires Shaped(policies, m)
    ensures Shaped(policies, Next(policies, m, act))
  {
  }

  /** The serial count of a bucket: every cost charged to it before, in lock order. */
  ghost function SerialCount(policies: map<string, Policy>, m: Machine, key: Key): int
    requires Shaped(policies, m)
  {
    Count(Current(policies, m).0, key)
  }

  /** If the step is a read, it arrives at the serial count plus its own cost. */
  ghost predicate CountsSerially(policies: map<string, Policy>, m: Machine, act: Act)
    requires Shaped(policies, m)
  {
    Reads(policies, m, act).Some? ==>
      var phase := Next(policies, m, act).procs[act.p].phase;
      phase.Writing? && phase.used == SerialCount(policies, m, Reads(policies, m, act).value) + m.procs[act.p].attempt.cost
  }

  /** Every read of the run does. */
  ghost predicate SerialRun(policies: map<string, Policy>, m: Machine, acts: seq<Act>)
    requires Shaped(policies, m)
    decreases |acts|
  {
    acts != [] ==>
      && CountsSerially(policies, m, acts[0])
      && (ShapeKept(policies, m, acts[0]); SerialRun(policies, Next(policies, m, acts[0]), acts[1..]))
  }

  lemma {:induction false} SerialExactlyIfTimelyFrom(policies: map<string, Policy>, m: Machine, acts: seq<Act>)
    requires Inv(policies, m, true)
    ensures SerialRun(policies, m, acts) <==> TimelyRun(policies, m, acts)
    decreases |acts|
  {
    if acts != [] {
      if Reads(policies, m, acts[0]).Some? {
        ReadMeans(policies, m, acts[0], true);
      }
      assert CountsSerially(policies, m, acts[0]) <==> Timely(policies, m, acts[0]);
      if Timely(policies, m, acts[0]) {
        InvKept(policies, m, acts[0], true);
        SerialExactlyIfTimelyFrom(policies, Next(policies, m, acts[0]), acts[1..]);
      }
    }
  }

  /**
   For any number of coroutines and any interleaving: every read arrives at all costs
   charged to its bucket before it in lock order plus its own, if and only if no read of
   the run meets an expired entry.
   */
  lemma SerialExactlyIfTimely(policies: map<string, Policy>, attempts: seq<Attempt>, acts: seq<Act>)
    requires ValidPolicies(policies) && forall i :: 0 <= i < |attempts| ==> attempts[i].Valid()
    ensures Shaped(policies, Initial(attempts))
    ensures SerialRun(policies, Initial(attempts), acts) <==> TimelyRun(policies, Initial(attempts), acts)
  {
    InitialInv(policies, attempts, true);
    SerialExactlyIfTimelyFrom(policies, Initial(attempts), acts);
  }

  lemma {:induction false} PromptIsTimelyFrom(policies: map<string, Policy>, m: Machine, acts: seq<Act>)
    requires Inv(policies, m, true) && PromptRun(policies, m, acts)
    ensures TimelyRun(policies, m, acts)
    decreases |acts|
  {
    if acts != [] {
      if Reads(policies, m, acts[0]).Some? {
        PromptIsNotLate(m.store, Current(policies, m).0, policies, Reads(policies, m, acts[0]).value, m.clock, true);
      }
      InvKept(policies, m, acts[0], true);
      PromptIsTimelyFrom(policies, Next(policies, m, acts[0]), acts[1..]);
    }
  }

  /** Every entry outlives its slot: a run whose reads stay inside the slot they charge counts serially. */
  lemma PromptRunsAreSerial(policies: map<string, Policy>, attempts: seq<Attempt>, acts: seq<Act>)
    requires ValidPolicies(policies) && forall i :: 0 <= i < |attempts| ==> attempts[i].Valid()
    requires PromptRun(policies, Initial(attempts), acts)
    ensures Shaped(policies, Initial(attempts)) && SerialRun(policies, Initial(attempts), acts)
  {
    InitialInv(policies, attempts, true);
    PromptIsTimelyFrom(policies, Initial(attempts), acts);
    SerialExactlyIfTimely(policies, attempts, acts);
  }
}
