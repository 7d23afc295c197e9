/**
 A bound that every run of the limiter keeps, whatever its reads meet: three times the
 limit in any window. It follows from the order of the writes and their deadlines.
 */
module RateLimitBound {
  import opened Prelude
  import opened RateLimitSpec
  import opened RateLimitHistory
  import opened RateLimitWrites
  import opened RateLimitMachine
  import opened RateLimitVerdicts

  // ----------------------------------------------- the store holds the latest writes

  ghost predicate StoreFollows(policies: map<string, Policy>, store: Store, writes: seq<Write>) {
    forall key ::
      && (key in store <==> LastOn(writes, key).Some?)
      && (key in store ==>
            && key.operation in policies
            && var last := LastOn(writes, key).value;
            store[key] == Entry(Counter(last.used), last.put + policies[key.operation].window as real))
  }

  /** A count read from the stored one, or started over behind an expired entry. */
  predicate ReadFrom(store: Store, key: Key, cost: int, used: int, at: real) {
    if key in store then
      store[key].raw.Counter? && (used == store[key].raw.n + cost || (used == cost && store[key].expiresAt <= at))
    else used == cost
  }

  /** Part of the invariant: where the holder is in its turn. */
  ghost predicate Held(policies: map<string, Policy>, m: Machine) {
    && Exclusive(m)
    && (m.holder.Some? ==>
          var proc := m.procs[m.holder.value];
          && Limited(policies, proc.attempt) && proc.attempt.Valid() && proc.phase.now <= m.clock
          && var n := |KeysOf(policies, proc.attempt, proc.phase.now)|;
          proc.phase.done <= n && (proc.phase.Writing? ==> proc.phase.done < n))
  }

  /** The holder read the clock after all writes to the buckets it still has to charge. */
  ghost predicate HolderFollows(policies: map<string, Policy>, m: Machine)
    requires Held(policies, m)
  {
    m.holder.Some? ==>
      var proc := m.procs[m.holder.value];
      var keys := KeysOf(policies, proc.attempt, proc.phase.now);
      && (forall w, k :: w in m.writes && proc.phase.done <= k < |keys| && SameBucket(w.key, keys[k]) ==> w.put <= proc.phase.now)
      && (proc.phase.Writing? ==> ReadFrom(m.store, keys[proc.phase.done], proc.attempt.cost, proc.phase.used, m.clock))
  }

  ghost predicate WritesOk(policies: map<string, Policy>, m: Machine) {
    && Held(policies, m)
    && Coherent(policies, m.writes)
    && (forall w :: w in m.writes ==> w.put <= m.clock)
    && StoreFollows(policies, m.store, m.writes)
    && HolderFollows(policies, m)
  }

  lemma HolderKeys(policies: map<string, Policy>, m: Machine)
    requires Held(policies, m) && m.holder.Some?
    ensures var proc := m.procs[m.holder.value];
            var keys := KeysOf(policies, proc.attempt, proc.phase.now);
            && (forall k :: 0 <= k < |keys| ==>
                  && keys[k].operation == proc.attempt.operation
                  && keys[k].slot == Slot(proc.phase.now, policies[proc.attempt.operation].window))
            && (forall j, k :: 0 <= j < k < |keys| ==> !SameBucket(keys[j], keys[k]))
  {
  }

  lemma TickFollows(policies: map<string, Policy>, m: Machine, act: Act)
    requires WritesOk(policies, m) && act.Tick? && Held(policies, Next(policies, m, act))
    ensures WritesOk(policies, Next(policies, m, act))
  {
  }

  lemma TryFollows(policies: map<string, Policy>, m: Machine, act: Act)
    requires WritesOk(policies, m) && act.Try? && Held(policies, Next(policies, m, act))
    ensures WritesOk(policies, Next(policies, m, act))
  {
  }

  lemma FetchFollows(policies: map<string, Policy>, m: Machine, act: Act)
    requires WritesOk(policies, m) && act.Fetch? && Held(policies, Next(policies, m, act))
    ensures WritesOk(policies, Next(policies, m, act))
  {
  }

  lemma ReleaseFollows(policies: map<string, Policy>, m: Machine, act: Act)
    requires WritesOk(policies, m) && act.Release? && Held(policies, Next(policies, m, act))
    ensures WritesOk(policies, Next(policies, m, act))
  {
  }

  /** The write a put adds. */
  function Added(policies: map<string, Policy>, m: Machine, p: nat): Write
    requires p < |m.procs| && m.procs[p].phase.Writing? && Limited(policies, m.procs[p].attempt)
    requires m.procs[p].phase.done < |KeysOf(policies, m.procs[p].attempt, m.procs[p].phase.now)|
  {
    var a, w := m.procs[p].attempt, m.procs[p].phase;
    Write(KeysOf(policies, a, w.now)[w.done], w.now, a.cost, w.used, m.clock)
  }

  lemma PutContinues(policies: map<string, Policy>, m: Machine, p: nat)
    requires WritesOk(policies, m) && m.holder == Some(p) && m.procs[p].phase.Writing?
    ensures Continues(policies, m.writes, Added(policies, m, p))
  {
    HolderKeys(policies, m);
    var w := Added(policies, m, p);
    assert SameBucket(w.key, w.key);
    if LastOn(m.writes, w.key).Some? {
      assert w.key in m.store;
    } else {
      assert w.key !in m.store;
    }
  }

  lemma StoreFollowsPut(policies: map<string, Policy>, store: Store, writes: seq<Write>, w: Write)
    requires StoreFollows(policies, store, writes) && w.key.operation in policies
    ensures StoreFollows(policies, Set(store, w.key, w.used, w.put, policies[w.key.operation].window), writes + [w])
  {
    var store' := Set(store, w.key, w.used, w.put, policies[w.key.operation].window);
    forall key
      ensures key in store' <==> LastOn(writes + [w], key).Some?
      ensures key in store' ==>
                && key.operation in policies
                && var last := LastOn(writes + [w], key).value;
                store'[key] == Entry(Counter(last.used), last.put + policies[key.operation].window as real)
    {
      LastUnfold(writes, w, key);
    }
  }

  /** The machine after a put: the holder has charged one more bucket. */
  predicate HasPut(policies: map<string, Policy>, m: Machine, m': Machine, p: nat, retry: int)
    requires p < |m.procs| && m.procs[p].phase.Writing? && Limited(policies, m.procs[p].attempt)
    requires m.procs[p].phase.done < |KeysOf(policies, m.procs[p].attempt, m.procs[p].phase.now)|
  {
    var w := Added(policies, m, p);
    m' == Become(m, p, Reading(w.now, m.procs[p].phase.done + 1, retry))
            .(store := Set(m.store, w.key, w.used, w.put, policies[w.key.operation].window), writes := m.writes + [w])
  }

  lemma PutKeepsHolder(policies: map<string, Policy>, m: Machine, m': Machine, p: nat, retry: int)
    requires WritesOk(policies, m) && m.holder == Some(p) && m.procs[p].phase.Writing?
    requires HasPut(policies, m, m', p, retry) && Held(policies, m')
    ensures HolderFollows(policies, m')
  {
    HolderKeys(policies, m);
  }

  lemma PutKeepsWrites(policies: map<string, Policy>, m: Machine, m': Machine, p: nat, retry: int)
    requires WritesOk(policies, m) && m.holder == Some(p) && m.procs[p].phase.Writing?
    requires HasPut(policies, m, m', p, retry) && Held(policies, m')
    ensures WritesOk(policies, m')
  {
    PutContinues(policies, m, p);
    PutKeepsHolder(policies, m, m', p, retry);
    SnocSplit(m.writes, Added(policies, m, p));
    StoreFollowsPut(policies, m.store, m.writes, Added(policies, m, p));
  }

  lemma PutFollows(policies: map<string, Policy>, m: Machine, act: Act)
    requires WritesOk(policies, m) && act.Put? && Held(policies, Next(policies, m, act))
    ensures WritesOk(policies, Next(policies, m, act))
  {
    var m' := Next(policies, m, act);
    if m' != m {
      PutKeepsWrites(policies, m, m', act.p, m'.procs[act.p].phase.retry);
    }
  }

  lemma WritesFollow(policies: map<string, Policy>, m: Machine, act: Act)
    requires WritesOk(policies, m) && Held(policies, Next(policies, m, act))
    ensures WritesOk(policies, Next(policies, m, act))
  {
    match act
    case Tick(_) => TickFollows(policies, m, act);
    case Try(_) => TryFollows(policies, m, act);
    case Fetch(_) => FetchFollows(policies, m, act);
    case Put(_) => PutFollows(policies, m, act);
    case Release(_) => ReleaseFollows(policies, m, act);
  }

  // ------------------------------------------- whoever is let through was written down

  /** What the holder will have been let through for, if it has charged the bucket and nothing denied it yet. */
  ghost function Pending(policies: map<string, Policy>, m: Machine, b: Bucket, lo: real, hi: real): int
    requires Held(policies, m)
  {
    if m.holder.None? then 0
    else
      var proc := m.procs[m.holder.value];
      var keys := KeysOf(policies, proc.attempt, proc.phase.now);
      if proc.phase.retry == 0 && lo <= proc.phase.now < hi && exists k :: 0 <= k < proc.phase.done && Names(keys[k], b)
      then proc.attempt.cost else 0
  }

  ghost predicate Backed(policies: map<string, Policy>, m: Machine, b: Bucket, lo: real, hi: real)
    requires Held(policies, m) && |m.served| == |m.servedBy| && b.operation in policies
  {
    LetThrough(m.served, Verdicts(m), b, lo, hi) + Pending(policies, m, b, lo, hi)
    <= Spent(m.writes, b, policies[b.operation].limit, lo, hi)
  }

  /** A coroutine that has no verdict yet can move without touching those given. */
  lemma VerdictsFramed(policies: map<string, Policy>, m: Machine, m': Machine, p: nat, phase: Phase)
    requires Inv(policies, m, false) && p < |m.procs| && !m.procs[p].phase.Finished?
    requires m'.procs == m.procs[p := m.procs[p].(phase := phase)] && m'.servedBy == m.servedBy
    ensures Verdicts(m') == Verdicts(m)
  {
    ServedOnce(policies, m, p, false);
    forall i | 0 <= i < |m.servedBy| ensures Verdicts(m')[i] == Verdicts(m)[i] {}
  }

  /** The turn's verdict is added to those given. */
  lemma VerdictAdded(policies: map<string, Policy>, m: Machine, m': Machine, p: nat, d: Decision)
    requires Inv(policies, m, false) && p < |m.procs| && !m.procs[p].phase.Finished?
    requires m'.procs == m.procs[p := m.procs[p].(phase := Finished(d))] && m'.servedBy == m.servedBy + [p]
    ensures Verdicts(m') == Verdicts(m) + [Some(d)]
  {
    ServedOnce(policies, m, p, false);
    forall i | 0 <= i < |m.servedBy| ensures Verdicts(m')[i] == Verdicts(m)[i] {
      assert m'.servedBy[i] == m.servedBy[i];
    }
  }

  /** A put moves the holder's account into the log. */
  lemma PutPending(policies: map<string, Policy>, m: Machine, act: Act, b: Bucket, lo: real, hi: real)
    requires Inv(policies, m, false) && act.Put? && Next(policies, m, act) != m && b.operation in policies
    requires Inv(policies, Next(policies, m, act), false)
    ensures m.holder == Some(act.p) && m.procs[act.p].phase.Writing?
    ensures var w := Added(policies, m, act.p);
            Pending(policies, Next(policies, m, act), b, lo, hi)
            <= Pending(policies, m, b, lo, hi)
               + if Passing(w, b, policies[b.operation].limit, lo, hi) then w.cost else 0
  {
    var proc := m.procs[act.p];
    HolderKeys(policies, m);
    RetryLandsInNextSlot(proc.phase.now, policies[proc.attempt.operation].window, 0);
  }

  lemma PutBacks(policies: map<string, Policy>, m: Machine, act: Act, b: Bucket, lo: real, hi: real)
    requires Inv(policies, m, false) && act.Put? && Next(policies, m, act) != m
    requires b.operation in policies && Backed(policies, m, b, lo, hi)
    ensures Inv(policies, Next(policies, m, act), false) && Backed(policies, Next(policies, m, act), b, lo, hi)
  {
    var m' := Next(policies, m, act);
    InvKept(policies, m, act, false);
    PutPending(policies, m, act, b, lo, hi);
    VerdictsFramed(policies, m, m', act.p, m'.procs[act.p].phase);
    SnocSplit(m.writes, Added(policies, m, act.p));
    assert m'.writes == m.writes + [Added(policies, m, act.p)];
  }

  lemma ChargedIsKeyed(a: Attempt, policy: Policy, now: real, b: Bucket)
    requires policy.Valid() && Charged(a, b)
    ensures exists k :: 0 <= k < |Keys(a, policy, now)| && Names(Keys(a, policy, now)[k], b)
  {
    var keys := Keys(a, policy, now);
    assert if b.kind.Client? then Names(keys[0], b) else Names(keys[|keys| - 1], b);
  }

  /** What a release lets through was pending. */
  lemma ReleasePending(policies: map<string, Policy>, m: Machine, p: nat, b: Bucket, lo: real, hi: real)
    requires Inv(policies, m, false) && m.holder == Some(p) && m.procs[p].phase.Reading?
    requires m.procs[p].phase.done >= |KeysOf(policies, m.procs[p].attempt, m.procs[p].phase.now)|
    requires LetIn(Call(m.procs[p].attempt, m.procs[p].phase.now), Some(Verdict(m.procs[p].phase.retry)), b, lo, hi)
    ensures Pending(policies, m, b, lo, hi) == m.procs[p].attempt.cost
  {
    var proc := m.procs[p];
    ChargedIsKeyed(proc.attempt, policies[proc.attempt.operation], proc.phase.now, b);
  }

  lemma ReleaseBacks(policies: map<string, Policy>, m: Machine, act: Act, b: Bucket, lo: real, hi: real)
    requires Inv(policies, m, false) && act.Release? && Next(policies, m, act) != m
    requires b.operation in policies && Backed(policies, m, b, lo, hi)
    ensures Inv(policies, Next(policies, m, act), false) && Backed(policies, Next(policies, m, act), b, lo, hi)
  {
    var m' := Next(policies, m, act);
    InvKept(policies, m, act, false);
    var proc := m.procs[act.p];
    var call, d := Call(proc.attempt, proc.phase.now), Verdict(proc.phase.retry);
    VerdictAdded(policies, m, m', act.p, d);
    LetThroughUnfold(m.served, Verdicts(m), call, Some(d), b, lo, hi);
    if LetIn(call, Some(d), b, lo, hi) {
      ReleasePending(policies, m, act.p, b, lo, hi);
    }
  }

  lemma FetchBacks(policies: map<string, Policy>, m: Machine, act: Act, b: Bucket, lo: real, hi: real)
    requires Inv(policies, m, false) && act.Fetch? && Next(policies, m, act) != m
    requires b.operation in policies && Backed(policies, m, b, lo, hi)
    ensures Inv(policies, Next(policies, m, act), false) && Backed(policies, Next(policies, m, act), b, lo, hi)
  {
    var m' := Next(policies, m, act);
    InvKept(policies, m, act, false);
    ReadMeans(policies, m, act, false);
    VerdictsFramed(policies, m, m', act.p, m'.procs[act.p].phase);
  }

  /** Neither passing by nor taking the lock charges a bucket. */
  lemma TryPending(policies: map<string, Policy>, m: Machine, act: Act, b: Bucket, lo: real, hi: real)
    requires Held(policies, m) && act.Try? && Held(policies, Next(policies, m, act))
    ensures Pending(policies, Next(policies, m, act), b, lo, hi) == Pending(policies, m, b, lo, hi)
  {
  }

  lemma TryBacks(policies: map<string, Policy>, m: Machine, act: Act, b: Bucket, lo: real, hi: real)
    requires Inv(policies, m, false) && act.Try? && Next(policies, m, act) != m
    requires b.operation in policies && Backed(policies, m, b, lo, hi)
    ensures Inv(policies, Next(policies, m, act), false) && Backed(policies, Next(policies, m, act), b, lo, hi)
  {
    var m' := Next(policies, m, act);
    InvKept(policies, m, act, false);
    TryPending(policies, m, act, b, lo, hi);
    VerdictsFramed(policies, m, m', act.p, m'.procs[act.p].phase);
  }

  lemma BackedKept(policies: map<string, Policy>, m: Machine, act: Act, b: Bucket, lo: real, hi: real)
    requires Inv(policies, m, false) && b.operation in policies && Backed(policies, m, b, lo, hi)
    ensures Inv(policies, Next(policies, m, act), false) && Backed(policies, Next(policies, m, act), b, lo, hi)
  {
    InvKept(policies, m, act, false);
    if Next(policies, m, act) != m {
      match act
      case Tick(_) => assert Verdicts(Next(policies, m, act)) == Verdicts(m);
      case Try(_) => TryBacks(policies, m, act, b, lo, hi);
      case Fetch(_) => FetchBacks(policies, m, act, b, lo, hi);
      case Put(_) => PutBacks(policies, m, act, b, lo, hi);
      case Release(_) => ReleaseBacks(policies, m, act, b, lo, hi);
    }
  }

  lemma {:induction false} RunFollows(policies: map<string, Policy>, m: Machine, acts: seq<Act>, b: Bucket, lo: real, hi: real)
    requires Inv(policies, m, false) && WritesOk(policies, m) && b.operation in policies && Backed(policies, m, b, lo, hi)
    ensures var m' := Exec(policies, m, acts);
            Inv(policies, m', false) && WritesOk(policies, m') && Backed(policies, m', b, lo, hi)
    decreases |acts|
  {
    if acts != [] {
      BackedKept(policies, m, acts[0], b, lo, hi);
      WritesFollow(policies, m, acts[0]);
      RunFollows(policies, Next(policies, m, acts[0]), acts[1..], b, lo, hi);
    }
  }

  lemma NothingYet(policies: map<string, Policy>, attempts: seq<Attempt>, b: Bucket, lo: real, hi: real)
    requires ValidPolicies(policies) && forall k :: 0 <= k < |attempts| ==> attempts[k].Valid()
    requires b.operation in policies
    ensures var m := Initial(attempts);
            Inv(policies, m, false) && WritesOk(policies, m) && Backed(policies, m, b, lo, hi)
  {
    InitialInv(policies, attempts, false);
  }

  lemma BackedIsBounded(policies: map<string, Policy>, m: Machine, b: Bucket, lo: real)
    requires b.operation in policies && policies[b.operation].Valid() && |m.served| == |m.servedBy|
    requires WritesOk(policies, m) && Backed(policies, m, b, lo, lo + policies[b.operation].window as real)
    ensures LetThrough(m.served, Verdicts(m), b, lo, lo + policies[b.operation].window as real) <= 3 * policies[b.operation].limit
  {
    SpentAtMostThrice(policies, m.writes, b, lo);
  }

  /**
   With no condition on the run: what the limiter lets through on a bucket in any half-open
   interval of one window is at most three times its limit.
   */
  lemma NeverMoreThanThrice(policies: map<string, Policy>, attempts: seq<Attempt>, acts: seq<Act>, b: Bucket, lo: real)
    requires ValidPolicies(policies) && forall k :: 0 <= k < |attempts| ==> attempts[k].Valid()
    requires b.operation in policies
    ensures var m := Exec(policies, Initial(attempts), acts);
            var policy := policies[b.operation];
            |m.served| == |m.servedBy|
            && LetThrough(m.served, Verdicts(m), b, lo, lo + policy.window as real) <= 3 * policy.limit
  {
    var policy := policies[b.operation];
    var m := Exec(policies, Initial(attempts), acts);
    NothingYet(policies, attempts, b, lo, lo + policy.window as real);
    RunFollows(policies, Initial(attempts), acts, b, lo, lo + policy.window as real);
    BackedIsBounded(policies, m, b, lo);
  }
}
