/**
 The limiter's own code for one critical section: a loop over the two bucket kinds, each
 a read, an addition and a write on the expiring store.
 */
module RateLimiter {
  import opened Prelude
  import opened RateLimitSpec
  import opened RateLimitHistory

  /** The store's clock at the get and at the set of one bucket. */
  datatype Times = Times(get: real, put: real)

  datatype Consumed = Consumed(store: Store, used: Option<int>)

  /** Read, add and write one bucket; no count when the stored value is unreadable. */
  function ConsumeSpec(store: Store, key: Key, cost: int, window: int, at: Times): Consumed {
    match Get(store, key, at.get)
    case None => Consumed(Set(store, key, cost, at.put, window), Some(cost))
    case Some(Counter(n)) => Consumed(Set(store, key, n + cost, at.put, window), Some(n + cost))
    case Some(Unreadable) => Consumed(store, None)
  }

  datatype Progress = Progress(store: Store, retry: int, failed: bool)

  /** One bucket more. */
  function ChargeBucket(before: Progress, key: Key, cost: int, policy: Policy, now: real, at: Times): Progress
    requires policy.Valid()
  {
    if before.failed then before
    else
      var c := ConsumeSpec(before.store, key, cost, policy.window, at);
      if c.used.None? then Progress(c.store, before.retry, true)
      else if c.used.value <= policy.limit then Progress(c.store, before.retry, false)
      else Progress(c.store, Longest(before.retry, RetryAfter(now, policy.window)), false)
  }

  /** The first `n` buckets of an attempt. */
  function AcquireSpec(store: Store, keys: seq<Key>, cost: int, policy: Policy, now: real, at: seq<Times>, n: nat): Progress
    requires policy.Valid() && n <= |keys| <= |at|
  {
    if n == 0 then Progress(store, 0, false)
    else ChargeBucket(AcquireSpec(store, keys, cost, policy, now, at, n - 1), keys[n - 1], cost, policy, now, at[n - 1])
  }

  function Outcome(p: Progress): Decision {
    if p.failed then Failed else Verdict(p.retry)
  }

  /** No read meets an expired entry, and writes come no earlier than the attempt's clock reading. */
  ghost predicate TimelyTimes(store: Store, keys: seq<Key>, now: real, at: seq<Times>)
    requires |keys| <= |at|
  {
    forall i :: 0 <= i < |keys| ==> !Late(store, keys[i], at[i].get) && now <= at[i].put
  }

  /** What holds after `n` buckets of a timely attempt; the buckets still to come are as they were. */
  ghost predicate InStep(store: Store, p: Progress, keys: seq<Key>, n: nat, charged: (Counters, int),
                         policies: map<string, Policy>)
    requires n <= |keys|
  {
    && Agrees(p.store, charged.0, policies, true) && p.retry == charged.1 && !p.failed
    && (forall i :: n <= i < |keys| ==>
          (keys[i] in p.store <==> keys[i] in store) && (keys[i] in store ==> p.store[keys[i]] == store[keys[i]]))
  }

  lemma TimelyConsume(store: Store, counters: Counters, policies: map<string, Policy>, key: Key, cost: int,
                      now: real, at: Times)
    requires ValidPolicies(policies) && key.operation in policies && Agrees(store, counters, policies, true)
    requires key.slot == Slot(now, policies[key.operation].window) && !Late(store, key, at.get) && now <= at.put && cost >= 1
    ensures var c := ConsumeSpec(store, key, cost, policies[key.operation].window, at);
            var used := Count(counters, key) + cost;
            && c.used == Some(used) && c.store == Set(store, key, used, at.put, policies[key.operation].window)
            && Agrees(c.store, counters[key := used], policies, true)
  {
    ReadAgrees(store, counters, policies, key, at.get, true);
    var used := Count(counters, key) + cost;
    WriteAgrees(store, counters, policies, key, used, used, now, at.put, true);
  }

  lemma TimelyBucket(policies: map<string, Policy>, store: Store, keys: seq<Key>, cost: int, now: real, at: Times, n: nat,
                     before: Progress, counters: Counters)
    requires ValidPolicies(policies) && 0 < n <= |keys| && keys[n - 1].operation in policies && cost >= 1
    requires forall i :: n <= i < |keys| ==> keys[i] != keys[n - 1]
    requires var policy := policies[keys[n - 1].operation];
             && keys[n - 1].slot == Slot(now, policy.window) && !Late(store, keys[n - 1], at.get) && now <= at.put
             && InStep(store, before, keys, n - 1, Charge(counters, keys, cost, policy, now, n - 1), policies)
    ensures var policy := policies[keys[n - 1].operation];
            InStep(store, ChargeBucket(before, keys[n - 1], cost, policy, now, at), keys, n,
                   Charge(counters, keys, cost, policy, now, n), policies)
  {
    var sofar := Charge(counters, keys, cost, policies[keys[n - 1].operation], now, n - 1).0;
    TimelyConsume(before.store, sofar, policies, keys[n - 1], cost, now, at);
  }

  lemma {:induction false} TimelyPrefixIsIdeal(store: Store, counters: Counters, policies: map<string, Policy>,
                                               operation: string, keys: seq<Key>, cost: int, now: real, at: seq<Times>, n: nat)
    requires ValidPolicies(policies) && operation in policies && Agrees(store, counters, policies, true)
    requires forall i :: 0 <= i < |keys| ==>
               keys[i].operation == operation && keys[i].slot == Slot(now, policies[operation].window)
    requires forall i, j :: 0 <= i < j < |keys| ==> keys[i] != keys[j]
    requires n <= |keys| <= |at| && TimelyTimes(store, keys, now, at) && cost >= 1
    ensures InStep(store, AcquireSpec(store, keys, cost, policies[operation], now, at, n), keys, n,
                   Charge(counters, keys, cost, policies[operation], now, n), policies)
  {
    if n > 0 {
      TimelyPrefixIsIdeal(store, counters, policies, operation, keys, cost, now, at, n - 1);
      var before := AcquireSpec(store, keys, cost, policies[operation], now, at, n - 1);
      TimelyBucket(policies, store, keys, cost, now, at[n - 1], n, before, counters);
    }
  }

  predicate DistinctKeys(keys: seq<Key>) {
    forall i, j :: 0 <= i < j < |keys| ==> keys[i] != keys[j]
  }

  /** Buckets that are not among the first `n` are as they were. */
  lemma {:induction false} OthersUntouched(store: Store, keys: seq<Key>, cost: int, policy: Policy, now: real, at: seq<Times>, n: nat,
                                           k: Key)
    requires policy.Valid() && n <= |keys| <= |at| && forall i :: 0 <= i < n ==> keys[i] != k
    ensures var p := AcquireSpec(store, keys, cost, policy, now, at, n);
            (k in p.store <==> k in store) && (k in store ==> p.store[k] == store[k])
  {
    if n > 0 {
      OthersUntouched(store, keys, cost, policy, now, at, n - 1, k);
    }
  }

  /** So bucket `n` is read as the attempt found it. */
  lemma ReadsFresh(store: Store, keys: seq<Key>, cost: int, policy: Policy, now: real, at: seq<Times>, n: nat)
    requires policy.Valid() && n < |keys| <= |at| && DistinctKeys(keys)
    ensures var before := AcquireSpec(store, keys, cost, policy, now, at, n);
            Get(before.store, keys[n], at[n].get) == Get(store, keys[n], at[n].get)
  {
    OthersUntouched(store, keys, cost, policy, now, at, n, keys[n]);
  }

  ghost predicate SomeUnreadable(store: Store, keys: seq<Key>, at: seq<Times>, n: nat)
    requires n <= |keys| <= |at|
  {
    exists i :: 0 <= i < n && Get(store, keys[i], at[i].get) == Some(Unreadable)
  }

  lemma {:induction false} FailsExactly(store: Store, keys: seq<Key>, cost: int, policy: Policy, now: real, at: seq<Times>, n: nat)
    requires policy.Valid() && n <= |keys| <= |at| && DistinctKeys(keys)
    ensures AcquireSpec(store, keys, cost, policy, now, at, n).failed <==> SomeUnreadable(store, keys, at, n)
  {
    if n > 0 {
      FailsExactly(store, keys, cost, policy, now, at, n - 1);
      ReadsFresh(store, keys, cost, policy, now, at, n - 1);
    }
  }

  ghost predicate AllFit(store: Store, keys: seq<Key>, cost: int, limit: int, at: seq<Times>, n: nat)
    requires n <= |keys| <= |at|
  {
    forall i :: 0 <= i < n ==> Seen(store, keys[i], at[i].get) + cost <= limit
  }

  lemma {:induction false} DeniesExactly(store: Store, keys: seq<Key>, cost: int, policy: Policy, now: real, at: seq<Times>, n: nat)
    requires policy.Valid() && n <= |keys| <= |at| && DistinctKeys(keys)
    ensures var p := AcquireSpec(store, keys, cost, policy, now, at, n);
            !p.failed ==> p.retry == if AllFit(store, keys, cost, policy.limit, at, n) then 0 else RetryAfter(now, policy.window)
  {
    if n > 0 {
      DeniesExactly(store, keys, cost, policy, now, at, n - 1);
      ReadsFresh(store, keys, cost, policy, now, at, n - 1);
      assert AllFit(store, keys, cost, policy.limit, at, n) <==>
        AllFit(store, keys, cost, policy.limit, at, n - 1) && Seen(store, keys[n - 1], at[n - 1].get) + cost <= policy.limit;
      RetryLandsInNextSlot(now, policy.window, 0);
    }
  }

  /** What the write of a bucket leaves there. */
  function ChargedEntry(store: Store, key: Key, cost: int, window: int, at: Times): Entry {
    Entry(Counter(Seen(store, key, at.get) + cost), at.put + window as real)
  }

  lemma {:induction false} WritesExactly(store: Store, keys: seq<Key>, cost: int, policy: Policy, now: real, at: seq<Times>, n: nat,
                                         i: nat)
    requires policy.Valid() && i < n <= |keys| <= |at| && DistinctKeys(keys)
    ensures var p := AcquireSpec(store, keys, cost, policy, now, at, n);
            !p.failed ==> keys[i] in p.store && p.store[keys[i]] == ChargedEntry(store, keys[i], cost, policy.window, at[i])
  {
    ReadsFresh(store, keys, cost, policy, now, at, n - 1);
    if i < n - 1 {
      WritesExactly(store, keys, cost, policy, now, at, n - 1, i);
    }
  }

  /**
   One attempt on any store: it fails exactly if some bucket it reads is unreadable; otherwise
   it is allowed exactly if every bucket, expired entries read as empty, still holds its cost,
   and every bucket then holds what was read plus the cost, for one window from the write.
   */
  lemma AcquireDecidesExactly(store: Store, a: Attempt, policy: Policy, now: real, at: seq<Times>)
    requires policy.Valid() && |Keys(a, policy, now)| <= |at|
    ensures var keys := Keys(a, policy, now);
            var p := AcquireSpec(store, keys, a.cost, policy, now, at, |keys|);
            && (Outcome(p).Failed? <==> SomeUnreadable(store, keys, at, |keys|))
            && (Outcome(p).Allowed? <==>
                  !SomeUnreadable(store, keys, at, |keys|) && AllFit(store, keys, a.cost, policy.limit, at, |keys|))
            && (Outcome(p).Denied? ==> Outcome(p).retryAfter == RetryAfter(now, policy.window))
            && (!Outcome(p).Failed? ==>
                  forall i :: 0 <= i < |keys| ==>
                    keys[i] in p.store && p.store[keys[i]] == ChargedEntry(store, keys[i], a.cost, policy.window, at[i]))
            && (forall k :: k !in keys ==> (k in p.store <==> k in store) && (k in store ==> p.store[k] == store[k]))
  {
    var keys := Keys(a, policy, now);
    KeysAreCurrent(a, policy, now);
    FailsExactly(store, keys, a.cost, policy, now, at, |keys|);
    DeniesExactly(store, keys, a.cost, policy, now, at, |keys|);
    RetryLandsInNextSlot(now, policy.window, 0);
    forall i: nat | i < |keys|
      ensures var p := AcquireSpec(store, keys, a.cost, policy, now, at, |keys|);
              !p.failed ==> keys[i] in p.store && p.store[keys[i]] == ChargedEntry(store, keys[i], a.cost, policy.window, at[i])
    {
      WritesExactly(store, keys, a.cost, policy, now, at, |keys|, i);
    }
    forall k | k !in keys
      ensures var p := AcquireSpec(store, keys, a.cost, policy, now, at, |keys|);
              (k in p.store <==> k in store) && (k in store ==> p.store[k] == store[k])
    {
      OthersUntouched(store, keys, a.cost, policy, now, at, |keys|, k);
    }
  }

  lemma KeysAreCurrent(a: Attempt, policy: Policy, now: real)
    requires policy.Valid()
    ensures var keys := Keys(a, policy, now);
            && (forall i :: 0 <= i < |keys| ==> keys[i].operation == a.operation && keys[i].slot == Slot(now, policy.window))
            && (forall i, j :: 0 <= i < j < |keys| ==> keys[i] != keys[j])
  {
    var keys := Keys(a, policy, now);
    assert |keys| == 2 ==> keys[0].kind != keys[1].kind;
  }

  /** A critical section none of whose reads meets an expired entry decides like never-expiring counters. */
  lemma TimelyAcquireIsIdeal(store: Store, counters: Counters, policies: map<string, Policy>, a: Attempt, now: real,
                             at: seq<Times>)
    requires ValidPolicies(policies) && a.operation in policies && a.Valid()
    requires Agrees(store, counters, policies, true)
    requires var keys := Keys(a, policies[a.operation], now); |keys| <= |at| && TimelyTimes(store, keys, now, at)
    ensures var policy := policies[a.operation];
            var keys := Keys(a, policy, now);
            var p := AcquireSpec(store, keys, a.cost, policy, now, at, |keys|);
            var (after, decision) := Ideal(counters, policies, a, now);
            Agrees(p.store, after, policies, true) && Outcome(p) == decision
  {
    var keys := Keys(a, policies[a.operation], now);
    KeysAreCurrent(a, policies[a.operation], now);
    TimelyPrefixIsIdeal(store, counters, policies, a.operation, keys, a.cost, now, at, |keys|);
  }

  class StoreRateLimiter {
    const policies: map<string, Policy>
    var store: Store

    constructor (policies: map<string, Policy>)
      requires ValidPolicies(policies)
      ensures this.policies == policies && store == map[]
    {
      this.policies := policies;
      store := map[];
    }

    /** The wait when the bucket is exhausted, 0 otherwise; None when the counter is unreadable. */
    method Consume(a: Attempt, policy: Policy, kind: Kind, value: string, now: real,
                   at: Times) returns (exhausted: Option<int>)
      requires policy.Valid()
      modifies this
      ensures var c := ConsumeSpec(old(store), KeyOf(a, kind, value, policy, now), a.cost, policy.window, at);
              && store == c.store
              && exhausted == if c.used.None? then None
                              else if c.used.value <= policy.limit then Some(0)
                              else Some(RetryAfter(now, policy.window))
    {
      var window := policy.window;
      var slot := Slot(now, window);
      var key := Key(slot, a.operation, kind, value);
      var raw := Get(store, key, at.get);
      var used := 0;
      if raw.Some? {
        if raw.value.Unreadable? {
          return None;
        }
        used := raw.value.n;
      }
      used := used + a.cost;
      store := Set(store, key, used, at.put, window);
      if used <= policy.limit {
        return Some(0);
      }
      var wait := Ceiling(SlotEnd(slot, window) - now);
      exhausted := Some(if wait < 1 then 1 else wait);
    }

    /** One whole attempt, run while holding the process lock. */
    method Acquire(a: Attempt, now: real, at: seq<Times>) returns (decision: Decision)
      requires ValidPolicies(policies) && |at| == 2
      modifies this
      ensures a.operation !in policies ==> decision == Allowed && store == old(store)
      ensures a.operation in policies ==>
                var policy := policies[a.operation];
                var keys := Keys(a, policy, now);
                var p := AcquireSpec(old(store), keys, a.cost, policy, now, at, |keys|);
                store == p.store && decision == Outcome(p)
    {
      if a.operation !in policies {
        return Allowed;
      }
      var policy := policies[a.operation];
      ghost var keys := Keys(a, policy, now);
      RetryLandsInNextSlot(now, policy.window, 0);
      var retryAfter := 0;
      var kinds := [(Client, a.clientKey), (Subject, a.subjectDigest)];
      var i, n := 0, 0;
      while i < 2
        invariant 0 <= i <= 2
        invariant n == (if i >= 1 && a.clientKey.Some? then 1 else 0) + (if i >= 2 && a.subjectDigest.Some? then 1 else 0)
        invariant n <= |keys|
        invariant AcquireSpec(old(store), keys, a.cost, policy, now, at, n) == Progress(store, retryAfter, false)
      {
        var (kind, value) := kinds[i];
        i := i + 1;
        if value.Some? {
          assert keys[n] == KeyOf(a, kind, value.value, policy, now);
          var exhausted := Consume(a, policy, kind, value.value, now, at[n]);
          n := n + 1;
          if exhausted.None? {
            assert AcquireSpec(old(store), keys, a.cost, policy, now, at, n).failed;
            FailureSticks(old(store), keys, a.cost, policy, now, at, n, |keys|);
            return Failed;
          }
          retryAfter := Longest(retryAfter, exhausted.value);
        }
      }
      assert n == |keys|;
      decision := Verdict(retryAfter);
    }
  }

  lemma {:induction false} FailureSticks(store: Store, keys: seq<Key>, cost: int, policy: Policy, now: real,
                                         at: seq<Times>, n: nat, m: nat)
    requires policy.Valid() && n <= m <= |keys| <= |at| && AcquireSpec(store, keys, cost, policy, now, at, n).failed
    ensures AcquireSpec(store, keys, cost, policy, now, at, m) == AcquireSpec(store, keys, cost, policy, now, at, n)
    decreases m - n
  {
    if n < m {
      FailureSticks(store, keys, cost, policy, now, at, n, m - 1);
    }
  }
}
