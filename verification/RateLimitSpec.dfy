/**
 The fixed-window limiter over an expiring store. Time is real-valued; a bucket's
 SHA-256 name is kept as the tuple that is hashed.
 */
module RateLimitSpec {
  import opened Prelude

  datatype Policy = Policy(limit: int, window: int) {
    predicate Valid() {
      1 <= limit <= 1_000_000 && 1 <= window <= 86_400
    }
  }

  datatype Kind = Client | Subject

  datatype Attempt = Attempt(operation: string, clientKey: Option<string>, subjectDigest: Option<string>, cost: int) {
    predicate Valid() {
      1 <= cost <= 1_000
    }
  }

  datatype Key = Key(slot: int, operation: string, kind: Kind, value: string)

  datatype Raw = Counter(n: int) | Unreadable

  datatype Entry = Entry(raw: Raw, expiresAt: real)

  type Store = map<Key, Entry>

  /** `retryAfter` 0 means not denied so far. */
  datatype Decision = Allowed | Denied(retryAfter: int) | Failed

  // ------------------------------------------------------------------------ slots

  function Slot(now: real, window: int): int
    requires window > 0
  {
    (now / (window as real)).Floor
  }

  function SlotEnd(slot: int, window: int): real {
    ((slot + 1) * window) as real
  }

  function Ceiling(x: real): int {
    -((-x).Floor)
  }

  function RetryAfter(now: real, window: int): int
    requires window > 0
  {
    var wait := Ceiling(SlotEnd(Slot(now, window), window) - now);
    if wait < 1 then 1 else wait
  }

  lemma ScaledOrder(a: real, b: real, w: real)
    requires w > 0.0
    ensures a <= b <==> a * w <= b * w
    ensures a < b <==> a * w < b * w
  {
  }

  lemma SlotBounds(now: real, window: int)
    requires window > 0
    ensures (Slot(now, window) * window) as real <= now < SlotEnd(Slot(now, window), window)
  {
    var w, k := window as real, Slot(now, window);
    var q := now / w;
    assert q * w == now;
    ScaledOrder(k as real, q, w);
    ScaledOrder(q, (k + 1) as real, w);
    assert (k * window) as real == (k as real) * w;
    assert ((k + 1) * window) as real == ((k + 1) as real) * w;
  }

  lemma SlotsOrdered(j: int, k: int, window: int)
    requires window > 0
    ensures j < k ==> SlotEnd(j, window) <= (k * window) as real
  {
    if j < k {
      assert (j + 1) * window <= k * window;
    }
  }

  lemma SlotUnique(now: real, window: int, k: int)
    requires window > 0 && (k * window) as real <= now < SlotEnd(k, window)
    ensures Slot(now, window) == k
  {
    SlotBounds(now, window);
    SlotsOrdered(Slot(now, window), k, window);
    SlotsOrdered(k, Slot(now, window), window);
  }

  /**
   A denial's wait is between one second and the window, it is the least whole number of
   seconds that leaves the slot, and waiting exactly that long lands in the very next one.
   */
  lemma RetryLandsInNextSlot(now: real, window: int, shorter: int)
    requires window > 0 && 0 <= shorter < RetryAfter(now, window)
    ensures 1 <= RetryAfter(now, window) <= window
    ensures Slot(now + RetryAfter(now, window) as real, window) == Slot(now, window) + 1
    ensures Slot(now + shorter as real, window) == Slot(now, window)
  {
    SlotBounds(now, window);
    var k := Slot(now, window);
    var gap := SlotEnd(k, window) - now;
    assert 0.0 < gap <= window as real by {
      assert SlotEnd(k, window) == (k * window) as real + window as real;
    }
    var wait := Ceiling(gap);
    assert gap <= wait as real < gap + 1.0;
    assert 1 <= wait <= window;
    assert SlotEnd(k + 1, window) == SlotEnd(k, window) + window as real;
    SlotUnique(now + wait as real, window, k + 1);
    SlotUnique(now + shorter as real, window, k);
  }

  // ------------------------------------------------------------------ store access

  /** An entry is gone once the store's clock reaches its deadline. */
  function Get(store: Store, key: Key, at: real): Option<Raw> {
    if key in store && at < store[key].expiresAt then Some(store[key].raw) else None
  }

  function Set(store: Store, key: Key, n: int, at: real, window: int): Store {
    store[key := Entry(Counter(n), at + window as real)]
  }

  function KeyOf(a: Attempt, kind: Kind, value: string, policy: Policy, now: real): Key
    requires policy.Valid()
  {
    Key(Slot(now, policy.window), a.operation, kind, value)
  }

  /** The buckets an attempt is charged to, in the order they are charged. */
  function Keys(a: Attempt, policy: Policy, now: real): seq<Key>
    requires policy.Valid()
  {
    (if a.clientKey.Some? then [KeyOf(a, Client, a.clientKey.value, policy, now)] else [])
    + (if a.subjectDigest.Some? then [KeyOf(a, Subject, a.subjectDigest.value, policy, now)] else [])
  }

  // ----------------------------------------------------- the never-expiring counters

  type Counters = map<Key, int>

  function Count(counters: Counters, key: Key): int {
    if key in counters then counters[key] else 0
  }

  function Longest(a: int, b: int): int {
    if a < b then b else a
  }

  /** Charge the first `n` buckets; the second component is the longest wait so far. */
  function Charge(counters: Counters, keys: seq<Key>, cost: int, policy: Policy, now: real, n: nat): (Counters, int)
    requires policy.Valid() && n <= |keys|
  {
    if n == 0 then (counters, 0) else
      var (before, retry) := Charge(counters, keys, cost, policy, now, n - 1);
      var used := Count(before, keys[n - 1]) + cost;
      (before[keys[n - 1] := used], if used <= policy.limit then retry else Longest(retry, RetryAfter(now, policy.window)))
  }

  function Verdict(retry: int): Decision {
    if retry == 0 then Allowed else Denied(retry)
  }

  /** One whole attempt against plain counters. */
  function Ideal(counters: Counters, policies: map<string, Policy>, a: Attempt, now: real): (Counters, Decision)
    requires a.operation in policies ==> policies[a.operation].Valid()
  {
    if a.operation !in policies then (counters, Allowed)
    else
      var policy := policies[a.operation];
      var keys := Keys(a, policy, now);
      var (after, retry) := Charge(counters, keys, a.cost, policy, now, |keys|);
      (after, Verdict(retry))
  }

  ghost predicate ValidPolicies(policies: map<string, Policy>) {
    forall o :: o in policies ==> policies[o].Valid()
  }

  /**
   The expiring store stands for the counters: every counted bucket is stored, with a
   deadline no earlier than the end of its slot, and with its count; or, if not `exact`,
   with a positive count that may have fallen behind.
   */
  ghost predicate Agrees(store: Store, counters: Counters, policies: map<string, Policy>, exact: bool) {
    && store.Keys == counters.Keys
    && forall k :: k in store ==>
         && k.operation in policies
         && SlotEnd(k.slot, policies[k.operation].window) <= store[k].expiresAt
         && store[k].raw.Counter? && 1 <= store[k].raw.n <= counters[k] && (exact ==> store[k].raw.n == counters[k])
  }

  /** A read meets an entry that has expired. */
  predicate Late(store: Store, k: Key, at: real) {
    k in store && store[k].expiresAt <= at
  }

  /** What a read adds its cost to: the stored count, or zero. */
  function Seen(store: Store, k: Key, at: real): int {
    match Get(store, k, at)
    case Some(Counter(n)) => n
    case _ => 0
  }

  /** A late read starts over from zero; any other sees what is stored; none sees too much. */
  lemma ReadAgrees(store: Store, counters: Counters, policies: map<string, Policy>, k: Key, at: real, exact: bool)
    requires Agrees(store, counters, policies, exact)
    ensures Get(store, k, at) != Some(Unreadable)
    ensures 0 <= Seen(store, k, at) <= Count(counters, k)
    ensures exact && !Late(store, k, at) ==> Seen(store, k, at) == Count(counters, k)
    ensures Late(store, k, at) ==> Seen(store, k, at) == 0 < Count(counters, k)
  {
  }

  /** Inside its slot no bucket is read late. */
  lemma PromptIsNotLate(store: Store, counters: Counters, policies: map<string, Policy>, k: Key, at: real, exact: bool)
    requires Agrees(store, counters, policies, exact) && k.operation in policies
    requires at < SlotEnd(k.slot, policies[k.operation].window)
    ensures !Late(store, k, at)
  {
  }

  /** A write at or after the attempt's clock reading keeps the agreement. */
  lemma WriteAgrees(store: Store, counters: Counters, policies: map<string, Policy>, k: Key, n: int, count: int, now: real,
                    at: real, exact: bool)
    requires Agrees(store, counters, policies, exact) && ValidPolicies(policies) && k.operation in policies
    requires k.slot == Slot(now, policies[k.operation].window) && now <= at
    requires 1 <= n <= count && (exact ==> n == count)
    ensures Agrees(Set(store, k, n, at, policies[k.operation].window), counters[k := count], policies, exact)
  {
    var window := policies[k.operation].window;
    SlotBounds(now, window);
    assert SlotEnd(k.slot, window) == (k.slot * window) as real + window as real;
  }

  /** The wait of an attempt's charges is none or the one wait its clock reading allows. */
  lemma {:induction false} ChargeWaits(counters: Counters, keys: seq<Key>, cost: int, policy: Policy, now: real, n: nat)
    requires policy.Valid() && n <= |keys|
    ensures Charge(counters, keys, cost, policy, now, n).1 in {0, RetryAfter(now, policy.window)}
  {
    if n > 0 {
      ChargeWaits(counters, keys, cost, policy, now, n - 1);
    }
  }

  // ------------------------------------------------------------------ bucket names

  const NUL := 0 as char

  function Tag(kind: Kind): string {
    if kind.Client? then "c" else "s"
  }

  /** The string whose hash names a bucket. */
  function BucketName(operation: string, kind: Kind, value: string): string {
    operation + [NUL] + Tag(kind) + [NUL] + value
  }

  /** `longer` continues `operation` the way a bucket name of it does. */
  predicate Shadows(operation: string, longer: string) {
    exists kind | kind in {Client, Subject} ::
      longer == operation + [NUL] + Tag(kind) || operation + [NUL] + Tag(kind) + [NUL] <= longer
  }

  /** Within one operation a bucket's name identifies it. */
  lemma BucketNamesDiffer(operation: string, kind: Kind, value: string, kind': Kind, value': string)
    ensures BucketName(operation, kind, value) == BucketName(operation, kind', value') <==> kind == kind' && value == value'
  {
    var n := |operation|;
    var a, b := BucketName(operation, kind, value), BucketName(operation, kind', value');
    assert a[n + 1] == Tag(kind)[0] && b[n + 1] == Tag(kind')[0];
    assert a[n + 3..] == value && b[n + 3..] == value';
  }

  lemma ShadowedNamesCollide(operation: string, longer: string) returns (kind: Kind, value: string, kind': Kind,
                             value': string)
    requires Shadows(operation, longer)
    ensures BucketName(operation, kind, value) == BucketName(longer, kind', value')
  {
    kind :| longer == operation + [NUL] + Tag(kind) || operation + [NUL] + Tag(kind) + [NUL] <= longer;
    kind', value' := Client, "";
    var n, name := |operation|, BucketName(longer, kind', value');
    value := name[n + 3..];
    assert name[..n + 3] == operation + [NUL] + Tag(kind) + [NUL];
    assert name == name[..n + 3] + name[n + 3..];
  }

  lemma CollidingNamesShadow(operation: string, kind: Kind, value: string, longer: string, kind': Kind, value': string)
    requires |operation| <= |longer| && operation != longer
    requires BucketName(operation, kind, value) == BucketName(longer, kind', value')
    ensures Shadows(operation, longer)
  {
    var n, m, name := |operation|, |longer|, BucketName(longer, kind', value');
    var head := operation + [NUL] + Tag(kind) + [NUL];
    assert BucketName(operation, kind, value) == head + value;
    assert name[..n + 3] == head;
    assert name[..m] == longer && name[m] == NUL;
    assert name[..n] == operation && name[n + 1] == Tag(kind)[0] != NUL;
    assert m == n ==> operation == longer;
    if m == n + 2 {
      assert longer == name[..n + 2] == operation + [NUL] + Tag(kind);
    } else {
      assert head <= longer by {
        assert longer[..n + 3] == name[..n + 3];
      }
    }
  }

  /**
   Buckets of two operations can share a name, and so a counter, exactly if one operation
   continues the other like a bucket name, which needs a NUL in it.
   */
  lemma BucketNamesCollideExactly(operation: string, other: string)
    requires operation != other
    ensures (exists kind, value, kind', value' :: BucketName(operation, kind, value) == BucketName(other, kind', value'))
            <==> Shadows(operation, other) || Shadows(other, operation)
    ensures Shadows(operation, other) ==> NUL in other
  {
    if kind, value, kind', value' :| BucketName(operation, kind, value) == BucketName(other, kind', value') {
      if |operation| <= |other| {
        CollidingNamesShadow(operation, kind, value, other, kind', value');
      } else {
        CollidingNamesShadow(other, kind', value', operation, kind, value);
      }
    }
    if Shadows(operation, other) {
      var kind, value, kind', value' := ShadowedNamesCollide(operation, other);
      assert other[|operation|] == NUL;
    }
    if Shadows(other, operation) {
      var kind, value, kind', value' := ShadowedNamesCollide(other, operation);
      assert BucketName(operation, kind', value') == BucketName(other, kind, value);
    }
  }
}
