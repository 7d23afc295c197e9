/**
 The writes of one expiring store in the order they happen, and how much they can let
 through: what holds of every run, reads of expired entries included.
 */
module RateLimitWrites {
  import opened Prelude
  import opened RateLimitSpec
  import opened RateLimitHistory

  /** One write: the attempt's clock reading and cost, the count written, and when. */
  datatype Write = Write(key: Key, now: real, cost: int, used: int, put: real)

  predicate Names(key: Key, b: Bucket) {
    key.operation == b.operation && key.kind == b.kind && key.value == b.value
  }

  predicate SameBucket(a: Key, b: Key) {
    a.operation == b.operation && a.kind == b.kind && a.value == b.value
  }

  /** The latest write of a key. */
  function LastOn(log: seq<Write>, key: Key): Option<Write> {
    if log == [] then None
    else if log[|log| - 1].key == key then Some(log[|log| - 1])
    else LastOn(log[..|log| - 1], key)
  }

  /** The write adds its cost to the previous count, or starts over once the previous entry has expired. */
  ghost predicate Counts(before: seq<Write>, w: Write, window: int) {
    match LastOn(before, w.key)
    case None => w.used == w.cost
    case Some(prev) => w.used == prev.used + w.cost || (w.used == w.cost && prev.put + window as real <= w.put)
  }

  /** The write can come next: its clock reading is not before the bucket's earlier writes. */
  ghost predicate Continues(policies: map<string, Policy>, before: seq<Write>, w: Write) {
    && w.key.operation in policies && policies[w.key.operation].Valid()
    && w.key.slot == Slot(w.now, policies[w.key.operation].window) && w.cost >= 1 && w.now <= w.put
    && (forall v :: v in before && SameBucket(v.key, w.key) ==> v.put <= w.now)
    && Counts(before, w, policies[w.key.operation].window)
  }

  ghost predicate Coherent(policies: map<string, Policy>, log: seq<Write>) {
    log == [] ||
    (Coherent(policies, log[..|log| - 1]) && Continues(policies, log[..|log| - 1], log[|log| - 1]))
  }

  predicate Passing(w: Write, b: Bucket, limit: int, lo: real, hi: real) {
    Names(w.key, b) && lo <= w.now < hi && w.used <= limit
  }

  /** Cost of the bucket's writes within the limit whose attempts read the clock in [lo, hi). */
  function Spent(log: seq<Write>, b: Bucket, limit: int, lo: real, hi: real): int {
    if log == [] then 0
    else Spent(log[..|log| - 1], b, limit, lo, hi)
         + if Passing(log[|log| - 1], b, limit, lo, hi) then log[|log| - 1].cost else 0
  }

  /** The same for one slot. */
  function SpentInSlot(log: seq<Write>, b: Bucket, limit: int, slot: int, lo: real, hi: real): int {
    if log == [] then 0
    else SpentInSlot(log[..|log| - 1], b, limit, slot, lo, hi)
         + if Passing(log[|log| - 1], b, limit, lo, hi) && log[|log| - 1].key.slot == slot then log[|log| - 1].cost else 0
  }

  function KeyIn(b: Bucket, slot: int): Key {
    Key(slot, b.operation, b.kind, b.value)
  }

  /** The count stored for the bucket in the slot. */
  function Stored(log: seq<Write>, b: Bucket, slot: int): int {
    if LastOn(log, KeyIn(b, slot)).Some? then LastOn(log, KeyIn(b, slot)).value.used else 0
  }

  /** The bucket has been written at or after `t`. */
  ghost predicate WrittenSince(log: seq<Write>, b: Bucket, t: real) {
    exists w :: w in log && Names(w.key, b) && t <= w.put
  }

  lemma {:induction false} LastIsLogged(log: seq<Write>, key: Key)
    requires LastOn(log, key).Some?
    ensures LastOn(log, key).value in log && LastOn(log, key).value.key == key
  {
    if log[|log| - 1].key != key {
      LastIsLogged(log[..|log| - 1], key);
    }
  }

  /** The latest write of a slot has the latest clock reading of all writes there. */
  lemma {:induction false} LastIsLatest(policies: map<string, Policy>, log: seq<Write>, key: Key, w: Write)
    requires Coherent(policies, log) && w in log && w.key == key
    ensures LastOn(log, key).Some? && w.now <= LastOn(log, key).value.now
  {
    var before, last := log[..|log| - 1], log[|log| - 1];
    assert log == before + [last];
    if last.key == key {
      if w in before {
        WritesFollowReadings(policies, before, w);
      }
    } else {
      LastIsLatest(policies, before, key, w);
    }
  }

  lemma {:induction false} WritesFollowReadings(policies: map<string, Policy>, log: seq<Write>, w: Write)
    requires Coherent(policies, log) && w in log
    ensures w.now <= w.put && w.key.operation in policies && policies[w.key.operation].Valid()
    ensures w.key.slot == Slot(w.now, policies[w.key.operation].window)
  {
    var before, last := log[..|log| - 1], log[|log| - 1];
    assert log == before + [last];
    if w != last {
      WritesFollowReadings(policies, before, w);
    }
  }

  // --------------------------------------------------------------------- one slot

  /**
   What one slot has let through: at most the limit and at most the stored count, until a
   write starts over; then at most twice the limit, and the slot is over.
   */
  ghost predicate SlotOk(log: seq<Write>, b: Bucket, policy: Policy, slot: int, lo: real, hi: real) {
    var spent := SpentInSlot(log, b, policy.limit, slot, lo, hi);
    || (spent <= policy.limit && spent <= Stored(log, b, slot))
    || (spent <= 2 * policy.limit && WrittenSince(log, b, SlotEnd(slot, policy.window)))
  }

  lemma SinceGrows(log: seq<Write>, w: Write, b: Bucket, t: real)
    ensures WrittenSince(log + [w], b, t) <==> WrittenSince(log, b, t) || (Names(w.key, b) && t <= w.put)
  {
    if WrittenSince(log, b, t) {
      var v :| v in log && Names(v.key, b) && t <= v.put;
      assert v in log + [w];
    }
    assert w in log + [w];
  }

  /** A write starts over only after the bucket's slot, and only behind an entry of that slot. */
  lemma RestartEndsSlot(policies: map<string, Policy>, before: seq<Write>, w: Write)
    requires Coherent(policies, before) && Continues(policies, before, w)
    requires LastOn(before, w.key).Some? && w.used != LastOn(before, w.key).value.used + w.cost
    ensures var window := policies[w.key.operation].window;
            var prev := LastOn(before, w.key).value;
            w.used == w.cost && prev.now + window as real <= w.put && SlotEnd(w.key.slot, window) <= w.put
  {
    var prev := LastOn(before, w.key).value;
    LastIsLogged(before, w.key);
    WritesFollowReadings(policies, before, prev);
    var window := policies[w.key.operation].window;
    SlotBounds(prev.now, window);
    assert SlotEnd(w.key.slot, window) == (w.key.slot * window) as real + window as real;
  }

  /** No write of a slot follows one made after the slot's end. */
  lemma SlotStillOpen(policies: map<string, Policy>, before: seq<Write>, w: Write, b: Bucket)
    requires Continues(policies, before, w) && Names(w.key, b)
    ensures !WrittenSince(before, b, SlotEnd(w.key.slot, policies[b.operation].window))
  {
    SlotBounds(w.now, policies[b.operation].window);
  }

  lemma LastUnfold(log: seq<Write>, w: Write, key: Key)
    ensures LastOn(log + [w], key) == if w.key == key then Some(w) else LastOn(log, key)
  {
    SnocSplit(log, w);
  }

  lemma SlotKept(policies: map<string, Policy>, before: seq<Write>, w: Write, b: Bucket, slot: int, lo: real, hi: real)
    requires b.operation in policies && Coherent(policies, before) && Continues(policies, before, w)
    requires SlotOk(before, b, policies[b.operation], slot, lo, hi)
    ensures SlotOk(before + [w], b, policies[b.operation], slot, lo, hi)
  {
    var policy := policies[b.operation];
    SnocSplit(before, w);
    LastUnfold(before, w, KeyIn(b, slot));
    SinceGrows(before, w, b, SlotEnd(slot, policy.window));
    if w.key == KeyIn(b, slot) {
      SlotStillOpen(policies, before, w, b);
      if LastOn(before, w.key).Some? && w.used != LastOn(before, w.key).value.used + w.cost {
        RestartEndsSlot(policies, before, w);
      }
    }
  }

  lemma {:induction false} SlotAlways(policies: map<string, Policy>, log: seq<Write>, b: Bucket, slot: int, lo: real, hi: real)
    requires b.operation in policies && policies[b.operation].Valid() && Coherent(policies, log)
    ensures SlotOk(log, b, policies[b.operation], slot, lo, hi)
  {
    if log != [] {
      var before, w := log[..|log| - 1], log[|log| - 1];
      SlotAlways(policies, before, b, slot, lo, hi);
      SlotKept(policies, before, w, b, slot, lo, hi);
      assert before + [w] == log;
    }
  }

  // ------------------------------------------------------------- any sliding window

  /**
   What a window lets through in the slot it starts in: at most the limit; or at most twice
   the limit, and then nothing in the next slot, because the window is over.
   */
  ghost predicate StartOk(log: seq<Write>, b: Bucket, policy: Policy, lo: real)
    requires policy.Valid()
  {
    var hi, slot := lo + policy.window as real, Slot(lo, policy.window);
    var first, second := SpentInSlot(log, b, policy.limit, slot, lo, hi), SpentInSlot(log, b, policy.limit, slot + 1, lo, hi);
    || first <= policy.limit
    || (first <= 2 * policy.limit && second == 0 && WrittenSince(log, b, hi))
  }

  /** Nothing is spent in a slot later than that of the bucket's next write, or before the window. */
  lemma {:induction false} NothingSpent(policies: map<string, Policy>, log: seq<Write>, b: Bucket, limit: int, slot: int,
                                        lo: real, hi: real)
    requires Coherent(policies, log)
    requires forall v :: v in log && Names(v.key, b) ==> v.key.slot != slot || v.now < lo
    ensures SpentInSlot(log, b, limit, slot, lo, hi) == 0
  {
    if log != [] {
      var before, last := log[..|log| - 1], log[|log| - 1];
      assert log == before + [last];
      NothingSpent(policies, before, b, limit, slot, lo, hi);
    }
  }

  lemma EarlierSlots(policies: map<string, Policy>, before: seq<Write>, w: Write, b: Bucket)
    requires b.operation in policies && Coherent(policies, before) && Continues(policies, before, w) && Names(w.key, b)
    ensures forall v :: v in before && Names(v.key, b) ==> v.key.slot <= w.key.slot && v.now <= w.now
  {
    forall v | v in before && Names(v.key, b) ensures v.key.slot <= w.key.slot && v.now <= w.now {
      WritesFollowReadings(policies, before, v);
      var window := policies[b.operation].window;
      SlotBounds(v.now, window);
      SlotBounds(w.now, window);
      SlotsOrdered(w.key.slot, v.key.slot, window);
    }
  }

  /** The write that starts over inside the window. */
  lemma RestartInWindow(policies: map<string, Policy>, before: seq<Write>, w: Write, b: Bucket, lo: real)
    requires b.operation in policies && policies[b.operation].Valid()
    requires Coherent(policies, before) && Continues(policies, before, w) && w.key == KeyIn(b, Slot(lo, policies[b.operation].window))
    requires LastOn(before, w.key).Some? && w.used != LastOn(before, w.key).value.used + w.cost && lo <= w.now
    ensures StartOk(before + [w], b, policies[b.operation], lo)
  {
    var policy := policies[b.operation];
    var hi, slot := lo + policy.window as real, w.key.slot;
    var prev := LastOn(before, w.key).value;
    SnocSplit(before, w);
    EarlierSlots(policies, before, w, b);
    NothingSpent(policies, before, b, policy.limit, slot + 1, lo, hi);
    RestartEndsSlot(policies, before, w);
    SinceGrows(before, w, b, hi);
    SlotAlways(policies, before, b, slot, lo, hi);
    SlotStillOpen(policies, before, w, b);
    if prev.now < lo {
      forall v | v in before && Names(v.key, b) ensures v.key.slot != slot || v.now < lo {
        if v.key.slot == slot {
          LastIsLatest(policies, before, w.key, v);
        }
      }
      NothingSpent(policies, before, b, policy.limit, slot, lo, hi);
    }
  }

  lemma StartKept(policies: map<string, Policy>, before: seq<Write>, w: Write, b: Bucket, lo: real)
    requires b.operation in policies && policies[b.operation].Valid()
    requires Coherent(policies, before) && Continues(policies, before, w) && Coherent(policies, before + [w])
    requires StartOk(before, b, policies[b.operation], lo)
    ensures StartOk(before + [w], b, policies[b.operation], lo)
  {
    var policy := policies[b.operation];
    var hi, slot := lo + policy.window as real, Slot(lo, policy.window);
    SnocSplit(before, w);
    SinceGrows(before, w, b, hi);
    if Names(w.key, b) && lo <= w.now < hi {
      assert !WrittenSince(before, b, hi);
      if w.key.slot == slot {
        assert w.key == KeyIn(b, slot);
        if LastOn(before, w.key).Some? && w.used != LastOn(before, w.key).value.used + w.cost {
          RestartInWindow(policies, before, w, b, lo);
        } else {
          SlotAlways(policies, before, b, slot, lo, hi);
          SlotStillOpen(policies, before, w, b);
        }
      }
    }
  }

  lemma {:induction false} StartAlways(policies: map<string, Policy>, log: seq<Write>, b: Bucket, lo: real)
    requires b.operation in policies && policies[b.operation].Valid() && Coherent(policies, log)
    ensures StartOk(log, b, policies[b.operation], lo)
  {
    if log != [] {
      var before, w := log[..|log| - 1], log[|log| - 1];
      StartAlways(policies, before, b, lo);
      assert before + [w] == log;
      StartKept(policies, before, w, b, lo);
    }
  }

  lemma {:induction false} SpentInTwoSlots(policies: map<string, Policy>, log: seq<Write>, b: Bucket, lo: real)
    requires b.operation in policies && policies[b.operation].Valid() && Coherent(policies, log)
    ensures var policy := policies[b.operation];
            var hi, slot := lo + policy.window as real, Slot(lo, policy.window);
            Spent(log, b, policy.limit, lo, hi)
            == SpentInSlot(log, b, policy.limit, slot, lo, hi) + SpentInSlot(log, b, policy.limit, slot + 1, lo, hi)
  {
    if log != [] {
      var before, w := log[..|log| - 1], log[|log| - 1];
      SpentInTwoSlots(policies, before, b, lo);
      WithinTwoSlots(lo, w.now, policies[b.operation].window);
    }
  }

  /** Whatever the reads met: any half-open window lets through at most three times the limit. */
  lemma SpentAtMostThrice(policies: map<string, Policy>, log: seq<Write>, b: Bucket, lo: real)
    requires b.operation in policies && policies[b.operation].Valid() && Coherent(policies, log)
    ensures var policy := policies[b.operation];
            Spent(log, b, policy.limit, lo, lo + policy.window as real) <= 3 * policy.limit
  {
    var policy := policies[b.operation];
    SpentInTwoSlots(policies, log, b, lo);
    StartAlways(policies, log, b, lo);
    SlotAlways(policies, log, b, Slot(lo, policy.window) + 1, lo, lo + policy.window as real);
  }
}
