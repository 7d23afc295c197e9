/**
 The bounded LRU of prepared verifiers, proved against the trace of accesses made to it.
 An ordered dictionary is a map together with the order of its keys, oldest first.
 */
module VerifierCache {
  import opened Prelude

  type Route = (string, string)

  datatype Access = Access(route: Route, material: Bytes)

  // ------------------------------------------------------------- what a trace implies

  function Drop(order: seq<Route>, r: Route): seq<Route> {
    if order == [] then []
    else if order[0] == r then Drop(order[1..], r)
    else [order[0]] + Drop(order[1..], r)
  }

  /** The distinct routes of the trace by their latest access, oldest first. */
  function Recency(trace: seq<Access>): seq<Route> {
    if trace == [] then []
    else Drop(Recency(trace[..|trace| - 1]), trace[|trace| - 1].route) + [trace[|trace| - 1].route]
  }

  function Newest(order: seq<Route>, maximum: nat): seq<Route> {
    if |order| <= maximum then order else order[|order| - maximum..]
  }

  /** Index of the latest access to the route, -1 if there is none. */
  function LastUse(trace: seq<Access>, r: Route): (k: int)
    ensures -1 <= k < |trace| && (k >= 0 ==> trace[k].route == r)
  {
    if trace == [] then -1
    else if trace[|trace| - 1].route == r then |trace| - 1
    else LastUse(trace[..|trace| - 1], r)
  }

  lemma {:induction false} DropKeeps(order: seq<Route>, r: Route)
    ensures forall x :: x in Drop(order, r) <==> x in order && x != r
    ensures Distinct(order) ==> Distinct(Drop(order, r))
    ensures r !in order ==> Drop(order, r) == order
  {
    if order != [] {
      DropKeeps(order[1..], r);
      assert order == [order[0]] + order[1..];
      if Distinct(order) {
        assert Distinct(order[1..]) by {
          assert forall i :: 0 <= i < |order[1..]| ==> order[1..][i] == order[i + 1];
        }
        assert order[0] !in order[1..];
        if order[0] != r {
          var rest := Drop(order[1..], r);
          assert order[0] !in rest;
          assert forall i :: 0 < i < |[order[0]] + rest| ==> ([order[0]] + rest)[i] == rest[i - 1];
        }
      }
    }
  }

  lemma DropAbsent(order: seq<Route>, r: Route)
    requires r !in order
    ensures Drop(order, r) == order
  {
    DropKeeps(order, r);
  }

  /** Dropping a key of a list without repetition removes one element at one place. */
  lemma {:induction false} DropAt(order: seq<Route>, k: nat)
    requires Distinct(order) && k < |order|
    ensures Drop(order, order[k]) == order[..k] + order[k + 1..]
  {
    var tail := order[1..];
    assert forall i :: 0 <= i < |tail| ==> tail[i] == order[i + 1];
    if k == 0 {
      DropKeeps(tail, order[0]);
    } else {
      DropAt(tail, k - 1);
      assert order[0] != order[k];
      assert order[..k] == [order[0]] + tail[..k - 1] && tail[k..] == order[k + 1..];
    }
  }

  lemma {:induction false} RecencyDistinct(trace: seq<Access>)
    ensures Distinct(Recency(trace))
    ensures forall r :: r in Recency(trace) <==> LastUse(trace, r) >= 0
  {
    if trace != [] {
      var before, last := trace[..|trace| - 1], trace[|trace| - 1];
      RecencyDistinct(before);
      DropKeeps(Recency(before), last.route);
      var rest := Drop(Recency(before), last.route);
      assert forall i :: 0 <= i < |rest| ==> (rest + [last.route])[i] == rest[i] && rest[i] in rest;
    }
  }

  /** Every key was last used before all later ones. */
  ghost predicate Ascending(trace: seq<Access>, order: seq<Route>) {
    order == [] ||
    ((forall x :: x in order[1..] ==> LastUse(trace, order[0]) < LastUse(trace, x)) && Ascending(trace, order[1..]))
  }

  lemma {:induction false} DropAscending(trace: seq<Access>, order: seq<Route>, r: Route)
    requires Ascending(trace, order)
    ensures Ascending(trace, Drop(order, r))
  {
    if order != [] {
      DropAscending(trace, order[1..], r);
      DropKeeps(order[1..], r);
      if order[0] != r {
        assert ([order[0]] + Drop(order[1..], r))[1..] == Drop(order[1..], r);
      }
    }
  }

  lemma {:induction false} AppendAscending(trace: seq<Access>, later: seq<Access>, order: seq<Route>, r: Route)
    requires Ascending(trace, order)
    requires forall x :: x in order ==> LastUse(later, x) == LastUse(trace, x) < LastUse(later, r)
    ensures Ascending(later, order + [r])
  {
    if order == [] {
      assert ([] + [r])[1..] == [];
    } else {
      assert order == [order[0]] + order[1..];
      AppendAscending(trace, later, order[1..], r);
      assert (order + [r])[1..] == order[1..] + [r];
      assert order[0] in order;
    }
  }

  /** `Recency` lists exactly the accessed routes, once each, by their latest use. */
  lemma {:induction false} RecencyIsByLastUse(trace: seq<Access>)
    ensures Ascending(trace, Recency(trace)) && Distinct(Recency(trace))
    ensures forall r :: r in Recency(trace) <==> LastUse(trace, r) >= 0
  {
    RecencyDistinct(trace);
    if trace != [] {
      var before, last := trace[..|trace| - 1], trace[|trace| - 1];
      RecencyIsByLastUse(before);
      DropAscending(before, Recency(before), last.route);
      DropKeeps(Recency(before), last.route);
      AppendAscending(before, trace, Drop(Recency(before), last.route), last.route);
    }
  }

  // -------------------------------------------------------- one access, seen on lists

  /** What an access does to the cache's key order: to the end, then evict from the front. */
  function Touch(order: seq<Route>, r: Route, maximum: nat): seq<Route> {
    Newest(Drop(order, r) + [r], maximum)
  }

  /** The newest keys are those of the tail alone, and stay so when a key is added. */
  lemma NewestOfTail(x: seq<Route>, y: seq<Route>, r: Route, maximum: nat)
    requires |y| + 1 >= maximum
    ensures Newest(x + y + [r], maximum) == Newest(y + [r], maximum)
  {
    assert (x + y + [r])[|x| + |y| + 1 - maximum..] == (y + [r])[|y| + 1 - maximum..];
    assert x == [] ==> x + y + [r] == y + [r];
    assert |y| + 1 == maximum ==> (y + [r])[0..] == y + [r];
  }

  lemma {:induction false} BeforeCut(order: seq<Route>, k: nat, cut: nat)
    requires k < |order| && cut <= |order| && order[k] !in order[cut..]
    ensures k < cut
  {
    assert forall i :: cut <= i < |order| ==> order[cut..][i - cut] == order[i];
  }

  lemma {:induction false} DropParts(before: seq<Route>, r: Route, after: seq<Route>)
    requires r !in before && r !in after
    ensures Drop(before + [r] + after, r) == before + after
  {
    var order := before + [r] + after;
    if before == [] {
      assert order[1..] == after;
      DropAbsent(after, r);
    } else {
      assert before == [before[0]] + before[1..];
      assert order[1..] == before[1..] + [r] + after;
      DropParts(before[1..], r, after);
    }
  }

  lemma Apart(order: seq<Route>, k: nat, cut: nat)
    requires Distinct(order) && cut <= k < |order|
    ensures order[k] !in order[cut..k] && order[k] !in order[k + 1..]
    ensures order[cut..] == order[cut..k] + [order[k]] + order[k + 1..]
  {
  }

  /** Dropping a kept key from the kept part and from the whole. */
  lemma KeptDrop(order: seq<Route>, k: nat, cut: nat)
    requires Distinct(order) && cut <= k < |order|
    ensures Drop(order[cut..], order[k]) == order[cut..k] + order[k + 1..]
    ensures Drop(order, order[k]) == order[..cut] + (order[cut..k] + order[k + 1..])
  {
    Apart(order, k, cut);
    DropParts(order[cut..k], order[k], order[k + 1..]);
    DropAt(order, k);
    Regrouped(order, k, cut);
  }

  lemma Regrouped(order: seq<Route>, k: nat, cut: nat)
    requires cut <= k < |order|
    ensures order[..k] + order[k + 1..] == order[..cut] + (order[cut..k] + order[k + 1..])
  {
  }

  /** The touched key is among the kept ones. */
  lemma {:induction false} TouchKept(order: seq<Route>, k: nat, cut: nat)
    requires Distinct(order) && cut <= k < |order|
    ensures Newest(Drop(order[cut..], order[k]) + [order[k]], |order| - cut)
            == Newest(Drop(order, order[k]) + [order[k]], |order| - cut)
  {
    KeptDrop(order, k, cut);
    NewestOfTail(order[..cut], order[cut..k] + order[k + 1..], order[k], |order| - cut);
  }

  lemma SplitAt(order: seq<Route>, a: nat, b: nat)
    requires a <= b <= |order|
    ensures order[a..] == order[a..b] + order[b..]
  {
  }

  /** Dropping a key from the evicted part leaves the kept part as the tail. */
  lemma {:induction false} EvictedDrop(order: seq<Route>, r: Route, cut: nat) returns (older: seq<Route>)
    requires Distinct(order) && cut <= |order| && r !in order[cut..]
    ensures Drop(order, r) == older + order[cut..]
  {
    if r in order {
      var k :| 0 <= k < |order| && order[k] == r;
      BeforeCut(order, k, cut);
      DropAt(order, k);
      older := order[..k] + order[k + 1..cut];
      SplitAt(order, k + 1, cut);
      Associates(order[..k], order[k + 1..cut], order[cut..]);
    } else {
      DropAbsent(order, r);
      older := order[..cut];
      assert order == order[..cut] + order[cut..];
    }
  }

  /** The touched key was evicted earlier, or never held. */
  lemma {:induction false} TouchEvicted(order: seq<Route>, r: Route, cut: nat)
    requires Distinct(order) && cut <= |order| && r !in order[cut..]
    ensures Newest(Drop(order[cut..], r) + [r], |order| - cut) == Newest(Drop(order, r) + [r], |order| - cut)
  {
    DropAbsent(order[cut..], r);
    var older := EvictedDrop(order, r, cut);
    NewestOfTail(older, order[cut..], r, |order| - cut);
  }

  lemma InSuffix(order: seq<Route>, r: Route, cut: nat) returns (k: nat)
    requires cut <= |order| && r in order[cut..]
    ensures cut <= k < |order| && order[k] == r
  {
    var j :| 0 <= j < |order| - cut && order[cut..][j] == r;
    k := cut + j;
  }

  lemma TouchSuffix(order: seq<Route>, r: Route, cut: nat)
    requires Distinct(order) && cut <= |order|
    ensures Newest(Drop(order[cut..], r) + [r], |order| - cut) == Newest(Drop(order, r) + [r], |order| - cut)
  {
    if r in order[cut..] {
      var k := InSuffix(order, r, cut);
      TouchKept(order, k, cut);
    } else {
      TouchEvicted(order, r, cut);
    }
  }

  /** Keeping only the newest `maximum` keys commutes with touching a key. */
  lemma {:induction false} TouchNewest(order: seq<Route>, r: Route, maximum: nat)
    requires Distinct(order)
    ensures Touch(Newest(order, maximum), r, maximum) == Newest(Drop(order, r) + [r], maximum)
  {
    if |order| > maximum {
      TouchSuffix(order, r, |order| - maximum);
    }
  }

  lemma {:induction false} NewestMembers(order: seq<Route>, maximum: nat)
    requires Distinct(order)
    ensures Distinct(Newest(order, maximum)) && |Newest(order, maximum)| <= maximum
    ensures forall r :: r in Newest(order, maximum) ==> r in order
  {
  }

  // ------------------------------------------------------------------------- the cache

  class DynamicVerifierCache<V(==)> {
    const maximum: nat
    ghost const prepare: (Route, Bytes) -> V
    var order: seq<Route>
    var entries: map<Route, (Bytes, V)>
    ghost var trace: seq<Access>

    /**
     The cache holds exactly the last `maximum` distinct routes in recency order, each with
     the material of its latest access and the verifier prepared for it.
     */
    ghost predicate Valid()
      reads this
    {
      order == Newest(Recency(trace), maximum) && Prepared(trace, order, entries, prepare)
    }

    /** A call hits when its route is held with the same material. */
    predicate Hit(route: Route, material: Bytes)
      reads this
    {
      route in entries && entries[route].0 == material
    }

    constructor (maximum: nat, ghost prepare: (Route, Bytes) -> V)
      ensures Valid() && trace == [] && this.maximum == maximum && this.prepare == prepare
    {
      this.maximum := maximum;
      this.prepare := prepare;
      order, entries, trace := [], map[], [];
    }

    method GetOrCreate(route: Route, material: Bytes, factory: () -> V) returns (verifier: V, made: bool)
      requires Valid() && factory() == prepare(route, material)
      modifies this
      ensures Valid() && trace == old(trace) + [Access(route, material)]
      ensures verifier == prepare(route, material)
      ensures made == !old(Hit(route, material))
      ensures order == Touch(old(order), route, maximum)
    {
      ghost var access := Access(route, material);
      RecencyAfter(trace, access, maximum);
      PreparedAfter(trace, access, order, entries, prepare, prepare(route, material));
      if route in entries && entries[route].0 == material {
        HitFits(order, route);
        HitUnchanged(trace, order, entries, prepare, access);
        order := Drop(order, route) + [route];
        trace := trace + [access];
        return entries[route].1, false;
      }
      verifier, made := factory(), true;
      FullDistinct(order, route);
      order := Drop(order, route) + [route];
      entries := entries[route := (material, verifier)];
      trace := trace + [access];
      Evict();
    }

    /** Pop the oldest keys until at most `maximum` are left. */
    method Evict()
      requires Prepared(trace, order, entries, prepare) && Distinct(order)
      modifies this`order, this`entries
      ensures order == Newest(old(order), maximum) && Prepared(trace, order, entries, prepare)
    {
      ghost var dropped := 0;
      while |order| > maximum
        invariant 0 <= dropped <= |old(order)| && order == old(order)[dropped..]
        invariant dropped == 0 || |order| >= maximum
        invariant Distinct(order) && Prepared(trace, order, entries, prepare)
        decreases |order|
      {
        PreparedPop(trace, order, entries, prepare);
        entries := entries - {order[0]};
        order := order[1..];
        dropped := dropped + 1;
      }
    }
  }

  /** Each held route has the material of its latest access and the verifier prepared for it. */
  ghost predicate Prepared<V>(trace: seq<Access>, order: seq<Route>, entries: map<Route, (Bytes, V)>,
                              prepare: (Route, Bytes) -> V) {
    && (forall r :: r in entries <==> r in order)
    && (forall r :: r in entries ==>
          && LastUse(trace, r) >= 0
          && entries[r] == (trace[LastUse(trace, r)].material, prepare(r, trace[LastUse(trace, r)].material)))
  }

  lemma {:induction false} PreparedAfter<V>(trace: seq<Access>, access: Access, order: seq<Route>,
                                            entries: map<Route, (Bytes, V)>,
                                            prepare: (Route, Bytes) -> V, verifier: V)
    requires Prepared(trace, order, entries, prepare) && verifier == prepare(access.route, access.material)
    ensures Prepared(trace + [access], Drop(order, access.route) + [access.route],
                     entries[access.route := (access.material, verifier)], prepare)
  {
    SnocSplit(trace, access);
    DropKeeps(order, access.route);
    forall r ensures LastUse(trace + [access], r) == if r == access.route then |trace| else LastUse(trace, r) {}
  }

  /** On a hit the entry is already the one a miss would write. */
  lemma HitUnchanged<V>(trace: seq<Access>, order: seq<Route>, entries: map<Route, (Bytes, V)>, prepare: (Route,
                        Bytes) -> V, access: Access)
    requires Prepared(trace, order, entries, prepare)
    requires access.route in entries && entries[access.route].0 == access.material
    ensures entries[access.route := (access.material, prepare(access.route, access.material))] == entries
    ensures entries[access.route].1 == prepare(access.route, access.material)
  {
  }

  lemma {:induction false} PreparedPop<V>(trace: seq<Access>, order: seq<Route>, entries: map<Route, (Bytes, V)>,
                                          prepare: (Route, Bytes) -> V)
    requires order != [] && Distinct(order) && Prepared(trace, order, entries, prepare)
    ensures Distinct(order[1..]) && Prepared(trace, order[1..], entries - {order[0]}, prepare)
  {
    assert order == [order[0]] + order[1..];
    assert forall i :: 0 <= i < |order[1..]| ==> order[1..][i] == order[i + 1];
  }

  lemma {:induction false} RecencyAfter(trace: seq<Access>, access: Access, maximum: nat)
    ensures Newest(Recency(trace + [access]), maximum) == Touch(Newest(Recency(trace), maximum), access.route, maximum)
    ensures Distinct(Newest(Recency(trace), maximum)) && |Newest(Recency(trace), maximum)| <= maximum
  {
    SnocSplit(trace, access);
    RecencyDistinct(trace);
    TouchNewest(Recency(trace), access.route, maximum);
    NewestMembers(Recency(trace), maximum);
  }

  lemma {:induction false} HitFits(order: seq<Route>, r: Route)
    requires Distinct(order) && r in order
    ensures |Drop(order, r) + [r]| == |order|
  {
    var k :| 0 <= k < |order| && order[k] == r;
    DropAt(order, k);
  }

  lemma {:induction false} FullDistinct(order: seq<Route>, r: Route)
    requires Distinct(order)
    ensures Distinct(Drop(order, r) + [r])
  {
    DropKeeps(order, r);
    var rest := Drop(order, r);
    assert forall i :: 0 <= i < |rest| ==> (rest + [r])[i] == rest[i] && rest[i] in rest;
  }
}
