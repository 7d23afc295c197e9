/**
 Runs of the machine that show the bounds on what it lets through are met, and that reads
 of expired entries happen.
 */
module RateLimitRuns {
  import opened Prelude
  import opened RateLimitSpec
  import opened RateLimitHistory
  import opened RateLimitWrites
  import opened RateLimitMachine
  import opened RateLimitVerdicts

  const LIMITS: map<string, Policy> := map["login" := Policy(1, 60)]

  function Login(client: string): Attempt {
    Attempt("login", Some(client), None, 1)
  }

  function LoginKey(client: string, slot: int): Key {
    Key(slot, "login", Client, client)
  }

  /** A turn nothing interleaves with: the clock is read at `now`, the store at `at`. */
  function Turn(p: nat, now: real, at: real): seq<Act> {
    [Tick(now), Try(p), Tick(at), Fetch(p), Put(p), Release(p)]
  }

  /** The machines a run passes through. */
  predicate Passes(ms: seq<Machine>, acts: seq<Act>) {
    |ms| == |acts| + 1 && forall i :: 0 <= i < |acts| ==> ms[i + 1] == Next(LIMITS, ms[i], acts[i])
  }

  lemma {:induction false} Unroll(ms: seq<Machine>, acts: seq<Act>, rest: seq<Act>)
    requires Passes(ms, acts)
    ensures Exec(LIMITS, ms[0], acts + rest) == Exec(LIMITS, ms[|acts|], rest)
    ensures TimelyRun(LIMITS, ms[0], acts + rest)
            <==> (forall i :: 0 <= i < |acts| ==> Timely(LIMITS, ms[i], acts[i])) && TimelyRun(LIMITS, ms[|acts|], rest)
  {
    if acts == [] {
      assert acts + rest == rest;
    } else {
      Unroll(ms[1..], acts[1..], rest);
      assert (acts + rest)[1..] == acts[1..] + rest;
      assert forall i :: 1 <= i < |acts| ==> ms[1..][i - 1] == ms[i] && acts[1..][i - 1] == acts[i];
    }
  }

  lemma LoginKeys(client: string, now: real)
    ensures Limited(LIMITS, Login(client)) && KeysOf(LIMITS, Login(client), now) == [LoginKey(client, Slot(now, 60))]
  {
  }

  /** The read and the write of a turn. */
  lemma ChargeSteps(m: Machine, client: string, p: nat, now: real)
    requires p < |m.procs| && m.procs[p] == Proc(Login(client), Reading(now, 0, 0)) && m.holder == Some(p)
    requires Get(m.store, LoginKey(client, Slot(now, 60)), m.clock) != Some(Unreadable)
    ensures var key := LoginKey(client, Slot(now, 60));
            var used := Seen(m.store, key, m.clock) + 1;
            var m1 := Next(LIMITS, m, Fetch(p));
            && m1 == Become(m, p, Writing(now, 0, 0, used))
            && (Timely(LIMITS, m, Fetch(p)) <==> !Late(m.store, key, m.clock))
            && Next(LIMITS, m1, Put(p))
               == Become(m, p, Reading(now, 1, if used <= 1 then 0 else Longest(0, RetryAfter(now, 60))))
                    .(store := Set(m.store, key, used, m.clock, 60), writes := m.writes + [Write(key, now, 1, used, m.clock)])
  {
    LoginKeys(client, now);
  }

  /** The first `p` coroutines have had their turns, the others wait to log in. */
  predicate AtRest(m: Machine, client: string, p: nat) {
    && m.holder.None? && |m.served| == |m.servedBy| && p <= |m.procs|
    && (forall i :: 0 <= i < |m.servedBy| ==> m.servedBy[i] < p)
    && (forall q :: p <= q < |m.procs| ==> m.procs[q] == Proc(Login(client), Waiting))
  }

  /** The coroutine's turn is over: what it wrote and what it was told. */
  predicate TurnOver(m: Machine, m': Machine, client: string, p: nat, now: real) {
    var key := LoginKey(client, Slot(now, 60));
    var used := Seen(m.store, key, m'.clock) + 1;
    && p < |m.procs| && m'.holder.None? && m'.store == Set(m.store, key, used, m'.clock, 60)
    && m'.procs == m.procs[p := Proc(Login(client), Finished(Verdict(if used <= 1 then 0 else RetryAfter(now, 60))))]
    && m'.served == m.served + [Call(Login(client), now)] && m'.servedBy == m.servedBy + [p]
  }

  lemma SoloTurn(m: Machine, client: string, p: nat, now: real, at: real) returns (ms: seq<Machine>)
    requires AtRest(m, client, p) && p < |m.procs| && m.clock <= now <= at
    requires Get(m.store, LoginKey(client, Slot(now, 60)), at) != Some(Unreadable)
    ensures Passes(ms, Turn(p, now, at)) && |ms| == 7 && ms[0] == m
    ensures ms[6].clock == at && TurnOver(m, ms[6], client, p, now)
    ensures Timely(LIMITS, ms[3], Fetch(p)) <==> !Late(m.store, LoginKey(client, Slot(now, 60)), at)
  {
    LoginKeys(client, now);
    RetryLandsInNextSlot(now, 60, 0);
    var m1 := m.(clock := now);
    var m2 := Become(m1, p, Reading(now, 0, 0)).(holder := Some(p));
    var m3 := m2.(clock := at);
    ChargeSteps(m3, client, p, now);
    var m4 := Next(LIMITS, m3, Fetch(p));
    var m5 := Next(LIMITS, m4, Put(p));
    ms := [m, m1, m2, m3, m4, m5, Next(LIMITS, m5, Release(p))];
  }

  function Bucketed(client: string): Bucket {
    Bucket("login", Client, client)
  }

  /** What the turns so far have let through in the interval. */
  function Through(m: Machine, client: string, lo: real, hi: real): int
    requires |m.served| == |m.servedBy|
  {
    LetThrough(m.served, Verdicts(m), Bucketed(client), lo, hi)
  }

  lemma OneMore(m: Machine, m': Machine, client: string, p: nat, now: real, lo: real, hi: real)
    requires AtRest(m, client, p) && TurnOver(m, m', client, p, now)
    requires Seen(m.store, LoginKey(client, Slot(now, 60)), m'.clock) >= 0
    ensures AtRest(m', client, p + 1)
    ensures Through(m', client, lo, hi)
            == Through(m, client, lo, hi)
               + if lo <= now < hi && Seen(m.store, LoginKey(client, Slot(now, 60)), m'.clock) == 0 then 1 else 0
  {
    RetryLandsInNextSlot(now, 60, 0);
    var verdict := Some(m'.procs[p].phase.decision);
    assert Verdicts(m') == Verdicts(m) + [verdict] by {
      forall i | 0 <= i < |m.servedBy| ensures Verdicts(m')[i] == Verdicts(m)[i] {
        assert m'.servedBy[i] == m.servedBy[i];
      }
    }
    LetThroughUnfold(m.served, Verdicts(m), Call(Login(client), now), verdict, Bucketed(client), lo, hi);
  }

  // ------------------------------------------------------------ logins one by one

  /** One coroutine's turn: when it reads the clock and when it reads the store. */
  datatype Visit = Visit(now: real, at: real)

  function Acts(visits: seq<Visit>, p: nat): seq<Act> {
    if visits == [] then [] else Turn(p, visits[0].now, visits[0].at) + Acts(visits[1..], p + 1)
  }

  predicate InOrder(visits: seq<Visit>, clock: real) {
    visits == [] || (clock <= visits[0].now <= visits[0].at && InOrder(visits[1..], visits[0].at))
  }

  predicate Counting(store: Store) {
    forall key :: key in store ==> store[key].raw.Counter? && store[key].raw.n >= 1
  }

  /** Logins the client had counted when the visit reads its store. */
  function Before(store: Store, client: string, v: Visit): int {
    Seen(store, LoginKey(client, Slot(v.now, 60)), v.at)
  }

  function After(store: Store, client: string, v: Visit): Store {
    Set(store, LoginKey(client, Slot(v.now, 60)), Before(store, client, v) + 1, v.at, 60)
  }

  /** How many of the visits that read the clock in [lo, hi) find nothing counted. */
  function Welcome(store: Store, client: string, visits: seq<Visit>, lo: real, hi: real): nat
    decreases |visits|
  {
    if visits == [] then 0
    else
      (if lo <= visits[0].now < hi && Before(store, client, visits[0]) == 0 then 1 else 0)
      + Welcome(After(store, client, visits[0]), client, visits[1..], lo, hi)
  }

  predicate NoneLate(store: Store, client: string, visits: seq<Visit>)
    decreases |visits|
  {
    visits != [] ==>
      && !Late(store, LoginKey(client, Slot(visits[0].now, 60)), visits[0].at)
      && NoneLate(After(store, client, visits[0]), client, visits[1..])
  }

  lemma OnlyFetchReads(ms: seq<Machine>, p: nat, v: Visit)
    requires |ms| == 7
    ensures (forall i :: 0 <= i < 6 ==> Timely(LIMITS, ms[i], Turn(p, v.now, v.at)[i])) <==> Timely(LIMITS, ms[3], Fetch(p))
  {
    var turn := Turn(p, v.now, v.at);
    assert turn[3] == Fetch(p);
    assert forall i :: 0 <= i < 6 && i != 3 ==> !turn[i].Fetch?;
  }

  /** One turn of the run. */
  lemma OneVisit(m: Machine, client: string, p: nat, v: Visit, rest: seq<Act>, lo: real, hi: real) returns (m': Machine)
    requires AtRest(m, client, p) && p < |m.procs| && m.clock <= v.now <= v.at && Counting(m.store)
    ensures AtRest(m', client, p + 1) && |m'.procs| == |m.procs| && m'.clock == v.at
    ensures m'.store == After(m.store, client, v) && Counting(m'.store)
    ensures Through(m', client, lo, hi)
            == Through(m, client, lo, hi) + if lo <= v.now < hi && Before(m.store, client, v) == 0 then 1 else 0
    ensures Exec(LIMITS, m, Turn(p, v.now, v.at) + rest) == Exec(LIMITS, m', rest)
    ensures TimelyRun(LIMITS, m, Turn(p, v.now, v.at) + rest)
            <==> !Late(m.store, LoginKey(client, Slot(v.now, 60)), v.at) && TimelyRun(LIMITS, m', rest)
  {
    var ms := SoloTurn(m, client, p, v.now, v.at);
    m' := ms[6];
    OneMore(m, m', client, p, v.now, lo, hi);
    Unroll(ms, Turn(p, v.now, v.at), rest);
    OnlyFetchReads(ms, p, v);
  }

  /** What logins one after the other make of a machine at rest. */
  lemma {:induction false} Visited(m: Machine, client: string, p: nat, visits: seq<Visit>, lo: real, hi: real)
    requires AtRest(m, client, p) && |m.procs| == p + |visits| && InOrder(visits, m.clock) && Counting(m.store)
    ensures var m' := Exec(LIMITS, m, Acts(visits, p));
            && |m'.served| == |m'.servedBy|
            && Through(m', client, lo, hi) == Through(m, client, lo, hi) + Welcome(m.store, client, visits, lo, hi)
    ensures TimelyRun(LIMITS, m, Acts(visits, p)) <==> NoneLate(m.store, client, visits)
    decreases |visits|
  {
    if visits != [] {
      var rest := Acts(visits[1..], p + 1);
      var m' := OneVisit(m, client, p, visits[0], rest, lo, hi);
      assert Acts(visits, p) == Turn(p, visits[0].now, visits[0].at) + rest;
      Visited(m', client, p + 1, visits[1..], lo, hi);
    }
  }

  /** The machine with one login waiting per visit. */
  function Crowd(client: string, visits: seq<Visit>): Machine {
    Initial(seq(|visits|, _ => Login(client)))
  }

  lemma VisitedFromStart(client: string, visits: seq<Visit>, lo: real, hi: real)
    requires InOrder(visits, 0.0)
    ensures var m := Exec(LIMITS, Crowd(client, visits), Acts(visits, 0));
            && |m.served| == |m.servedBy|
            && LetThrough(m.served, Verdicts(m), Bucketed(client), lo, hi) == Welcome(map[], client, visits, lo, hi)
    ensures TimelyRun(LIMITS, Crowd(client, visits), Acts(visits, 0)) <==> NoneLate(map[], client, visits)
  {
    Visited(Crowd(client, visits), client, 0, visits, lo, hi);
  }

  lemma FirstVisit(store: Store, client: string, v: Visit, rest: seq<Visit>, lo: real, hi: real)
    ensures Welcome(store, client, [v] + rest, lo, hi)
            == (if lo <= v.now < hi && Before(store, client, v) == 0 then 1 else 0)
               + Welcome(After(store, client, v), client, rest, lo, hi)
    ensures NoneLate(store, client, [v] + rest)
            <==> !Late(store, LoginKey(client, Slot(v.now, 60)), v.at) && NoneLate(After(store, client, v), client, rest)
  {
    assert ([v] + rest)[1..] == rest;
  }

  /** Two visits charged to the slot from 0 to 60, the second one reading its store at the slot's end. */
  const LATE: seq<Visit> := [Visit(0.0, 0.0), Visit(59.0, 60.0)]

  lemma LateVisits(client: string, rest: seq<Visit>, lo: real, hi: real)
    ensures !NoneLate(map[], client, LATE + rest)
    ensures Welcome(map[], client, LATE + rest, lo, hi)
            == (if lo <= 0.0 < hi then 1 else 0) + (if lo <= 59.0 < hi then 1 else 0)
               + Welcome(map[LoginKey(client, 0) := Entry(Counter(1), 120.0)], client, rest, lo, hi)
  {
    SlotUnique(0.0, 60, 0);
    SlotUnique(59.0, 60, 0);
    var store := After(map[], client, LATE[0]);
    FirstVisit(map[], client, LATE[0], [LATE[1]] + rest, lo, hi);
    FirstVisit(store, client, LATE[1], rest, lo, hi);
    assert LATE + rest == [LATE[0]] + ([LATE[1]] + rest);
    assert store == map[LoginKey(client, 0) := Entry(Counter(1), 60.0)];
    assert After(store, client, LATE[1]) == map[LoginKey(client, 0) := Entry(Counter(1), 120.0)];
  }

  /**
   Two logins of one client under a limit of one, both charged to one slot, are both let
   through when the second one's read comes after what the first wrote has expired.
   */
  lemma LateReadOverAdmits(client: string)
    ensures var m := Exec(LIMITS, Crowd(client, LATE), Acts(LATE, 0));
            && !TimelyRun(LIMITS, Crowd(client, LATE), Acts(LATE, 0))
            && |m.served| == |m.servedBy|
            && LetThrough(m.served, Verdicts(m), Bucketed(client), 0.0, 60.0) == 2 * LIMITS["login"].limit
  {
    VisitedFromStart(client, LATE, 0.0, 60.0);
    LateVisits(client, [], 0.0, 60.0);
    assert LATE + [] == LATE;
  }

  const ACROSS: seq<Visit> := [Visit(59.0, 59.0), Visit(60.0, 60.0)]

  lemma AcrossVisits(client: string)
    ensures NoneLate(map[], client, ACROSS) && Welcome(map[], client, ACROSS, 59.0, 119.0) == 2
  {
    SlotUnique(59.0, 60, 0);
    SlotUnique(60.0, 60, 1);
    var store := After(map[], client, ACROSS[0]);
    FirstVisit(map[], client, ACROSS[0], [ACROSS[1]], 59.0, 119.0);
    FirstVisit(store, client, ACROSS[1], [], 59.0, 119.0);
    assert [ACROSS[1]] + [] == [ACROSS[1]];
    assert ACROSS == [ACROSS[0]] + [ACROSS[1]];
  }

  /**
   The bound of timely runs is met: `limit` at the very end of a slot and `limit` at the
   start of the next are let through within one window.
   */
  lemma TwiceIsReached(client: string)
    ensures var m := Exec(LIMITS, Crowd(client, ACROSS), Acts(ACROSS, 0));
            && TimelyRun(LIMITS, Crowd(client, ACROSS), Acts(ACROSS, 0))
            && |m.served| == |m.servedBy|
            && LetThrough(m.served, Verdicts(m), Bucketed(client), 59.0, 59.0 + LIMITS["login"].window as real)
               == 2 * LIMITS["login"].limit
  {
    VisitedFromStart(client, ACROSS, 59.0, 119.0);
    AcrossVisits(client);
  }

  /** Two visits of the next slot, the second one late again. */
  const LATE_AGAIN: seq<Visit> := [Visit(60.0, 60.0), Visit(118.0, 120.0)]

  lemma LateAgainVisits(client: string)
    ensures Welcome(map[LoginKey(client, 0) := Entry(Counter(1), 120.0)], client, LATE_AGAIN, 59.0, 119.0) == 2
  {
    SlotUnique(60.0, 60, 1);
    SlotUnique(118.0, 60, 1);
    var store := map[LoginKey(client, 0) := Entry(Counter(1), 120.0)];
    FirstVisit(store, client, LATE_AGAIN[0], [LATE_AGAIN[1]], 59.0, 119.0);
    FirstVisit(After(store, client, LATE_AGAIN[0]), client, LATE_AGAIN[1], [], 59.0, 119.0);
    assert [LATE_AGAIN[1]] + [] == [LATE_AGAIN[1]];
    assert LATE_AGAIN == [LATE_AGAIN[0]] + [LATE_AGAIN[1]];
  }

  /**
   The bound of all runs is met too: with two late reads, three times the limit is let
   through between the clock readings 59 and 119.
   */
  lemma ThriceIsReached(client: string)
    ensures var visits := LATE + LATE_AGAIN;
            var m := Exec(LIMITS, Crowd(client, visits), Acts(visits, 0));
            && !TimelyRun(LIMITS, Crowd(client, visits), Acts(visits, 0))
            && |m.served| == |m.servedBy|
            && LetThrough(m.served, Verdicts(m), Bucketed(client), 59.0, 59.0 + LIMITS["login"].window as real)
               == 3 * LIMITS["login"].limit
  {
    VisitedFromStart(client, LATE + LATE_AGAIN, 59.0, 119.0);
    LateVisits(client, LATE_AGAIN, 59.0, 119.0);
    LateAgainVisits(client);
  }
}
