/**
 N coroutines sharing one limiter: a try-lock, a clock reading, and a get and a set per
 bucket, each its own step, so every interleaving of the awaits is a run here.
 */
module RateLimitMachine {
  import opened Prelude
  import opened RateLimitSpec
  import opened RateLimitHistory
  import opened RateLimitWrites

  datatype Phase =
    | Waiting
    | Reading(now: real, done: nat, retry: int)
    | Writing(now: real, done: nat, retry: int, used: int)
    | Finished(decision: Decision)

  datatype Proc = Proc(attempt: Attempt, phase: Phase)

  /** `served` and `servedBy` record who held the lock, in order, and `writes` what was written under it. */
  datatype Machine = Machine(
    clock: real,
    holder: Option<nat>,
    store: Store,
    procs: seq<Proc>,
    served: seq<Call>,
    servedBy: seq<nat>,
    writes: seq<Write>)

  datatype Act = Tick(clock: real) | Try(p: nat) | Fetch(p: nat) | Put(p: nat) | Release(p: nat)

  function Initial(attempts: seq<Attempt>): Machine {
    Machine(0.0, None, map[], seq(|attempts|, i requires 0 <= i < |attempts| => Proc(attempts[i], Waiting)), [], [], [])
  }

  function Become(m: Machine, p: nat, phase: Phase): Machine
    requires p < |m.procs|
  {
    m.(procs := m.procs[p := m.procs[p].(phase := phase)])
  }

  predicate Limited(policies: map<string, Policy>, a: Attempt) {
    a.operation in policies && policies[a.operation].Valid()
  }

  function KeysOf(policies: map<string, Policy>, a: Attempt, now: real): seq<Key>
    requires Limited(policies, a)
  {
    Keys(a, policies[a.operation], now)
  }

  /** One step; an action that is not enabled changes nothing. */
  function Next(policies: map<string, Policy>, m: Machine, act: Act): Machine {
    match act
    case Tick(clock) => if m.clock <= clock then m.(clock := clock) else m
    case Try(p) =>
      if !(p < |m.procs| && m.procs[p].phase.Waiting?) then m
      else if !Limited(policies, m.procs[p].attempt) then Become(m, p, Finished(Allowed))
      else if m.holder.Some? then m
      else Become(m, p, Reading(m.clock, 0, 0)).(holder := Some(p))
    case Fetch(p) =>
      if !(p < |m.procs| && m.procs[p].phase.Reading? && Limited(policies, m.procs[p].attempt)) then m
      else
        var a, r := m.procs[p].attempt, m.procs[p].phase;
        var keys := KeysOf(policies, a, r.now);
        if |keys| <= r.done then m
        else
          (match Get(m.store, keys[r.done], m.clock)
          case None => Become(m, p, Writing(r.now, r.done, r.retry, a.cost))
          case Some(Counter(n)) => Become(m, p, Writing(r.now, r.done, r.retry, n + a.cost))
          case Some(Unreadable) => Become(m, p, Finished(Failed)).(holder := None))
    case Put(p) =>
      if !(p < |m.procs| && m.procs[p].phase.Writing? && Limited(policies, m.procs[p].attempt)) then m
      else
        var a, w := m.procs[p].attempt, m.procs[p].phase;
        var keys, policy := KeysOf(policies, a, w.now), policies[a.operation];
        if |keys| <= w.done then m
        else
          var retry := if w.used <= policy.limit then w.retry else Longest(w.retry, RetryAfter(w.now, policy.window));
          Become(m, p, Reading(w.now, w.done + 1, retry))
            .(store := Set(m.store, keys[w.done], w.used, m.clock, policy.window),
              writes := m.writes + [Write(keys[w.done], w.now, a.cost, w.used, m.clock)])
    case Release(p) =>
      if !(p < |m.procs| && m.procs[p].phase.Reading? && Limited(policies, m.procs[p].attempt)) then m
      else
        var a, r := m.procs[p].attempt, m.procs[p].phase;
        if r.done < |KeysOf(policies, a, r.now)| then m
        else
          Become(m, p, Finished(Verdict(r.retry)))
            .(holder := None, served := m.served + [Call(a, r.now)], servedBy := m.servedBy + [p])
  }

  function Exec(policies: map<string, Policy>, m: Machine, acts: seq<Act>): Machine
    decreases |acts|
  {
    if acts == [] then m else Exec(policies, Next(policies, m, acts[0]), acts[1..])
  }

  /** The step reads a bucket: the one it returns. */
  function Reads(policies: map<string, Policy>, m: Machine, act: Act): Option<Key> {
    if act.Fetch? && act.p < |m.procs| && m.procs[act.p].phase.Reading? && Limited(policies, m.procs[act.p].attempt)
       && m.procs[act.p].phase.done < |KeysOf(policies, m.procs[act.p].attempt, m.procs[act.p].phase.now)|
    then Some(KeysOf(policies, m.procs[act.p].attempt, m.procs[act.p].phase.now)[m.procs[act.p].phase.done])
    else None
  }

  /** If the step is a read, it does not meet an expired entry. */
  predicate Timely(policies: map<string, Policy>, m: Machine, act: Act) {
    Reads(policies, m, act).Some? ==> !Late(m.store, Reads(policies, m, act).value, m.clock)
  }

  /** No read of the run meets an expired entry. */
  predicate TimelyRun(policies: map<string, Policy>, m: Machine, acts: seq<Act>)
    decreases |acts|
  {
    acts != [] ==> Timely(policies, m, acts[0]) && TimelyRun(policies, Next(policies, m, acts[0]), acts[1..])
  }

  /** If the step is a read, the shared clock is still inside the slot being charged. */
  predicate Prompt(policies: map<string, Policy>, m: Machine, act: Act) {
    Reads(policies, m, act).Some? ==>
      m.clock < SlotEnd(Reads(policies, m, act).value.slot, policies[m.procs[act.p].attempt.operation].window)
  }

  predicate PromptRun(policies: map<string, Policy>, m: Machine, acts: seq<Act>)
    decreases |acts|
  {
    acts != [] ==> Prompt(policies, m, acts[0]) && PromptRun(policies, Next(policies, m, acts[0]), acts[1..])
  }

  // -------------------------------------------------------------------- invariant

  predicate Inside(phase: Phase) {
    phase.Reading? || phase.Writing?
  }

  /** Only the holder is inside the critical section. */
  ghost predicate Exclusive(m: Machine) {
    && (m.holder.Some? ==> m.holder.value < |m.procs| && Inside(m.procs[m.holder.value].phase))
    && forall p :: 0 <= p < |m.procs| && Inside(m.procs[p].phase) ==> m.holder == Some(p)
  }

  /** `exact` asks for equality; otherwise the limiter may have been more lenient. */
  predicate Fits(given: Decision, serial: Decision, exact: bool) {
    given == serial || (!exact && given.Allowed?)
  }

  /** Every attempt that finished under the lock got the verdict of its turn. */
  ghost predicate Recorded(policies: map<string, Policy>, m: Machine, exact: bool)
    requires ValidHistory(policies, m.served)
  {
    && |m.servedBy| == |m.served|
    && (forall i :: 0 <= i < |m.served| ==>
          && m.servedBy[i] < |m.procs|
          && m.procs[m.servedBy[i]].attempt == m.served[i].attempt && m.procs[m.servedBy[i]].phase.Finished?
          && Fits(m.procs[m.servedBy[i]].phase.decision, IdealRun(policies, m.served).1[i], exact)
          && Limited(policies, m.served[i].attempt))
    && (forall i, j :: 0 <= i < j < |m.servedBy| ==> m.servedBy[i] != m.servedBy[j])
    && (forall p :: 0 <= p < |m.procs| && m.procs[p].phase.Finished? ==>
          if Limited(policies, m.procs[p].attempt) then p in m.servedBy else m.procs[p].phase.decision.Allowed?)
  }

  /** The counters so far: whole turns, then the buckets the holder has already charged. */
  ghost function Current(policies: map<string, Policy>, m: Machine): (Counters, int)
    requires ValidHistory(policies, m.served)
    requires m.holder.Some? ==> m.holder.value < |m.procs|
  {
    var base := IdealRun(policies, m.served).0;
    if m.holder.None? then (base, 0) else
      var proc := m.procs[m.holder.value];
      if Inside(proc.phase) && Limited(policies, proc.attempt)
         && proc.phase.done <= |KeysOf(policies, proc.attempt, proc.phase.now)|
      then Charge(base, KeysOf(policies, proc.attempt, proc.phase.now), proc.attempt.cost,
                  policies[proc.attempt.operation], proc.phase.now, proc.phase.done)
      else (base, 0)
  }

  ghost predicate HolderOk(policies: map<string, Policy>, m: Machine, exact: bool)
    requires ValidHistory(policies, m.served) && Exclusive(m)
  {
    m.holder.Some? ==>
      var proc := m.procs[m.holder.value];
      && Limited(policies, proc.attempt)
      && proc.phase.now <= m.clock
      && var keys := KeysOf(policies, proc.attempt, proc.phase.now);
      && proc.phase.done <= |keys|
      && (proc.phase.retry == Current(policies, m).1 || (!exact && proc.phase.retry == 0))
      && (proc.phase.Writing? ==>
            proc.phase.done < |keys|
            && var serial := Count(Current(policies, m).0, keys[proc.phase.done]) + proc.attempt.cost;
            1 <= proc.phase.used <= serial && (exact ==> proc.phase.used == serial))
  }

  /** With `exact`, the invariant of runs without late reads; without it, of all runs. */
  ghost predicate Inv(policies: map<string, Policy>, m: Machine, exact: bool) {
    && ValidPolicies(policies)
    && (forall p :: 0 <= p < |m.procs| ==> m.procs[p].attempt.Valid())
    && ValidHistory(policies, m.served)
    && Exclusive(m)
    && Recorded(policies, m, exact)
    && HolderOk(policies, m, exact)
    && Agrees(m.store, Current(policies, m).0, policies, exact)
  }

  /** No step changes how many coroutines there are or what they attempt. */
  lemma {:induction false} NextShape(policies: map<string, Policy>, m: Machine, act: Act)
    ensures var m' := Next(policies, m, act);
            |m'.procs| == |m.procs|
            && forall p :: 0 <= p < |m.procs| ==> m'.procs[p].attempt == m.procs[p].attempt
  {
  }

  /** A coroutine moving on without a verdict under the lock leaves the record alone. */
  lemma {:induction false} RecordFramed(policies: map<string, Policy>, m: Machine, m': Machine, p: nat, phase: Phase,
                                        exact: bool)
    requires ValidHistory(policies, m.served) && Recorded(policies, m, exact)
    requires p < |m.procs| && !m.procs[p].phase.Finished?
    requires m'.procs == m.procs[p := m.procs[p].(phase := phase)]
    requires m'.served == m.served && m'.servedBy == m.servedBy
    requires phase.Finished? ==> !Limited(policies, m.procs[p].attempt) && phase.decision.Allowed?
    ensures Recorded(policies, m', exact)
  {
    forall i | 0 <= i < |m.served| ensures m.servedBy[i] != p {}
  }

  lemma {:induction false} TickKeepsInv(policies: map<string, Policy>, m: Machine, act: Act, exact: bool)
    requires Inv(policies, m, exact) && act.Tick?
    ensures Inv(policies, Next(policies, m, act), exact)
  {
    var m' := Next(policies, m, act);
    assert m' == m.(clock := m'.clock) && m.clock <= m'.clock;
    assert Current(policies, m') == Current(policies, m);
  }

  /** An attempt that is not limited is allowed at once. */
  lemma {:induction false} PassKeepsInv(policies: map<string, Policy>, m: Machine, p: nat, exact: bool)
    requires Inv(policies, m, exact) && p < |m.procs| && m.procs[p].phase.Waiting?
    requires !Limited(policies, m.procs[p].attempt)
    ensures Inv(policies, Become(m, p, Finished(Allowed)), exact)
  {
    var m' := Become(m, p, Finished(Allowed));
    RecordFramed(policies, m, m', p, Finished(Allowed), exact);
    assert Current(policies, m') == Current(policies, m);
  }

  lemma {:induction false} LockKeepsInv(policies: map<string, Policy>, m: Machine, p: nat, exact: bool)
    requires Inv(policies, m, exact) && p < |m.procs| && m.procs[p].phase.Waiting?
    requires Limited(policies, m.procs[p].attempt) && m.holder.None?
    ensures Inv(policies, Become(m, p, Reading(m.clock, 0, 0)).(holder := Some(p)), exact)
  {
    var m' := Become(m, p, Reading(m.clock, 0, 0)).(holder := Some(p));
    RecordFramed(policies, m, m', p, Reading(m.clock, 0, 0), exact);
    assert Current(policies, m') == Current(policies, m);
  }

  lemma {:induction false} TryKeepsInv(policies: map<string, Policy>, m: Machine, act: Act, exact: bool)
    requires Inv(policies, m, exact) && act.Try?
    ensures Inv(policies, Next(policies, m, act), exact)
  {
    if act.p < |m.procs| && m.procs[act.p].phase.Waiting? {
      if !Limited(policies, m.procs[act.p].attempt) {
        PassKeepsInv(policies, m, act.p, exact);
      } else if m.holder.None? {
        LockKeepsInv(policies, m, act.p, exact);
      }
    }
  }

  /**
   What a read makes of its bucket: never more than everything charged before it in lock
   order, exactly that if nothing was read late so far, and nothing at all when it is late.
   */
  lemma ReadMeans(policies: map<string, Policy>, m: Machine, act: Act, exact: bool)
    requires Inv(policies, m, exact) && Reads(policies, m, act).Some?
    ensures m.holder == Some(act.p)
    ensures var key, proc := Reads(policies, m, act).value, m.procs[act.p];
            var phase, serial := Next(policies, m, act).procs[act.p].phase, Count(Current(policies, m).0, key);
            && Next(policies, m, act) == Become(m, act.p, phase)
            && phase == Writing(proc.phase.now, proc.phase.done, proc.phase.retry, phase.used)
            && proc.attempt.cost <= phase.used <= serial + proc.attempt.cost
            && (exact && !Late(m.store, key, m.clock) ==> phase.used == serial + proc.attempt.cost)
            && (Late(m.store, key, m.clock) ==> phase.used == proc.attempt.cost < serial + proc.attempt.cost)
  {
    ReadAgrees(m.store, Current(policies, m).0, policies, Reads(policies, m, act).value, m.clock, exact);
  }

  lemma {:induction false} FetchKeepsInv(policies: map<string, Policy>, m: Machine, act: Act, exact: bool)
    requires Inv(policies, m, exact) && act.Fetch? && (exact ==> Timely(policies, m, act))
    ensures Inv(policies, Next(policies, m, act), exact)
  {
    var m' := Next(policies, m, act);
    if m' != m {
      ReadMeans(policies, m, act, exact);
      RecordFramed(policies, m, m', act.p, m'.procs[act.p].phase, exact);
      assert Current(policies, m') == Current(policies, m);
    }
  }

  lemma HolderWaits(policies: map<string, Policy>, m: Machine, exact: bool)
    requires Inv(policies, m, exact) && m.holder.Some?
    ensures var proc := m.procs[m.holder.value];
            Current(policies, m).1 in {0, RetryAfter(proc.phase.now, policies[proc.attempt.operation].window)}
  {
    var proc := m.procs[m.holder.value];
    ChargeWaits(IdealRun(policies, m.served).0, KeysOf(policies, proc.attempt, proc.phase.now), proc.attempt.cost,
                policies[proc.attempt.operation], proc.phase.now, proc.phase.done);
  }

  lemma {:induction false} PutAdvances(policies: map<string, Policy>, m: Machine, act: Act, exact: bool)
    requires Inv(policies, m, exact) && act.Put? && Next(policies, m, act) != m
    ensures var proc := m.procs[act.p];
            var keys, policy := KeysOf(policies, proc.attempt, proc.phase.now), policies[proc.attempt.operation];
            var before := Current(policies, m);
            var serial := Count(before.0, keys[proc.phase.done]) + proc.attempt.cost;
            && m.holder == Some(act.p)
            && Current(policies, Next(policies, m, act)) ==
               (before.0[keys[proc.phase.done] := serial],
                if serial <= policy.limit then before.1 else Longest(before.1, RetryAfter(proc.phase.now, policy.window)))
  {
  }

  lemma PutAgrees(policies: map<string, Policy>, m: Machine, act: Act, exact: bool)
    requires Inv(policies, m, exact) && act.Put? && Next(policies, m, act) != m
    ensures var m' := Next(policies, m, act);
            && Exclusive(m') && ValidHistory(policies, m'.served)
            && Agrees(m'.store, Current(policies, m').0, policies, exact)
  {
    var proc := m.procs[act.p];
    var key := KeysOf(policies, proc.attempt, proc.phase.now)[proc.phase.done];
    PutAdvances(policies, m, act, exact);
    WriteAgrees(m.store, Current(policies, m).0, policies, key, proc.phase.used,
                Count(Current(policies, m).0, key) + proc.attempt.cost, proc.phase.now, m.clock, exact);
    assert Next(policies, m, act).store
        == Set(m.store, key, proc.phase.used, m.clock, policies[proc.attempt.operation].window);
  }

  lemma PutHolds(policies: map<string, Policy>, m: Machine, act: Act, exact: bool)
    requires Inv(policies, m, exact) && act.Put? && Next(policies, m, act) != m
    ensures var m' := Next(policies, m, act);
            Exclusive(m') && ValidHistory(policies, m'.served) && HolderOk(policies, m', exact)
  {
    PutAdvances(policies, m, act, exact);
    HolderWaits(policies, m, exact);
  }

  lemma {:induction false} PutKeepsInv(policies: map<string, Policy>, m: Machine, act: Act, exact: bool)
    requires Inv(policies, m, exact) && act.Put?
    ensures Inv(policies, Next(policies, m, act), exact)
  {
    var m' := Next(policies, m, act);
    if m' != m {
      PutAgrees(policies, m, act, exact);
      PutHolds(policies, m, act, exact);
      RecordFramed(policies, m, m', act.p, m'.procs[act.p].phase, exact);
    }
  }

  /** A coroutine that has not finished had no turn yet; its own turn keeps the list free of repetition. */
  lemma ServedOnce(policies: map<string, Policy>, m: Machine, p: nat, exact: bool)
    requires ValidHistory(policies, m.served) && Recorded(policies, m, exact)
    requires p < |m.procs| && !m.procs[p].phase.Finished?
    ensures forall i :: 0 <= i < |m.servedBy| ==> m.servedBy[i] != p
    ensures forall i, j :: 0 <= i < j < |m.servedBy + [p]| ==> (m.servedBy + [p])[i] != (m.servedBy + [p])[j]
    ensures forall q :: q in m.servedBy + [p] <==> q in m.servedBy || q == p
  {
  }

  lemma {:induction false} RecordExtended(policies: map<string, Policy>, m: Machine, m': Machine, p: nat, now: real,
                                          given: Decision, serial: Decision, exact: bool)
    requires ValidHistory(policies, m.served) && Recorded(policies, m, exact)
    requires p < |m.procs| && !m.procs[p].phase.Finished? && Limited(policies, m.procs[p].attempt)
    requires m'.procs == m.procs[p := m.procs[p].(phase := Finished(given))] && Fits(given, serial, exact)
    requires m'.served == m.served + [Call(m.procs[p].attempt, now)] && m'.servedBy == m.servedBy + [p]
    requires ValidHistory(policies, m'.served)
    requires IdealRun(policies, m'.served).1 == IdealRun(policies, m.served).1 + [serial]
    ensures Recorded(policies, m', exact)
  {
    ServedOnce(policies, m, p, exact);
    var n := |m.served|;
    forall i | 0 <= i < |m'.served|
      ensures && m'.servedBy[i] < |m'.procs|
              && m'.procs[m'.servedBy[i]].attempt == m'.served[i].attempt && m'.procs[m'.servedBy[i]].phase.Finished?
              && Fits(m'.procs[m'.servedBy[i]].phase.decision, IdealRun(policies, m'.served).1[i], exact)
              && Limited(policies, m'.served[i].attempt)
    {
      if i < n {
        assert m'.served[i] == m.served[i] && m'.servedBy[i] == m.servedBy[i];
      }
    }
  }

  /** The turn that ends adds its serial verdict to the run, and the counters it charged. */
  lemma ReleaseEndsTurn(policies: map<string, Policy>, m: Machine, p: nat, exact: bool)
    requires Inv(policies, m, exact) && m.holder == Some(p) && m.procs[p].phase.Reading?
    requires m.procs[p].phase.done == |KeysOf(policies, m.procs[p].attempt, m.procs[p].phase.now)|
    ensures var proc := m.procs[p];
            var served := m.served + [Call(proc.attempt, proc.phase.now)];
            && ValidHistory(policies, served)
            && IdealRun(policies, served)
               == (Current(policies, m).0, IdealRun(policies, m.served).1 + [Verdict(Current(policies, m).1)])
  {
    SnocSplit(m.served, Call(m.procs[p].attempt, m.procs[p].phase.now));
  }

  lemma ReleaseRecords(policies: map<string, Policy>, m: Machine, act: Act, exact: bool)
    requires Inv(policies, m, exact) && act.Release? && Next(policies, m, act) != m
    ensures var m' := Next(policies, m, act);
            && ValidHistory(policies, m'.served) && Recorded(policies, m', exact)
            && m'.holder.None? && IdealRun(policies, m'.served).0 == Current(policies, m).0
  {
    var m' := Next(policies, m, act);
    var proc := m.procs[act.p];
    ReleaseEndsTurn(policies, m, act.p, exact);
    RecordExtended(policies, m, m', act.p, proc.phase.now, Verdict(proc.phase.retry), Verdict(Current(policies, m).1), exact);
  }

  lemma {:induction false} ReleaseKeepsInv(policies: map<string, Policy>, m: Machine, act: Act, exact: bool)
    requires Inv(policies, m, exact) && act.Release?
    ensures Inv(policies, Next(policies, m, act), exact)
  {
    if Next(policies, m, act) != m {
      ReleaseRecords(policies, m, act, exact);
    }
  }

  lemma {:induction false} InvKept(policies: map<string, Policy>, m: Machine, act: Act, exact: bool)
    requires Inv(policies, m, exact) && (exact ==> Timely(policies, m, act))
    ensures Inv(policies, Next(policies, m, act), exact)
  {
    match act
    case Tick(_) => TickKeepsInv(policies, m, act, exact);
    case Try(_) => TryKeepsInv(policies, m, act, exact);
    case Fetch(_) => FetchKeepsInv(policies, m, act, exact);
    case Put(_) => PutKeepsInv(policies, m, act, exact);
    case Release(_) => ReleaseKeepsInv(policies, m, act, exact);
  }

  lemma {:induction false} InvRun(policies: map<string, Policy>, m: Machine, acts: seq<Act>, exact: bool)
    requires Inv(policies, m, exact) && (exact ==> TimelyRun(policies, m, acts))
    ensures Inv(policies, Exec(policies, m, acts), exact)
    decreases |acts|
  {
    if acts != [] {
      InvKept(policies, m, acts[0], exact);
      InvRun(policies, Next(policies, m, acts[0]), acts[1..], exact);
    }
  }

  lemma {:induction false} ShapeRun(policies: map<string, Policy>, m: Machine, acts: seq<Act>)
    ensures var m' := Exec(policies, m, acts);
            |m'.procs| == |m.procs|
            && forall p :: 0 <= p < |m.procs| ==> m'.procs[p].attempt == m.procs[p].attempt
    decreases |acts|
  {
    if acts != [] {
      NextShape(policies, m, acts[0]);
      ShapeRun(policies, Next(policies, m, acts[0]), acts[1..]);
    }
  }

  // ------------------------------------------------------------------ main results

  lemma InitialInv(policies: map<string, Policy>, attempts: seq<Attempt>, exact: bool)
    requires ValidPolicies(policies) && forall i :: 0 <= i < |attempts| ==> attempts[i].Valid()
    ensures Inv(policies, Initial(attempts), exact)
  {
  }

  /** Finished attempts took their turns one after the other, each with a verdict that fits its turn. */
  ghost predicate Serial(policies: map<string, Policy>, attempts: seq<Attempt>, m: Machine, exact: bool) {
    && ValidHistory(policies, m.served) && |m.servedBy| == |m.served| && |m.procs| == |attempts|
    && (forall i :: 0 <= i < |m.served| ==>
          && m.servedBy[i] < |attempts|
          && m.served[i].attempt == attempts[m.servedBy[i]]
          && m.procs[m.servedBy[i]].phase.Finished?
          && Fits(m.procs[m.servedBy[i]].phase.decision, IdealRun(policies, m.served).1[i], exact))
    && (forall i, j :: 0 <= i < j < |m.servedBy| ==> m.servedBy[i] != m.servedBy[j])
    && (forall p :: 0 <= p < |attempts| && m.procs[p].phase.Finished? ==>
          if attempts[p].operation in policies then p in m.servedBy else m.procs[p].phase.decision.Allowed?)
    && (forall p, q ::
          0 <= p < |attempts| && 0 <= q < |attempts| && Inside(m.procs[p].phase) && Inside(m.procs[q].phase) ==> p == q)
  }

  lemma RunIsSerial(policies: map<string, Policy>, attempts: seq<Attempt>, acts: seq<Act>, exact: bool)
    requires ValidPolicies(policies) && forall i :: 0 <= i < |attempts| ==> attempts[i].Valid()
    requires exact ==> TimelyRun(policies, Initial(attempts), acts)
    ensures Serial(policies, attempts, Exec(policies, Initial(attempts), acts), exact)
  {
    InitialInv(policies, attempts, exact);
    InvRun(policies, Initial(attempts), acts, exact);
    ShapeRun(policies, Initial(attempts), acts);
  }

  /**
   However N coroutines interleave their try-lock, read and write steps, as long as no
   read meets an expired entry, the finished attempts took their turns one after the other
   and each got the very verdict plain counters would give on that turn. Nobody fails, and
   nobody else is inside while the lock is held.
   */
  lemma EveryInterleavingIsSerial(policies: map<string, Policy>, attempts: seq<Attempt>, acts: seq<Act>)
    requires ValidPolicies(policies) && forall i :: 0 <= i < |attempts| ==> attempts[i].Valid()
    requires TimelyRun(policies, Initial(attempts), acts)
    ensures Serial(policies, attempts, Exec(policies, Initial(attempts), acts), true)
  {
    RunIsSerial(policies, attempts, acts, true);
  }

  /**
   And with no condition on the run at all: still one turn after the other, nobody fails,
   and whoever is denied would be denied by plain counters too, with the same wait. Late
   reads err in one direction only.
   */
  lemma NoInterleavingDeniesTooMuch(policies: map<string, Policy>, attempts: seq<Attempt>, acts: seq<Act>)
    requires ValidPolicies(policies) && forall i :: 0 <= i < |attempts| ==> attempts[i].Valid()
    ensures Serial(policies, attempts, Exec(policies, Initial(attempts), acts), false)
  {
    RunIsSerial(policies, attempts, acts, false);
  }
}
