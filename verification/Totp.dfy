/**
 Time-based one-time passwords (RFC 6238): choosing the accepted counter in the drift
 window, and the compare-and-set that lets each counter be accepted once, for any number of
 interleaved activations and verifications. Clocks are integer microseconds; the password
 of a secret at a counter is a parameter.
 */
module Totp {
  import opened Prelude

  const MICROSECONDS := 1_000_000

  datatype Policy = Policy(digits: nat, period: nat, drift: nat) {
    predicate Valid() {
      digits in {6, 8} && period >= 1
    }
  }

  // What the TOTPPolicy constructor admits.
  type TotpPolicy = p: Policy | p.Valid() witness Policy(6, 30, 1)

  /** The password of a secret at a counter. */
  type Generator = (string, nat) -> string

  // ---------------------------------------------------------------- choosing a counter

  /** Whole seconds, truncated toward zero. */
  function Seconds(clock: int): int {
    if clock >= 0 then clock / MICROSECONDS else -(-clock / MICROSECONDS)
  }

  /** The current time step; the division floors. */
  function Current(clock: int, p: TotpPolicy): int {
    Seconds(clock) / p.period
  }

  predicate Matches(g: Generator, secret: string, counter: int, code: string) {
    counter >= 0 && g(secret, counter) == code
  }

  predicate WellFormedCode(code: string, p: TotpPolicy) {
    |code| == p.digits && forall c :: c in code ==> '0' <= c <= '9'
  }

  /** The largest matching counter in the interval. */
  function Largest(g: Generator, secret: string, code: string, low: int, high: int): Option<int>
    decreases high - low
  {
    if high < low then None
    else if Matches(g, secret, high, code) then Some(high)
    else Largest(g, secret, code, low, high - 1)
  }

  function AcceptedCounter(g: Generator, secret: string, code: string, clock: int, p: TotpPolicy): Option<int> {
    if !WellFormedCode(code, p) then None
    else Largest(g, secret, code, Current(clock, p) - p.drift, Current(clock, p) + p.drift)
  }

  predicate InWindow(counter: int, clock: int, p: TotpPolicy) {
    Current(clock, p) - p.drift <= counter <= Current(clock, p) + p.drift
  }

  lemma {:induction false} LargestExactly(g: Generator, secret: string, code: string, low: int, high: int)
    ensures var r := Largest(g, secret, code, low, high);
      && (r.None? <==> forall c :: low <= c <= high ==> !Matches(g, secret, c, code))
      && (r.Some? ==> low <= r.value <= high && Matches(g, secret, r.value, code)
                      && forall c :: r.value < c <= high ==> !Matches(g, secret, c, code))
    decreases high - low
  {
    if low <= high && !Matches(g, secret, high, code) {
      LargestExactly(g, secret, code, low, high - 1);
    }
  }

  /** A code is accepted exactly if it matches in the window, at the latest matching counter. */
  lemma AcceptedExactly(g: Generator, secret: string, code: string, clock: int, p: TotpPolicy, counter: int)
    ensures AcceptedCounter(g, secret, code, clock, p) == Some(counter) <==>
            && |code| == p.digits && (forall c :: c in code ==> c in "0123456789")
            && counter >= 0 && InWindow(counter, clock, p) && g(secret, counter) == code
            && forall c :: 0 <= c && InWindow(c, clock, p) && g(secret, c) == code ==> c <= counter
  {
    LargestExactly(g, secret, code, Current(clock, p) - p.drift, Current(clock, p) + p.drift);
    forall c: char ensures '0' <= c <= '9' <==> c in "0123456789" {
      DigitListed(c);
    }
    forall c | 0 <= c && InWindow(c, clock, p) && g(secret, c) == code ensures Matches(g, secret, c, code) {}
  }

  lemma DigitListed(c: char)
    ensures '0' <= c <= '9' <==> c in "0123456789"
  {
    if '0' <= c <= '9' {
      assert "0123456789"[c as int - 48] == c;
    }
  }

  /**
   A clock reading lies in the time step it is assigned: seconds are cut toward the epoch,
   and the steps partition the whole seconds.
   */
  lemma CurrentIsTimeStep(clock: int, p: TotpPolicy) returns (seconds: int)
    ensures if clock >= 0 then seconds * 1_000_000 <= clock < (seconds + 1) * 1_000_000
            else (seconds - 1) * 1_000_000 < clock <= seconds * 1_000_000
    ensures Current(clock, p) * p.period <= seconds < (Current(clock, p) + 1) * p.period
  {
    seconds := Seconds(clock);
  }

  /** `_accepted_counter`: the loop keeps the last match. */
  method ChooseCounter(g: Generator, secret: string, code: string, clock: int, p: TotpPolicy) returns (accepted: Option<int>)
    ensures accepted == AcceptedCounter(g, secret, code, clock, p)
  {
    if |code| != p.digits || exists c :: c in code && !('0' <= c <= '9') {
      return None;
    }
    var current, drift: int := Current(clock, p), p.drift;
    accepted := None;
    for offset: int := -drift to drift + 1
      invariant accepted == Largest(g, secret, code, current - drift, current + offset - 1)
    {
      var counter := current + offset;
      if counter >= 0 && g(secret, counter) == code {
        accepted := Some(counter);
      }
    }
  }

  // ------------------------------------------------------------------------- the store

  datatype Enrollment = Enrollment(accountId: string, methodId: string, secret: string, policy: TotpPolicy, expiresAt: int)

  datatype Method = Method(accountId: string, secret: string, policy: TotpPolicy, lastCounter: int)

  type Enrollments = map<string, Enrollment>

  type Methods = map<string, Method>

  predicate Usable(es: Enrollments, accountId: string, enrollmentId: string, now: int) {
    enrollmentId in es && es[enrollmentId].accountId == accountId && now < es[enrollmentId].expiresAt
  }

  function Activated(e: Enrollment, counter: int): Method {
    Method(e.accountId, e.secret, e.policy, counter)
  }

  /** Both activations: the enrollment is consumed, and kept only by the one with recovery codes when it does not fit. */
  function ActivateEnrollment(es: Enrollments, ms: Methods, accountId: string, enrollmentId: string, counter: int, now: int,
                              withRecoveryCodes: bool): (Enrollments, Methods, bool)
  {
    if !Usable(es, accountId, enrollmentId, now) then (if withRecoveryCodes then es else es - {enrollmentId}, ms, false)
    else (es - {enrollmentId}, ms[es[enrollmentId].methodId := Activated(es[enrollmentId], counter)], true)
  }

  function AdvanceCounter(ms: Methods, methodId: string, counter: int): (Methods, bool) {
    if methodId !in ms || counter <= ms[methodId].lastCounter then (ms, false)
    else (ms[methodId := ms[methodId].(lastCounter := counter)], true)
  }

  class InMemoryMfaStore {
    var enrollments: Enrollments
    var methods: Methods

    constructor ()
      ensures enrollments == map[] && methods == map[]
    {
      enrollments, methods := map[], map[];
    }

    method CreateEnrollment(enrollmentId: string, e: Enrollment)
      modifies this`enrollments
      ensures enrollments == old(enrollments)[enrollmentId := e]
    {
      enrollments := enrollments[enrollmentId := e];
    }

    /** Consumes the enrollment even when it then does not fit. */
    method Activate(accountId: string, enrollmentId: string, counter: int, now: int) returns (activated: bool)
      modifies this
      ensures (enrollments, methods, activated)
              == ActivateEnrollment(old(enrollments), old(methods), accountId, enrollmentId, counter, now, false)
    {
      if enrollmentId !in enrollments {
        assert enrollments - {enrollmentId} == enrollments;
        return false;
      }
      var e := enrollments[enrollmentId];
      enrollments := enrollments - {enrollmentId};
      if e.accountId != accountId || e.expiresAt <= now {
        return false;
      }
      methods := methods[e.methodId := Method(accountId, e.secret, e.policy, counter)];
      return true;
    }

    /** Keeps the enrollment when it does not fit. */
    method ActivateWithRecoveryCodes(accountId: string, enrollmentId: string, counter: int,
                                     now: int) returns (activated: bool)
      modifies this
      ensures (enrollments, methods, activated)
              == ActivateEnrollment(old(enrollments), old(methods), accountId, enrollmentId, counter, now, true)
    {
      if enrollmentId !in enrollments || enrollments[enrollmentId].accountId != accountId
         || enrollments[enrollmentId].expiresAt <= now {
        return false;
      }
      var e := enrollments[enrollmentId];
      enrollments := enrollments - {enrollmentId};
      methods := methods[e.methodId := Method(accountId, e.secret, e.policy, counter)];
      return true;
    }

    method Advance(methodId: string, counter: int) returns (won: bool)
      modifies this`methods
      ensures (methods, won) == AdvanceCounter(old(methods), methodId, counter)
    {
      if methodId !in methods || counter <= methods[methodId].lastCounter {
        return false;
      }
      methods := methods[methodId := methods[methodId].(lastCounter := counter)];
      return true;
    }
  }

  // ------------------------------------------------------------------- the step machine

  /** A request between its checks and its write, with the account it speaks for and its clock reading. */
  datatype Attempt =
    | Activating(enrollmentId: string, accountId: string, counter: int, clock: int, code: string)
    | Verifying(methodId: string, accountId: string, counter: int, clock: int, code: string)
    | Closed

  datatype Event =
    | Nothing
    | Accepted(methodId: string, accountId: string, counter: int, clock: int, code: string)

  /** `ledger` remembers every enrollment ever stored. */
  datatype World = World(enrollments: Enrollments, methods: Methods, ledger: Enrollments, attempts: seq<Attempt>, log: seq<Event>)

  const START := World(map[], map[], map[], [], [])

  datatype Step =
    | Enroll(enrollmentId: string, enrollment: Enrollment)
    | OpenActivation(accountId: string, enrollmentId: string, code: string, clock: int)
    | OpenVerification(accountId: string, methodId: string, code: string, clock: int)
    | Commit(a: nat, withRecoveryCodes: bool)
    | Drop(a: nat)

  function Open(w: World, a: Attempt): World {
    w.(attempts := w.attempts + [a], log := w.log + [Nothing])
  }

  function DoCommit(w: World, a: nat, withRecoveryCodes: bool): World
    requires a < |w.attempts|
  {
    var closed := w.(attempts := w.attempts[a := Closed]);
    match w.attempts[a]
    case Closed => w.(log := w.log + [Nothing])
    case Verifying(methodId, accountId, counter, clock, code) =>
      var (methods, won) := AdvanceCounter(w.methods, methodId, counter);
      closed.(methods := methods, log := w.log + [if won then Accepted(methodId, accountId, counter, clock, code) else Nothing])
    case Activating(enrollmentId, accountId, counter, clock, code) =>
      var (enrollments, methods, activated) :=
        ActivateEnrollment(w.enrollments, w.methods, accountId, enrollmentId, counter, clock, withRecoveryCodes);
      closed.(enrollments := enrollments, methods := methods,
              log := w.log + [if activated then Accepted(w.enrollments[enrollmentId].methodId, accountId, counter, clock, code)
                              else Nothing])
  }

  function Next(g: Generator, w: World, s: Step): World {
    match s
    case Enroll(enrollmentId, e) =>
      w.(enrollments := w.enrollments[enrollmentId := e], ledger := w.ledger[enrollmentId := e], log := w.log + [Nothing])
    case OpenActivation(accountId, enrollmentId, code, clock) =>
      if !Usable(w.enrollments, accountId, enrollmentId, clock) then w.(log := w.log + [Nothing])
      else
        var e := w.enrollments[enrollmentId];
        var counter := AcceptedCounter(g, e.secret, code, clock, e.policy);
        if counter.None? then w.(log := w.log + [Nothing])
        else Open(w, Activating(enrollmentId, accountId, counter.value, clock, code))
    case OpenVerification(accountId, methodId, code, clock) =>
      if methodId !in w.methods || w.methods[methodId].accountId != accountId then w.(log := w.log + [Nothing])
      else
        var m := w.methods[methodId];
        var counter := AcceptedCounter(g, m.secret, code, clock, m.policy);
        if counter.None? || counter.value <= m.lastCounter then w.(log := w.log + [Nothing])
        else Open(w, Verifying(methodId, accountId, counter.value, clock, code))
    case Commit(a, withRecoveryCodes) =>
      if a < |w.attempts| then DoCommit(w, a, withRecoveryCodes) else w.(log := w.log + [Nothing])
    case Drop(a) =>
      if a < |w.attempts| then w.(attempts := w.attempts[a := Closed], log := w.log + [Nothing]) else w.(log := w.log + [Nothing])
  }

  function Run(g: Generator, w: World, steps: seq<Step>): World {
    if steps == [] then w else Next(g, Run(g, w, steps[..|steps| - 1]), steps[|steps| - 1])
  }

  /** Enrollment and method identifiers do not repeat. */
  ghost predicate Fresh(w: World, s: Step) {
    s.Enroll? ==>
      && s.enrollmentId !in w.ledger
      && forall x :: x in w.ledger ==> w.ledger[x].methodId != s.enrollment.methodId
  }

  ghost predicate Admissible(g: Generator, w: World, steps: seq<Step>) {
    steps == [] ||
    (Admissible(g, w, steps[..|steps| - 1]) && Fresh(Run(g, w, steps[..|steps| - 1]), steps[|steps| - 1]))
  }

  /** The acceptances of one method, oldest first. */
  function Acceptances(log: seq<Event>, m: string): seq<Event> {
    if log == [] then []
    else
      var before, last := Acceptances(log[..|log| - 1], m), log[|log| - 1];
      if last.Accepted? && last.methodId == m then before + [last] else before
  }

  // ------------------------------------------------------------------------- invariant

  /** The counter was computed for the secret and policy of the method, at the clock of the request. */
  predicate Justified(g: Generator, counter: int, clock: int, code: string, secret: string, p: TotpPolicy) {
    AcceptedCounter(g, secret, code, clock, p) == Some(counter)
  }

  ghost predicate AttemptInv(g: Generator, ms: Methods, ledger: Enrollments, a: Attempt) {
    match a
    case Closed => true
    case Verifying(m, accountId, counter, clock, code) =>
      m in ms && ms[m].accountId == accountId && Justified(g, counter, clock, code, ms[m].secret, ms[m].policy)
    case Activating(e, accountId, counter, clock, code) =>
      e in ledger && Justified(g, counter, clock, code, ledger[e].secret, ledger[e].policy)
  }

  /** The method is that enrollment, activated before its deadline by this acceptance. */
  predicate ActivatedBy(e: Enrollment, m: Method, first: Event) {
    && first.Accepted? && first.methodId == e.methodId && first.accountId == e.accountId && first.clock < e.expiresAt
    && m.accountId == e.accountId && m.secret == e.secret && m.policy == e.policy
  }

  ghost predicate FromLedger(ledger: Enrollments, ms: Methods, log: seq<Event>, m: string) {
    m in ms ==>
      && Acceptances(log, m) != []
      && exists e :: e in ledger && ActivatedBy(ledger[e], ms[m], Acceptances(log, m)[0])
  }

  ghost predicate MethodInv(g: Generator, ms: Methods, log: seq<Event>, m: string) {
    var accepted := Acceptances(log, m);
    if m !in ms then accepted == []
    else
      && accepted != [] && accepted[|accepted| - 1].Accepted? && accepted[|accepted| - 1].counter == ms[m].lastCounter
      && (forall i :: 0 <= i < |accepted| ==>
            accepted[i].Accepted? && accepted[i].methodId == m && accepted[i].accountId == ms[m].accountId
            && Justified(g, accepted[i].counter, accepted[i].clock, accepted[i].code, ms[m].secret, ms[m].policy))
      && (forall i, j :: 0 <= i < j < |accepted| ==> accepted[i].counter < accepted[j].counter)
  }

  ghost predicate LedgerInv(w: World) {
    && (forall e :: e in w.enrollments ==> e in w.ledger && w.enrollments[e] == w.ledger[e] && w.ledger[e].methodId !in w.methods)
    && (forall m :: m in w.methods ==> exists e :: e in w.ledger && w.ledger[e].methodId == m)
    && (forall d, e :: d in w.ledger && e in w.ledger && d != e ==> w.ledger[d].methodId != w.ledger[e].methodId)
  }

  ghost predicate Inv(g: Generator, w: World) {
    && LedgerInv(w)
    && (forall a :: a in w.attempts ==> AttemptInv(g, w.methods, w.ledger, a))
    && (forall m :: MethodInv(g, w.methods, w.log, m))
    && (forall m :: FromLedger(w.ledger, w.methods, w.log, m))
  }

  lemma Unfold(log: seq<Event>, e: Event, m: string)
    ensures Acceptances(log + [e], m)
            == if e.Accepted? && e.methodId == m then Acceptances(log, m) + [e] else Acceptances(log, m)
  {
    SnocSplit(log, e);
  }

  lemma QuietKeeps(g: Generator, w: World, attempts: seq<Attempt>)
    requires Inv(g, w) && forall a :: a in attempts ==> AttemptInv(g, w.methods, w.ledger, a)
    ensures Inv(g, w.(attempts := attempts, log := w.log + [Nothing]))
  {
    forall m ensures MethodInv(g, w.methods, w.log + [Nothing], m) && FromLedger(w.ledger, w.methods, w.log + [Nothing], m) {
      Unfold(w.log, Nothing, m);
      assert MethodInv(g, w.methods, w.log, m) && FromLedger(w.ledger, w.methods, w.log, m);
    }
  }

  lemma ReplacedInv(g: Generator, w: World, a: nat)
    requires Inv(g, w) && a < |w.attempts|
    ensures forall x :: x in w.attempts[a := Closed] ==> AttemptInv(g, w.methods, w.ledger, x)
    ensures AttemptInv(g, w.methods, w.ledger, w.attempts[a])
  {
    forall x | x in w.attempts[a := Closed] ensures AttemptInv(g, w.methods, w.ledger, x) {
      var k :| 0 <= k < |w.attempts| && w.attempts[a := Closed][k] == x;
      assert w.attempts[k] in w.attempts;
    }
  }

  lemma EnrolledLedger(w: World, s: Step, attempts: seq<Attempt>, log: seq<Event>)
    requires LedgerInv(w) && s.Enroll? && Fresh(w, s)
    ensures LedgerInv(World(w.enrollments[s.enrollmentId := s.enrollment], w.methods,
                            w.ledger[s.enrollmentId := s.enrollment], attempts, log))
  {
    var ledger := w.ledger[s.enrollmentId := s.enrollment];
    forall m | m in w.methods ensures exists e :: e in ledger && ledger[e].methodId == m {
      var e :| e in w.ledger && w.ledger[e].methodId == m;
      assert ledger[e].methodId == m;
    }
  }

  lemma LedgerMayGrow(ledger: Enrollments, ledger': Enrollments, ms: Methods, log: seq<Event>, log': seq<Event>, m: string)
    requires FromLedger(ledger, ms, log, m) && Acceptances(log', m) == Acceptances(log, m)
    requires forall e :: e in ledger ==> e in ledger' && ledger'[e] == ledger[e]
    ensures FromLedger(ledger', ms, log', m)
  {
    if m in ms {
      var e :| e in ledger && ActivatedBy(ledger[e], ms[m], Acceptances(log, m)[0]);
      assert ActivatedBy(ledger'[e], ms[m], Acceptances(log', m)[0]);
    }
  }

  lemma EnrollKeeps(g: Generator, w: World, s: Step)
    requires Inv(g, w) && s.Enroll? && Fresh(w, s)
    ensures Inv(g, Next(g, w, s))
  {
    var w' := Next(g, w, s);
    QuietKeeps(g, w, w.attempts);
    EnrolledLedger(w, s, w'.attempts, w'.log);
    forall a | a in w'.attempts ensures AttemptInv(g, w'.methods, w'.ledger, a) {
      assert AttemptInv(g, w.methods, w.ledger, a);
    }
    forall m ensures FromLedger(w'.ledger, w'.methods, w'.log, m) {
      Unfold(w.log, Nothing, m);
      LedgerMayGrow(w.ledger, w'.ledger, w.methods, w.log, w'.log, m);
    }
  }

  lemma VerifyKeeps(g: Generator, w: World, a: nat, withRecoveryCodes: bool)
    requires Inv(g, w) && a < |w.attempts| && w.attempts[a].Verifying?
    ensures Inv(g, DoCommit(w, a, withRecoveryCodes))
  {
    var w' := DoCommit(w, a, withRecoveryCodes);
    ReplacedInv(g, w, a);
    QuietKeeps(g, w, w.attempts[a := Closed]);
    var Verifying(m, accountId, counter, clock, code) := w.attempts[a];
    if counter > w.methods[m].lastCounter {
      var e := Accepted(m, accountId, counter, clock, code);
      forall x ensures MethodInv(g, w'.methods, w'.log, x) && FromLedger(w'.ledger, w'.methods, w'.log, x) {
        Unfold(w.log, e, x);
        assert MethodInv(g, w.methods, w.log, x) && FromLedger(w.ledger, w.methods, w.log, x);
        if x == m {
          AppendedInOrder(Acceptances(w.log, m), e);
        }
      }
      forall x | x in w'.attempts ensures AttemptInv(g, w'.methods, w'.ledger, x) {
        assert AttemptInv(g, w.methods, w.ledger, x);
      }
    }
  }

  lemma AppendedInOrder(accepted: seq<Event>, e: Event)
    requires forall i :: 0 <= i < |accepted| ==> accepted[i].Accepted?
    requires forall i, j :: 0 <= i < j < |accepted| ==> accepted[i].counter < accepted[j].counter
    requires e.Accepted? && (accepted != [] ==> accepted[|accepted| - 1].counter < e.counter)
    ensures var more := accepted + [e];
      forall i, j :: 0 <= i < j < |more| ==> more[i].Accepted? && more[j].Accepted? && more[i].counter < more[j].counter
  {
  }

  /** The first acceptance of a method, which leaves the other methods as they were. */
  lemma ActivatedMethods(g: Generator, w: World, id: string, e: Event, methods: Methods)
    requires Inv(g, w) && id in w.enrollments && e.Accepted? && e.methodId == w.enrollments[id].methodId
    requires e.accountId == w.enrollments[id].accountId
    requires Justified(g, e.counter, e.clock, e.code, w.enrollments[id].secret, w.enrollments[id].policy)
    requires methods == w.methods[e.methodId := Activated(w.enrollments[id], e.counter)]
    ensures forall x :: MethodInv(g, methods, w.log + [e], x)
  {
    assert e.methodId !in w.methods;
    forall x ensures MethodInv(g, methods, w.log + [e], x) {
      Unfold(w.log, e, x);
      assert MethodInv(g, w.methods, w.log, x);
    }
  }

  lemma ActivatedFrom(g: Generator, w: World, id: string, e: Event, methods: Methods, x: string)
    requires Inv(g, w) && id in w.enrollments && e.Accepted? && e.methodId == w.enrollments[id].methodId
    requires e.accountId == w.enrollments[id].accountId && e.clock < w.enrollments[id].expiresAt
    requires methods == w.methods[e.methodId := Activated(w.enrollments[id], e.counter)]
    ensures FromLedger(w.ledger, methods, w.log + [e], x)
  {
    Unfold(w.log, e, x);
    assert MethodInv(g, w.methods, w.log, x) && FromLedger(w.ledger, w.methods, w.log, x);
    if x == e.methodId {
      assert e.methodId !in w.methods && Acceptances(w.log, x) == [];
      FirstAcceptance(w, id, e, methods);
    }
  }

  lemma FirstAcceptance(w: World, id: string, e: Event, methods: Methods)
    requires LedgerInv(w) && id in w.enrollments && e.Accepted? && e.methodId == w.enrollments[id].methodId
    requires e.accountId == w.enrollments[id].accountId && e.clock < w.enrollments[id].expiresAt
    requires methods == w.methods[e.methodId := Activated(w.enrollments[id], e.counter)]
    requires Acceptances(w.log + [e], e.methodId) == [e]
    ensures FromLedger(w.ledger, methods, w.log + [e], e.methodId)
  {
    assert ActivatedBy(w.ledger[id], methods[e.methodId], e);
  }

  lemma ActivatedLedger(w: World, id: string, stored: Method, attempts: seq<Attempt>, log: seq<Event>)
    requires LedgerInv(w) && id in w.enrollments
    ensures LedgerInv(World(w.enrollments - {id}, w.methods[w.enrollments[id].methodId := stored], w.ledger, attempts, log))
  {
    assert w.ledger[id].methodId == w.enrollments[id].methodId;
    var methods := w.methods[w.enrollments[id].methodId := stored];
    forall m | m in methods ensures exists e :: e in w.ledger && w.ledger[e].methodId == m {
      if m != w.ledger[id].methodId {
        assert m in w.methods;
      }
    }
  }

  lemma RefusedActivation(g: Generator, w: World, id: string)
    requires Inv(g, w)
    ensures Inv(g, w.(enrollments := w.enrollments - {id}))
  {
  }

  lemma ActivateKeeps(g: Generator, w: World, a: nat, withRecoveryCodes: bool)
    requires Inv(g, w) && a < |w.attempts| && w.attempts[a].Activating?
    ensures Inv(g, DoCommit(w, a, withRecoveryCodes))
  {
    var w' := DoCommit(w, a, withRecoveryCodes);
    ReplacedInv(g, w, a);
    var Activating(id, accountId, counter, clock, code) := w.attempts[a];
    if Usable(w.enrollments, accountId, id, clock) {
      ActivatedMethods(g, w, id, w'.log[|w.log|], w'.methods);
      forall x ensures FromLedger(w'.ledger, w'.methods, w'.log, x) {
        ActivatedFrom(g, w, id, w'.log[|w.log|], w'.methods, x);
      }
      ActivatedLedger(w, id, Activated(w.enrollments[id], counter), w'.attempts, w'.log);
      forall x | x in w'.attempts ensures AttemptInv(g, w'.methods, w'.ledger, x) {
        assert AttemptInv(g, w.methods, w.ledger, x);
      }
    } else {
      QuietKeeps(g, w, w.attempts[a := Closed]);
      RefusedActivation(g, w.(attempts := w.attempts[a := Closed], log := w.log + [Nothing]), id);
    }
  }

  lemma NextKeeps(g: Generator, w: World, s: Step)
    requires Inv(g, w) && Fresh(w, s)
    ensures Inv(g, Next(g, w, s))
  {
    QuietKeeps(g, w, w.attempts);
    match s
    case Enroll(_, _) => EnrollKeeps(g, w, s);
    case Commit(a, withRecoveryCodes) =>
      if a < |w.attempts| {
        match w.attempts[a] {
          case Verifying(_, _, _, _, _) => VerifyKeeps(g, w, a, withRecoveryCodes);
          case Activating(_, _, _, _, _) => ActivateKeeps(g, w, a, withRecoveryCodes);
          case Closed =>
        }
      }
    case Drop(a) =>
      if a < |w.attempts| {
        ReplacedInv(g, w, a);
        QuietKeeps(g, w, w.attempts[a := Closed]);
      }
    case _ => QuietKeeps(g, w, Next(g, w, s).attempts);
  }

  lemma {:induction false} RunKeeps(g: Generator, w: World, steps: seq<Step>)
    requires Inv(g, w) && Admissible(g, w, steps)
    ensures Inv(g, Run(g, w, steps))
  {
    if steps != [] {
      RunKeeps(g, w, steps[..|steps| - 1]);
      NextKeeps(g, Run(g, w, steps[..|steps| - 1]), steps[|steps| - 1]);
    }
  }

  lemma StartInv(g: Generator)
    ensures Inv(g, START)
  {
    assert forall m :: MethodInv(g, START.methods, START.log, m);
  }

  // --------------------------------------------------------------------- main theorems

  /**
   Over every interleaving, a method's accepted counters strictly increase, so none is
   accepted twice; each was presented for the method's own account, and lies in the drift window of its request's clock, and its code was
   the password at that counter and at no later one of the window.
   */
  lemma AcceptedCountersIncrease(g: Generator, steps: seq<Step>, m: string, j: nat)
    requires Admissible(g, START, steps) && j < |Acceptances(Run(g, START, steps).log, m)|
    ensures var w := Run(g, START, steps);
      var accepted := Acceptances(w.log, m);
      && m in w.methods && accepted[j].Accepted?
      && (forall i :: 0 <= i < j ==> accepted[i].Accepted? && accepted[i].counter < accepted[j].counter)
      && accepted[j].accountId == w.methods[m].accountId
      && (var Accepted(_, _, counter, clock, code) := accepted[j];
          && InWindow(counter, clock, w.methods[m].policy) && Matches(g, w.methods[m].secret, counter, code)
          && forall c :: c > counter && InWindow(c, clock, w.methods[m].policy) ==> !Matches(g, w.methods[m].secret, c, code))
  {
    var w := Run(g, START, steps);
    StartInv(g);
    RunKeeps(g, START, steps);
    assert MethodInv(g, w.methods, w.log, m);
    var e, stored := Acceptances(w.log, m)[j], w.methods[m];
    AcceptedExactly(g, stored.secret, e.code, e.clock, stored.policy, e.counter);
  }

  /** The acceptances whose clock reading lies in the interval. */
  function ReadWithin(accepted: seq<Event>, t0: int, t1: int): seq<Event> {
    if accepted == [] then []
    else
      var before, last := ReadWithin(accepted[..|accepted| - 1], t0, t1), accepted[|accepted| - 1];
      if last.Accepted? && t0 <= last.clock <= t1 then before + [last] else before
  }

  lemma {:induction false} StepsAreMonotone(s: int, t: int, p: TotpPolicy)
    requires s <= t
    ensures Current(s, p) <= Current(t, p)
  {
    assert Seconds(s) <= Seconds(t);
    FloorMonotone(Seconds(s), Seconds(t), p.period);
  }

  lemma FloorMonotone(a: int, b: int, n: nat)
    requires a <= b && n >= 1
    ensures a / n <= b / n
  {
    assert (b / n + 1 - a / n) * n > 0;
  }

  /** Strictly increasing integers between two bounds are at most as many as the interval holds. */
  lemma {:induction false} IncreasingFits(accepted: seq<Event>, t0: int, t1: int, low: int, high: int)
    requires low <= high + 1
    requires forall i :: 0 <= i < |accepted| ==> accepted[i].Accepted?
    requires forall i :: 0 <= i < |accepted| && t0 <= accepted[i].clock <= t1 ==> low <= accepted[i].counter <= high
    requires forall i, j :: 0 <= i < j < |accepted| ==> accepted[i].counter < accepted[j].counter
    ensures |ReadWithin(accepted, t0, t1)| <= high - low + 1
  {
    if accepted != [] {
      var before, last := accepted[..|accepted| - 1], accepted[|accepted| - 1];
      if t0 <= last.clock <= t1 {
        assert low <= last.counter;
        forall i | 0 <= i < |before| && t0 <= before[i].clock <= t1 ensures before[i].counter <= last.counter - 1 {
          assert accepted[i].counter < accepted[|accepted| - 1].counter;
        }
        IncreasingFits(before, t0, t1, low, last.counter - 1);
      } else {
        IncreasingFits(before, t0, t1, low, high);
      }
    }
  }

  /**
   Between two clock readings a method accepts at most as many codes as there are time
   steps between them, plus the drift on both sides.
   */
  lemma AcceptancesAreBounded(g: Generator, steps: seq<Step>, m: string, t0: int, t1: int)
    requires Admissible(g, START, steps) && m in Run(g, START, steps).methods && t0 <= t1
    ensures var w := Run(g, START, steps);
      var p := w.methods[m].policy;
      |ReadWithin(Acceptances(w.log, m), t0, t1)| <= Current(t1, p) - Current(t0, p) + 2 * p.drift + 1
  {
    var w := Run(g, START, steps);
    StartInv(g);
    RunKeeps(g, START, steps);
    assert MethodInv(g, w.methods, w.log, m);
    var accepted, p := Acceptances(w.log, m), w.methods[m].policy;
    forall i | 0 <= i < |accepted| && t0 <= accepted[i].clock <= t1
      ensures Current(t0, p) - p.drift <= accepted[i].counter <= Current(t1, p) + p.drift
    {
      var e := accepted[i];
      AcceptedExactly(g, w.methods[m].secret, e.code, e.clock, p, e.counter);
      StepsAreMonotone(t0, e.clock, p);
      StepsAreMonotone(e.clock, t1, p);
    }
    StepsAreMonotone(t0, t1, p);
    IncreasingFits(accepted, t0, t1, Current(t0, p) - p.drift, Current(t1, p) + p.drift);
  }

  /** A verification that passed its checks wins exactly if its counter is above everything accepted so far. */
  lemma CommitWinsExactly(g: Generator, w: World, a: nat, withRecoveryCodes: bool)
    requires Inv(g, w) && a < |w.attempts| && w.attempts[a].Verifying?
    ensures var Verifying(m, _, counter, _, _) := w.attempts[a];
      var w' := DoCommit(w, a, withRecoveryCodes);
      w'.log[|w.log|].Accepted? <==>
        forall i :: 0 <= i < |Acceptances(w.log, m)| ==>
          Acceptances(w.log, m)[i].Accepted? && Acceptances(w.log, m)[i].counter < counter
  {
    var m := w.attempts[a].methodId;
    ReplacedInv(g, w, a);
    assert MethodInv(g, w.methods, w.log, m);
    var accepted := Acceptances(w.log, m);
    assert accepted[|accepted| - 1].counter == w.methods[m].lastCounter;
  }

  /**
   A method is the enrollment it was activated from, by a code accepted for the enrollment's
   account before the enrollment expired.
   */
  lemma ActivatedFromEnrollment(g: Generator, steps: seq<Step>, m: string)
    requires Admissible(g, START, steps) && m in Run(g, START, steps).methods
    ensures var w := Run(g, START, steps);
      && Acceptances(w.log, m) != []
      && exists e :: e in w.ledger && ActivatedBy(w.ledger[e], w.methods[m], Acceptances(w.log, m)[0])
  {
    StartInv(g);
    RunKeeps(g, START, steps);
    assert FromLedger(Run(g, START, steps).ledger, Run(g, START, steps).methods, Run(g, START, steps).log, m);
  }

  /** The counter is above all counters accepted so far. */
  ghost predicate AboveAll(accepted: seq<Event>, counter: int) {
    forall i :: 0 <= i < |accepted| ==> accepted[i].Accepted? && accepted[i].counter < counter
  }

  lemma AboveAllExactly(g: Generator, ms: Methods, log: seq<Event>, m: string, counter: int)
    requires m in ms && MethodInv(g, ms, log, m)
    ensures AboveAll(Acceptances(log, m), counter) <==> ms[m].lastCounter < counter
  {
    var accepted := Acceptances(log, m);
    var last := |accepted| - 1;
    forall i | 0 <= i < |accepted| ensures accepted[i].Accepted? && accepted[i].counter <= accepted[last].counter {
      assert i < last ==> accepted[i].counter < accepted[last].counter;
    }
  }

  /**
   A verification gets past its checks exactly if the method was activated, for the account
   that asks, and the code is accepted at a counter above all counters accepted so far.
   */
  lemma OpensExactly(g: Generator, steps: seq<Step>, accountId: string, m: string, code: string, clock: int)
    requires Admissible(g, START, steps)
    ensures var w := Run(g, START, steps);
      var w' := Next(g, w, OpenVerification(accountId, m, code, clock));
      var accepted := Acceptances(w.log, m);
      && (m in w.methods <==> accepted != [])
      && (|w'.attempts| > |w.attempts| <==>
            && m in w.methods && accepted[0].Accepted? && accepted[0].accountId == accountId
            && exists counter ::
                 AcceptedCounter(g, w.methods[m].secret, code, clock, w.methods[m].policy) == Some(counter)
                 && AboveAll(accepted, counter))
  {
    StartInv(g);
    RunKeeps(g, START, steps);
    var w := Run(g, START, steps);
    assert MethodInv(g, w.methods, w.log, m);
    if m in w.methods {
      var counter := AcceptedCounter(g, w.methods[m].secret, code, clock, w.methods[m].policy);
      if counter.Some? {
        AboveAllExactly(g, w.methods, w.log, m, counter.value);
      }
    }
  }

  /** An activation that passed its checks wins exactly if its enrollment is still pending for that account and in time. */
  lemma ActivationWinsExactly(g: Generator, w: World, a: nat, withRecoveryCodes: bool)
    requires a < |w.attempts| && w.attempts[a].Activating?
    ensures var Activating(id, accountId, counter, clock, code) := w.attempts[a];
      var w' := DoCommit(w, a, withRecoveryCodes);
      var pending := id in w.enrollments && w.enrollments[id].accountId == accountId && clock < w.enrollments[id].expiresAt;
      && (w'.log[|w.log|].Accepted? <==> pending)
      && (id in w'.enrollments <==> id in w.enrollments && !pending && withRecoveryCodes)
  {
  }
}
