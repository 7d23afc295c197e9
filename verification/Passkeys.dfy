/**
 Signature counters of passkeys: any number of assertions, each one a load and a later
 compare-and-set on the credential's version, interleaved with renames and registrations.
 What the WebAuthn library makes of a response is an arbitrary verified result, or a drop.
 */
module Passkeys {
  import opened Prelude

  /** The stored fields that change, and the two that guard changes. */
  datatype Credential = Credential(
    accountId: string,
    backupEligible: bool,
    signCount: nat,
    backupState: bool,
    suspect: bool,
    version: nat,
    displayName: Option<string>,
    lastUsedAt: Option<int>)

  datatype Status = Recorded | CloneRisk | Conflict

  type Table = map<Bytes, Credential>

  // --------------------------------------------------------------------------- store

  function AfterAssertion(before: Credential, signCount: nat, backupState: bool, cloneRisk: bool, now: int): Credential {
    before.(signCount := signCount, backupState := backupState, suspect := before.suspect || cloneRisk,
          lastUsedAt := Some(now), version := before.version + 1)
  }

  function RecordAssertion(t: Table, id: Bytes, expectedVersion: nat, signCount: nat, backupEligible: bool,
                           backupState: bool,
                           cloneRisk: bool, now: int): (Table, Status)
  {
    if id !in t || t[id].version != expectedVersion || t[id].backupEligible != backupEligible then (t, Conflict)
    else (t[id := AfterAssertion(t[id], signCount, backupState, cloneRisk, now)], if cloneRisk then CloneRisk else Recorded)
  }

  function RenameCredential(t: Table, accountId: string, id: Bytes, displayName: string): (Table, Option<Credential>) {
    if id !in t || t[id].accountId != accountId then (t, None)
    else
      var updated := t[id].(displayName := Some(displayName), version := t[id].version + 1);
      (t[id := updated], Some(updated))
  }

  class InMemoryPasskeyStore {
    var credentials: Table

    constructor ()
      ensures credentials == map[]
    {
      credentials := map[];
    }

    method AddCredential(id: Bytes, credential: Credential) returns (added: bool)
      modifies this
      ensures added == (id !in old(credentials))
      ensures credentials == if added then old(credentials)[id := credential] else old(credentials)
    {
      if id in credentials {
        return false;
      }
      credentials := credentials[id := credential];
      return true;
    }

    method Record(id: Bytes, expectedVersion: nat, signCount: nat, backupEligible: bool, backupState: bool,
                  cloneRisk: bool, now: int) returns (status: Status)
      modifies this
      ensures (credentials, status)
              == RecordAssertion(old(credentials), id, expectedVersion, signCount, backupEligible, backupState, cloneRisk, now)
      ensures status.Conflict? <==>
              || id !in old(credentials) || old(credentials)[id].version != expectedVersion
              || old(credentials)[id].backupEligible != backupEligible
      ensures status.Conflict? ==> credentials == old(credentials)
    {
      if id !in credentials {
        return Conflict;
      }
      var credential := credentials[id];
      if credential.version != expectedVersion || credential.backupEligible != backupEligible {
        return Conflict;
      }
      credentials := credentials[id := credential.(
        signCount := signCount, backupState := backupState, suspect := credential.suspect || cloneRisk,
        lastUsedAt := Some(now), version := credential.version + 1)];
      return if cloneRisk then CloneRisk else Recorded;
    }

    method Rename(accountId: string, id: Bytes, displayName: string) returns (renamed: Option<Credential>)
      modifies this
      ensures (credentials, renamed) == RenameCredential(old(credentials), accountId, id, displayName)
      ensures renamed.Some? <==> id in old(credentials) && old(credentials)[id].accountId == accountId
    {
      if id !in credentials || credentials[id].accountId != accountId {
        return None;
      }
      var updated := credentials[id].(displayName := Some(displayName), version := credentials[id].version + 1);
      credentials := credentials[id := updated];
      return Some(updated);
    }
  }

  // ------------------------------------------------------------------- the step machine

  datatype Policy = Reject | AuditOnly

  /** What the library reports about a response. */
  datatype Verified = Verified(credentialId: Bytes, signCount: nat, backupEligible: bool, backupState: bool)

  /** An assertion between its load and its write, and the account it authenticates. */
  datatype Attempt = Attempt(accountId: string, id: Bytes, snapshot: Credential, open: bool)

  datatype Event =
    | Nothing
    | Created(id: Bytes, credential: Credential)
    | Renamed(id: Bytes, accountId: string, version: nat, displayName: string)
    | Asserted(id: Bytes, accountId: string, version: nat, signCount: nat, backupState: bool, now: int, flagged: bool,
               accepted: bool)

  datatype World = World(table: Table, attempts: seq<Attempt>, log: seq<Event>)

  const START := World(map[], [], [])

  datatype Step =
    | Add(id: Bytes, credential: Credential)
    | Rename(accountId: string, id: Bytes, displayName: string)
    | Load(accountId: string, id: Bytes)
    | Finish(a: nat, verified: Verified, now: int)
    | Drop(a: nat)

  function Max(a: nat, b: nat): nat {
    if a < b then b else a
  }

  function Close(attempts: seq<Attempt>, a: nat): seq<Attempt>
    requires a < |attempts|
  {
    attempts[a := attempts[a].(open := false)]
  }

  /** `verify_authentication` after the load. */
  function DoFinish(policy: Policy, w: World, a: nat, v: Verified, now: int): World
    requires a < |w.attempts|
  {
    var Attempt(accountId, id, credential, _) := w.attempts[a];
    var closed := Close(w.attempts, a);
    if v.credentialId != id || v.backupEligible != credential.backupEligible || (!v.backupEligible && v.backupState) then
      World(w.table, closed, w.log + [Nothing])
    else
      var cloneRisk := credential.signCount > 0 && v.signCount <= credential.signCount;
      var (table, status) := RecordAssertion(w.table, id, credential.version, Max(credential.signCount, v.signCount),
                                             v.backupEligible, v.backupState, cloneRisk, now);
      if status.Conflict? then World(w.table, closed, w.log + [Nothing])
      else
        var accepted := !(status.CloneRisk? && policy.Reject?);
        World(table, closed, w.log + [
          Asserted(id, accountId, credential.version, v.signCount, v.backupState, now, status.CloneRisk?, accepted)])
  }

  function Next(policy: Policy, w: World, s: Step): World {
    match s
    case Add(id, credential) =>
      if id in w.table then w.(log := w.log + [Nothing])
      else w.(table := w.table[id := credential], log := w.log + [Created(id, credential)])
    case Rename(accountId, id, displayName) =>
      var (table, renamed) := RenameCredential(w.table, accountId, id, displayName);
      w.(table := table, log := w.log + [if renamed.None? then Nothing else Renamed(id, accountId, w.table[id].version, displayName)])
    case Load(accountId, id) =>
      if id !in w.table || w.table[id].accountId != accountId then w.(log := w.log + [Nothing])
      else w.(attempts := w.attempts + [Attempt(accountId, id, w.table[id], true)], log := w.log + [Nothing])
    case Finish(a, verified, now) =>
      if a < |w.attempts| && w.attempts[a].open then DoFinish(policy, w, a, verified, now) else w.(log := w.log + [Nothing])
    case Drop(a) =>
      if a < |w.attempts| then w.(attempts := Close(w.attempts, a), log := w.log + [Nothing]) else w.(log := w.log + [Nothing])
  }

  function Run(policy: Policy, w: World, steps: seq<Step>): World {
    if steps == [] then w else Next(policy, Run(policy, w, steps[..|steps| - 1]), steps[|steps| - 1])
  }

  // -------------------------------------------------------------------------- history

  function Original(log: seq<Event>, id: Bytes): Option<Credential> {
    if log == [] then None
    else
      var last := log[|log| - 1];
      if last.Created? && last.id == id then Some(last.credential) else Original(log[..|log| - 1], id)
  }

  /** The version values that updates of the credential consumed. */
  function Consumed(log: seq<Event>, id: Bytes): seq<nat> {
    if log == [] then []
    else
      var last := log[|log| - 1];
      Consumed(log[..|log| - 1], id) + if (last.Renamed? || last.Asserted?) && last.id == id then [last.version] else []
  }

  /** The counters of its unflagged assertions. */
  function Unflagged(log: seq<Event>, id: Bytes): seq<nat> {
    if log == [] then []
    else
      var last := log[|log| - 1];
      Unflagged(log[..|log| - 1], id) + if last.Asserted? && last.id == id && !last.flagged then [last.signCount] else []
  }

  function AcceptedCounts(log: seq<Event>, id: Bytes): seq<nat> {
    if log == [] then []
    else
      var last := log[|log| - 1];
      AcceptedCounts(log[..|log| - 1], id) + if last.Asserted? && last.id == id && last.accepted then [last.signCount] else []
  }

  /** The latest name given to the credential. */
  function LastName(log: seq<Event>, id: Bytes): Option<string> {
    if log == [] then None
    else
      var last := log[|log| - 1];
      if last.Renamed? && last.id == id then Some(last.displayName) else LastName(log[..|log| - 1], id)
  }

  /** Backup state and time of the latest recorded assertion. */
  function LastUse(log: seq<Event>, id: Bytes): Option<(bool, int)> {
    if log == [] then None
    else
      var last := log[|log| - 1];
      if last.Asserted? && last.id == id then Some((last.backupState, last.now)) else LastUse(log[..|log| - 1], id)
  }

  ghost predicate EverFlagged(log: seq<Event>, id: Bytes) {
    exists k :: 0 <= k < |log| && log[k].Asserted? && log[k].id == id && log[k].flagged
  }

  /** Zeros, then strictly increasing positive counters. */
  ghost predicate ZerosThenIncreasing(counts: seq<nat>) {
    forall i, j :: 0 <= i < j < |counts| ==> counts[i] < counts[j] || counts[i] == counts[j] == 0
  }

  lemma Unfold(log: seq<Event>, e: Event, id: Bytes)
    ensures Original(log + [e], id) == if e.Created? && e.id == id then Some(e.credential) else Original(log, id)
    ensures Consumed(log + [e], id)
            == if (e.Renamed? || e.Asserted?) && e.id == id then Consumed(log, id) + [e.version] else Consumed(log, id)
    ensures Unflagged(log + [e], id)
            == if e.Asserted? && e.id == id && !e.flagged then Unflagged(log, id) + [e.signCount] else Unflagged(log, id)
    ensures AcceptedCounts(log + [e], id)
            == if e.Asserted? && e.id == id && e.accepted then AcceptedCounts(log, id) + [e.signCount]
               else AcceptedCounts(log, id)
    ensures LastName(log + [e], id) == if e.Renamed? && e.id == id then Some(e.displayName) else LastName(log, id)
    ensures LastUse(log + [e], id) == if e.Asserted? && e.id == id then Some((e.backupState, e.now)) else LastUse(log, id)
    ensures EverFlagged(log + [e], id) <==> EverFlagged(log, id) || (e.Asserted? && e.id == id && e.flagged)
  {
    SnocSplit(log, e);
    var more := log + [e];
    assert Consumed(log, id) + [] == Consumed(log, id) && Unflagged(log, id) + [] == Unflagged(log, id);
    assert AcceptedCounts(log, id) + [] == AcceptedCounts(log, id);
    if EverFlagged(log, id) {
      var k :| 0 <= k < |log| && log[k].Asserted? && log[k].id == id && log[k].flagged;
      assert more[k] == log[k];
    }
    assert more[|log|] == e;
  }

  // ------------------------------------------------------------------------ invariant

  /** The stored credential is determined by the original one and the history. */
  ghost predicate CredentialInv(log: seq<Event>, id: Bytes, stored: Credential) {
    && Original(log, id).Some?
    && var original, consumed, counts := Original(log, id).value, Consumed(log, id), Unflagged(log, id);
    && stored.accountId == original.accountId && stored.backupEligible == original.backupEligible
    && stored.version == original.version + |consumed|
    && (forall k :: 0 <= k < |consumed| ==> consumed[k] == original.version + k)
    && (stored.suspect <==> original.suspect || EverFlagged(log, id))
    && stored.signCount == ([original.signCount] + counts)[|counts|]
    && ZerosThenIncreasing([original.signCount] + counts)
    && DetailsOk(log, id, original, stored)
  }

  /** Name, backup state and last use come from the latest event that set them. */
  predicate DetailsOk(log: seq<Event>, id: Bytes, original: Credential, stored: Credential) {
    && stored.displayName == (if LastName(log, id).Some? then LastName(log, id) else original.displayName)
    && stored.backupState == (if LastUse(log, id).Some? then LastUse(log, id).value.0 else original.backupState)
    && stored.lastUsedAt == (if LastUse(log, id).Some? then Some(LastUse(log, id).value.1) else original.lastUsedAt)
  }

  ghost predicate AttemptInv(t: Table, a: Attempt) {
    && a.id in t && t[a.id].accountId == a.accountId && a.snapshot.version <= t[a.id].version
    && (a.snapshot.version == t[a.id].version ==> a.snapshot == t[a.id])
  }

  /** Who used or renamed a credential is the account it was registered for. */
  predicate ByOwner(log: seq<Event>, e: Event) {
    e.Renamed? || e.Asserted? ==> Original(log, e.id).Some? && Original(log, e.id).value.accountId == e.accountId
  }

  ghost predicate IdInv(t: Table, log: seq<Event>, id: Bytes) {
    if id in t then CredentialInv(log, id, t[id])
    else
      && Original(log, id).None? && Consumed(log, id) == [] && Unflagged(log, id) == [] && !EverFlagged(log, id)
      && LastName(log, id).None? && LastUse(log, id).None?
  }

  ghost predicate Inv(w: World) {
    && (forall id :: IdInv(w.table, w.log, id))
    && (forall k :: 0 <= k < |w.log| ==> ByOwner(w.log, w.log[k]))
    && (forall a :: a in w.attempts ==> AttemptInv(w.table, a))
  }

  /** Originals do not change, so the owners recorded so far stand. */
  lemma OwnersKept(w: World, e: Event)
    requires Inv(w) && ByOwner(w.log + [e], e) && (e.Created? ==> e.id !in w.table)
    ensures forall k :: 0 <= k < |w.log + [e]| ==> ByOwner(w.log + [e], (w.log + [e])[k])
  {
    forall k | 0 <= k < |w.log| ensures ByOwner(w.log + [e], w.log[k]) {
      assert ByOwner(w.log, w.log[k]);
      if w.log[k].Renamed? || w.log[k].Asserted? {
        Unfold(w.log, e, w.log[k].id);
        assert IdInv(w.table, w.log, w.log[k].id);
      }
    }
  }

  lemma QuietKeeps(w: World, attempts: seq<Attempt>)
    requires Inv(w) && forall a :: a in attempts ==> AttemptInv(w.table, a)
    ensures Inv(World(w.table, attempts, w.log + [Nothing]))
  {
    OwnersKept(w, Nothing);
    forall id ensures IdInv(w.table, w.log + [Nothing], id) {
      Unfold(w.log, Nothing, id);
      assert IdInv(w.table, w.log, id);
    }
  }

  lemma ClosedInv(t: Table, attempts: seq<Attempt>, a: nat)
    requires a < |attempts| && forall x :: x in attempts ==> AttemptInv(t, x)
    ensures forall x :: x in Close(attempts, a) ==> AttemptInv(t, x)
  {
    assert AttemptInv(t, attempts[a]);
    forall x | x in Close(attempts, a) ensures AttemptInv(t, x) {
      var k :| 0 <= k < |attempts| && Close(attempts, a)[k] == x;
      assert attempts[k] in attempts;
    }
  }

  /** An event about one credential, which moves to a new version, leaves everything else as it was. */
  lemma UpdateKeeps(w: World, attempts: seq<Attempt>, e: Event, id: Bytes, updated: Credential)
    requires Inv(w) && id in w.table && (forall a :: a in attempts ==> AttemptInv(w.table, a))
    requires (e.Renamed? || e.Asserted?) && e.id == id && e.accountId == w.table[id].accountId
    requires updated.version == w.table[id].version + 1 && updated.accountId == w.table[id].accountId
    requires CredentialInv(w.log + [e], id, updated)
    ensures Inv(World(w.table[id := updated], attempts, w.log + [e]))
  {
    var table := w.table[id := updated];
    Unfold(w.log, e, id);
    assert IdInv(w.table, w.log, id);
    OwnersKept(w, e);
    forall x ensures IdInv(table, w.log + [e], x) {
      Unfold(w.log, e, x);
      assert IdInv(w.table, w.log, x);
    }
    forall a | a in attempts ensures AttemptInv(table, a) {
      assert AttemptInv(w.table, a);
    }
  }

  lemma RenamedInv(log: seq<Event>, id: Bytes, stored: Credential, displayName: string)
    requires CredentialInv(log, id, stored)
    ensures CredentialInv(log + [Renamed(id, stored.accountId, stored.version, displayName)], id,
                          stored.(displayName := Some(displayName), version := stored.version + 1))
  {
    Unfold(log, Renamed(id, stored.accountId, stored.version, displayName), id);
  }

  lemma OneMoreCount(counts: seq<nat>, count: nat)
    requires counts != [] && ZerosThenIncreasing(counts)
    requires counts[|counts| - 1] == 0 || count > counts[|counts| - 1]
    ensures ZerosThenIncreasing(counts + [count])
  {
    var last := |counts| - 1;
    assert forall i :: 0 <= i < last ==> counts[i] < counts[last] || counts[i] == counts[last] == 0;
  }

  lemma AssertedInv(log: seq<Event>, id: Bytes, stored: Credential, signCount: nat, backupState: bool,
                    accepted: bool, now: int)
    requires CredentialInv(log, id, stored)
    ensures var flagged := stored.signCount > 0 && signCount <= stored.signCount;
      CredentialInv(log + [Asserted(id, stored.accountId, stored.version, signCount, backupState, now, flagged, accepted)], id,
                    AfterAssertion(stored, Max(stored.signCount, signCount), backupState, flagged, now))
  {
    var flagged := stored.signCount > 0 && signCount <= stored.signCount;
    var e := Asserted(id, stored.accountId, stored.version, signCount, backupState, now, flagged, accepted);
    Unfold(log, e, id);
    var counts := [Original(log, id).value.signCount] + Unflagged(log, id);
    if !flagged {
      assert [Original(log, id).value.signCount] + Unflagged(log + [e], id) == counts + [signCount];
      OneMoreCount(counts, signCount);
    }
  }

  lemma FinishKeeps(policy: Policy, w: World, a: nat, v: Verified, now: int)
    requires Inv(w) && a < |w.attempts|
    ensures Inv(DoFinish(policy, w, a, v, now))
  {
    var id, credential := w.attempts[a].id, w.attempts[a].snapshot;
    assert AttemptInv(w.table, w.attempts[a]) && IdInv(w.table, w.log, id);
    ClosedInv(w.table, w.attempts, a);
    QuietKeeps(w, Close(w.attempts, a));
    var flagged := credential.signCount > 0 && v.signCount <= credential.signCount;
    if credential == w.table[id] {
      var accepted := !(flagged && policy.Reject?);
      AssertedInv(w.log, id, credential, v.signCount, v.backupState, accepted, now);
      UpdateKeeps(w, Close(w.attempts, a),
                  Asserted(id, credential.accountId, credential.version, v.signCount, v.backupState, now, flagged, accepted), id,
                  AfterAssertion(credential, Max(credential.signCount, v.signCount), v.backupState, flagged, now));
    }
  }

  lemma AddKeeps(w: World, id: Bytes, credential: Credential)
    requires Inv(w) && id !in w.table
    ensures Inv(w.(table := w.table[id := credential], log := w.log + [Created(id, credential)]))
  {
    var e, table := Created(id, credential), w.table[id := credential];
    OwnersKept(w, e);
    forall x ensures IdInv(table, w.log + [e], x) {
      Unfold(w.log, e, x);
      assert IdInv(w.table, w.log, x);
    }
    assert forall a :: a in w.attempts ==> AttemptInv(w.table, a);
  }

  lemma NextKeeps(policy: Policy, w: World, s: Step)
    requires Inv(w)
    ensures Inv(Next(policy, w, s))
  {
    QuietKeeps(w, w.attempts);
    match s
    case Add(id, credential) => if id !in w.table { AddKeeps(w, id, credential); }
    case Rename(accountId, id, displayName) =>
      if id in w.table && w.table[id].accountId == accountId {
        assert IdInv(w.table, w.log, id);
        RenamedInv(w.log, id, w.table[id], displayName);
        UpdateKeeps(w, w.attempts, Renamed(id, accountId, w.table[id].version, displayName), id,
                    w.table[id].(displayName := Some(displayName), version := w.table[id].version + 1));
      }
    case Load(accountId, id) =>
      if id in w.table && w.table[id].accountId == accountId {
        QuietKeeps(w, w.attempts + [Attempt(accountId, id, w.table[id], true)]);
      }
    case Finish(a, v, now) => if a < |w.attempts| { FinishKeeps(policy, w, a, v, now); }
    case Drop(a) =>
      if a < |w.attempts| {
        ClosedInv(w.table, w.attempts, a);
        QuietKeeps(w, Close(w.attempts, a));
      }
  }

  lemma {:induction false} RunKeeps(policy: Policy, w: World, steps: seq<Step>)
    requires Inv(w)
    ensures Inv(Run(policy, w, steps))
  {
    if steps != [] {
      RunKeeps(policy, w, steps[..|steps| - 1]);
      NextKeeps(policy, Run(policy, w, steps[..|steps| - 1]), steps[|steps| - 1]);
    }
  }

  // --------------------------------------------------------------------- main theorems

  /** One step never lowers a stored count or version, never clears a suspicion, never forgets a credential. */
  lemma NextGrows(policy: Policy, w: World, s: Step, id: Bytes)
    requires Inv(w) && id in w.table
    ensures var w' := Next(policy, w, s);
      && id in w'.table
      && w.table[id].signCount <= w'.table[id].signCount && w.table[id].version <= w'.table[id].version
      && (w.table[id].suspect ==> w'.table[id].suspect)
  {
    if s.Finish? && s.a < |w.attempts| {
      assert AttemptInv(w.table, w.attempts[s.a]);
    }
  }

  /** Over any continuation the stored count and version only grow and a suspicion stays. */
  lemma {:induction false} StoredOnlyGrows(policy: Policy, w: World, more: seq<Step>, id: Bytes)
    requires Inv(w) && id in w.table
    ensures var w' := Run(policy, w, more);
      && id in w'.table
      && w.table[id].signCount <= w'.table[id].signCount && w.table[id].version <= w'.table[id].version
      && (w.table[id].suspect ==> w'.table[id].suspect)
  {
    if more != [] {
      StoredOnlyGrows(policy, w, more[..|more| - 1], id);
      RunKeeps(policy, w, more[..|more| - 1]);
      NextGrows(policy, Run(policy, w, more[..|more| - 1]), more[|more| - 1], id);
    }
  }

  lemma {:induction false} AcceptedByPolicy(policy: Policy, w: World, steps: seq<Step>, k: nat)
    requires k < |Run(policy, w, steps).log| && Run(policy, w, steps).log[k].Asserted?
    requires w.log == []
    ensures var e := Run(policy, w, steps).log[k]; e.accepted == !(e.flagged && policy.Reject?)
  {
    if steps != [] {
      var before := Run(policy, w, steps[..|steps| - 1]);
      if k < |before.log| {
        AcceptedByPolicy(policy, w, steps[..|steps| - 1], k);
      }
    }
  }

  lemma {:induction false} AcceptedUnflagged(log: seq<Event>, id: Bytes)
    requires forall k :: 0 <= k < |log| && log[k].Asserted? && log[k].id == id ==> log[k].accepted == !log[k].flagged
    ensures AcceptedCounts(log, id) == Unflagged(log, id)
  {
    if log != [] {
      AcceptedUnflagged(log[..|log| - 1], id);
    }
  }

  /**
   Under the reject policy, over every interleaving: the accepted counters of a credential,
   from its registered one on, are zeros followed by a strictly increasing sequence; the
   stored counter is the last of them; the updates consume consecutive versions, each once;
   and the credential is suspect exactly if it was registered so or an assertion was flagged.
   */
  lemma AcceptedCountersIncrease(steps: seq<Step>, id: Bytes)
    requires id in Run(Reject, START, steps).table
    ensures var w := Run(Reject, START, steps);
      && Original(w.log, id).Some?
      && var original, accepted, consumed := Original(w.log, id).value, AcceptedCounts(w.log, id), Consumed(w.log, id);
      && ZerosThenIncreasing([original.signCount] + accepted)
      && w.table[id].signCount == ([original.signCount] + accepted)[|accepted|]
      && (forall k :: 0 <= k < |consumed| ==> consumed[k] == original.version + k)
      && w.table[id].version == original.version + |consumed|
      && (w.table[id].suspect <==> original.suspect || EverFlagged(w.log, id))
  {
    var w := Run(Reject, START, steps);
    StartInv();
    RunKeeps(Reject, START, steps);
    assert IdInv(w.table, w.log, id);
    forall k | 0 <= k < |w.log| && w.log[k].Asserted? && w.log[k].id == id ensures w.log[k].accepted == !w.log[k].flagged {
      AcceptedByPolicy(Reject, START, steps, k);
    }
    AcceptedUnflagged(w.log, id);
  }

  lemma StartInv()
    ensures Inv(START)
  {
    assert forall id :: IdInv(START.table, START.log, id);
  }

  lemma {:induction false} AcceptedHoldsUnflagged(log: seq<Event>, id: Bytes)
    requires forall k :: 0 <= k < |log| && log[k].Asserted? && log[k].id == id ==> log[k].accepted
    ensures forall n :: n in Unflagged(log, id) ==> n in AcceptedCounts(log, id)
  {
    if log != [] {
      AcceptedHoldsUnflagged(log[..|log| - 1], id);
    }
  }

  /** A flagged assertion that is accepted nevertheless breaks the order. */
  lemma FlaggedBreaksOrder(w: World, a: nat, v: Verified, now: int, id: Bytes)
    requires Inv(w) && a < |w.attempts| && w.attempts[a].id == id && id in w.table
    requires forall k :: 0 <= k < |w.log| && w.log[k].Asserted? && w.log[k].id == id ==> w.log[k].accepted
    requires var e := DoFinish(AuditOnly, w, a, v, now).log[|w.log|]; e.Asserted? && e.flagged
    ensures Original(w.log, id).Some?
    ensures !ZerosThenIncreasing([Original(w.log, id).value.signCount] + AcceptedCounts(w.log, id) + [v.signCount])
  {
    assert IdInv(w.table, w.log, id) && AttemptInv(w.table, w.attempts[a]);
    var stored, original := w.table[id].signCount, Original(w.log, id).value.signCount;
    var unflagged, accepted := Unflagged(w.log, id), AcceptedCounts(w.log, id);
    AcceptedHoldsUnflagged(w.log, id);
    assert stored == ([original] + unflagged)[|unflagged|];
    assert stored == original || stored in unflagged;
    var counts := [original] + accepted;
    assert stored in counts;
    var i :| 0 <= i < |counts| && counts[i] == stored;
    assert (counts + [v.signCount])[i] == stored && (counts + [v.signCount])[|counts|] == v.signCount;
  }

  /** Under the audit-only policy the accepted counters keep that order exactly if no assertion was ever flagged. */
  lemma {:induction false} AuditOnlyIncreasesExactly(steps: seq<Step>, id: Bytes)
    requires id in Run(AuditOnly, START, steps).table
    ensures var w := Run(AuditOnly, START, steps);
      && Original(w.log, id).Some?
      && (ZerosThenIncreasing([Original(w.log, id).value.signCount] + AcceptedCounts(w.log, id)) <==> !EverFlagged(w.log, id))
  {
    var w := Run(AuditOnly, START, steps);
    StartInv();
    RunKeeps(AuditOnly, START, steps);
    assert IdInv(w.table, w.log, id);
    forall k | 0 <= k < |w.log| && w.log[k].Asserted? && w.log[k].id == id ensures w.log[k].accepted {
      AcceptedByPolicy(AuditOnly, START, steps, k);
    }
    if EverFlagged(w.log, id) {
      AuditOnlyBreaks(steps, id);
    } else {
      AcceptedUnflagged(w.log, id);
    }
  }

  /** The step that first flags an assertion. */
  lemma FirstFlagBreaks(before: World, s: Step, id: Bytes)
    requires Inv(before) && !EverFlagged(before.log, id)
    requires forall k :: 0 <= k < |before.log| && before.log[k].Asserted? && before.log[k].id == id ==> before.log[k].accepted
    requires EverFlagged(Next(AuditOnly, before, s).log, id)
    ensures var w := Next(AuditOnly, before, s);
      && Original(w.log, id).Some?
      && !ZerosThenIncreasing([Original(w.log, id).value.signCount] + AcceptedCounts(w.log, id))
  {
    var w := Next(AuditOnly, before, s);
    var e := w.log[|before.log|];
    assert w.log == before.log + [e];
    Unfold(before.log, e, id);
    assert AttemptInv(before.table, before.attempts[s.a]);
    FlaggedBreaksOrder(before, s.a, s.verified, s.now, id);
    assert [Original(w.log, id).value.signCount] + AcceptedCounts(w.log, id)
        == [Original(before.log, id).value.signCount] + AcceptedCounts(before.log, id) + [s.verified.signCount];
  }

  lemma NextLogs(policy: Policy, w: World, s: Step) returns (e: Event)
    ensures Next(policy, w, s).log == w.log + [e] && (e.Created? ==> e.id !in w.table)
  {
    e := Next(policy, w, s).log[|w.log|];
  }

  /** Once out of order, always out of order. */
  lemma DisorderStays(before: World, s: Step, id: Bytes)
    requires Inv(before) && Original(before.log, id).Some?
    requires !ZerosThenIncreasing([Original(before.log, id).value.signCount] + AcceptedCounts(before.log, id))
    ensures var w := Next(AuditOnly, before, s);
      && Original(w.log, id).Some?
      && !ZerosThenIncreasing([Original(w.log, id).value.signCount] + AcceptedCounts(w.log, id))
  {
    var e := NextLogs(AuditOnly, before, s);
    Unfold(before.log, e, id);
    assert IdInv(before.table, before.log, id);
    PrefixBreaks([Original(before.log, id).value.signCount] + AcceptedCounts(before.log, id),
                 [Original(before.log, id).value.signCount] + AcceptedCounts(before.log + [e], id));
  }

  lemma {:induction false} AuditOnlyBreaks(steps: seq<Step>, id: Bytes)
    requires EverFlagged(Run(AuditOnly, START, steps).log, id)
    ensures var w := Run(AuditOnly, START, steps);
      && Original(w.log, id).Some?
      && !ZerosThenIncreasing([Original(w.log, id).value.signCount] + AcceptedCounts(w.log, id))
  {
    var earlier := steps[..|steps| - 1];
    var before := Run(AuditOnly, START, earlier);
    StartInv();
    RunKeeps(AuditOnly, START, earlier);
    if EverFlagged(before.log, id) {
      AuditOnlyBreaks(earlier, id);
      DisorderStays(before, steps[|steps| - 1], id);
    } else {
      forall k | 0 <= k < |before.log| && before.log[k].Asserted? && before.log[k].id == id ensures before.log[k].accepted {
        AcceptedByPolicy(AuditOnly, START, earlier, k);
      }
      FirstFlagBreaks(before, steps[|steps| - 1], id);
    }
  }

  lemma PrefixBreaks(counts: seq<nat>, longer: seq<nat>)
    requires !ZerosThenIncreasing(counts) && counts <= longer
    ensures !ZerosThenIncreasing(longer)
  {
    var i, j :| 0 <= i < j < |counts| && !(counts[i] < counts[j] || counts[i] == counts[j] == 0);
    assert longer[i] == counts[i] && longer[j] == counts[j];
  }

  /** Over every interleaving, whoever used a credential, or renamed it, is the account it was registered for. */
  lemma UsedByOwner(policy: Policy, steps: seq<Step>, k: nat)
    requires k < |Run(policy, START, steps).log|
    ensures var w := Run(policy, START, steps);
      var e := w.log[k];
      e.Asserted? || e.Renamed? ==>
        && e.id in w.table && Original(w.log, e.id).Some?
        && Original(w.log, e.id).value.accountId == e.accountId == w.table[e.id].accountId
  {
    StartInv();
    RunKeeps(policy, START, steps);
    var w := Run(policy, START, steps);
    assert ByOwner(w.log, w.log[k]);
    if w.log[k].Asserted? || w.log[k].Renamed? {
      assert IdInv(w.table, w.log, w.log[k].id);
    }
  }

  /** A credential's name, backup state and last use are those of the latest rename and the latest recorded assertion. */
  lemma DetailsAreLatest(policy: Policy, steps: seq<Step>, id: Bytes)
    requires id in Run(policy, START, steps).table
    ensures var w := Run(policy, START, steps);
      Original(w.log, id).Some? && DetailsOk(w.log, id, Original(w.log, id).value, w.table[id])
  {
    StartInv();
    RunKeeps(policy, START, steps);
    assert IdInv(Run(policy, START, steps).table, Run(policy, START, steps).log, id);
  }

  /** An attempt keeps what it loaded. */
  lemma {:induction false} AttemptsStay(policy: Policy, w: World, more: seq<Step>, a: nat)
    requires a < |w.attempts|
    ensures var w' := Run(policy, w, more);
      a < |w'.attempts| && w'.attempts[a].(open := true) == w.attempts[a].(open := true)
  {
    if more != [] {
      AttemptsStay(policy, w, more[..|more| - 1], a);
    }
  }

  lemma {:induction false} ConsumedGrows(policy: Policy, w: World, more: seq<Step>, id: Bytes)
    ensures Original(w.log, id).Some? && Inv(w) ==> Original(Run(policy, w, more).log, id) == Original(w.log, id)
    ensures |Consumed(w.log, id)| <= |Consumed(Run(policy, w, more).log, id)|
  {
    if more != [] {
      var before, s := Run(policy, w, more[..|more| - 1]), more[|more| - 1];
      ConsumedGrows(policy, w, more[..|more| - 1], id);
      var e := NextLogs(policy, before, s);
      Unfold(before.log, e, id);
      if Inv(w) {
        RunKeeps(policy, w, more[..|more| - 1]);
        assert IdInv(before.table, before.log, id);
      }
    }
  }

  /** The response fits the credential it was asked for. */
  predicate Fits(v: Verified, id: Bytes, credential: Credential) {
    v.credentialId == id && v.backupEligible == credential.backupEligible && (v.backupState ==> v.backupEligible)
  }

  /** What finishing an attempt comes to, by the stored version. */
  lemma FinishStep(policy: Policy, w: World, a: nat, v: Verified, now: int)
    requires a < |w.attempts| && w.attempts[a].open && AttemptInv(w.table, w.attempts[a])
    requires w.table[w.attempts[a].id].backupEligible == w.attempts[a].snapshot.backupEligible
    ensures var Attempt(accountId, id, loaded, _) := w.attempts[a];
      var e := Next(policy, w, Finish(a, v, now)).log[|w.log|];
      && (e.Asserted? <==> Fits(v, id, loaded) && w.table[id].version == loaded.version)
      && (e.Asserted? ==>
            && e.id == id && e.accountId == accountId && e.signCount == v.signCount
            && (e.flagged <==> 0 < loaded.signCount && v.signCount <= loaded.signCount)
            && (e.accepted <==> !(e.flagged && policy.Reject?)))
  {
  }

  /**
   An assertion loaded for an account and finished any time later, still open, is recorded
   exactly if the account owned the credential, the response fits and the credential was not
   updated in between; it is then flagged exactly if a nonzero count did not grow, and
   accepted unless flagged under the reject policy.
   */
  lemma FinishedExactly(policy: Policy, steps: seq<Step>, accountId: string, id: Bytes, between: seq<Step>, v: Verified, now: int)
    requires var w0 := Run(policy, START, steps);
      var w1 := Run(policy, Next(policy, w0, Load(accountId, id)), between);
      |w0.attempts| < |w1.attempts| && w1.attempts[|w0.attempts|].open
      && |w0.attempts| < |Next(policy, w0, Load(accountId, id)).attempts|
    ensures var w0 := Run(policy, START, steps);
      var w1 := Run(policy, Next(policy, w0, Load(accountId, id)), between);
      var e := Next(policy, w1, Finish(|w0.attempts|, v, now)).log[|w1.log|];
      && id in w0.table && w0.table[id].accountId == accountId
      && (e.Asserted? <==> Fits(v, id, w0.table[id]) && |Consumed(w1.log, id)| == |Consumed(w0.log, id)|)
      && (e.Asserted? ==>
            && e.id == id && e.accountId == accountId && e.signCount == v.signCount
            && (e.flagged <==> 0 < w0.table[id].signCount && v.signCount <= w0.table[id].signCount)
            && (e.accepted <==> !(e.flagged && policy.Reject?)))
  {
    var w0 := Run(policy, START, steps);
    var loaded := Next(policy, w0, Load(accountId, id));
    var w1, a := Run(policy, loaded, between), |w0.attempts|;
    StartInv();
    RunKeeps(policy, START, steps);
    NextKeeps(policy, w0, Load(accountId, id));
    RunKeeps(policy, loaded, between);
    AttemptsStay(policy, loaded, between, a);
    Unfold(w0.log, Nothing, id);
    ConsumedGrows(policy, loaded, between, id);
    assert IdInv(w0.table, w0.log, id) && IdInv(w1.table, w1.log, id);
    assert AttemptInv(w1.table, w1.attempts[a]);
    FinishStep(policy, w1, a, v, now);
  }
}
