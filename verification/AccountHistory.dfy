/**
 The store read back from its log alone: what every table holds and what every call answers
 is fixed by the calls made so far and their outcomes, with no table in sight.
 */
module AccountHistory {
  import opened Prelude
  import opened AccountSpec
  import opened RefreshFamilies
  import opened AccountEpochs
  import opened PurposeTokens

  function Entry<K, V>(m: map<K, V>, k: K): Option<V> {
    if k in m then Some(m[k]) else None
  }

  // ------------------------------------------------------------- refresh tokens, told by the log

  /** The record the event issued under this id. */
  function Born(e: Event, id: string): Option<Refresh> {
    if e.op.NewFamily? && e.outcome == Flag(true) && e.op.create.tokenId == id then
      var c := e.op.create;
      Some(Refresh(c.tokenDigest, c.accountId, c.familyId, c.securityEpoch, c.tokenExpiresAt, c.familyExpiresAt, c.scopes,
                   false, false, None, None))
    else if e.op.Rotate? && e.outcome.Rotated? && e.op.command.successorId == id then
      var c := e.op.command;
      Some(Refresh(c.successorDigest, c.accountId, c.familyId, c.securityEpoch, c.successorExpiresAt, c.familyExpiresAt,
                   c.scopes, false, false, None, None))
    else None
  }

  /** The terms a refresh token was issued on. */
  function Terms(log: seq<Event>, id: string): Option<Refresh> {
    if log == [] then None
    else if Born(log[|log| - 1], id).Some? then Born(log[|log| - 1], id)
    else Terms(log[..|log| - 1], id)
  }

  /** The rotation that consumed the token. */
  function SpentBy(log: seq<Event>, id: string): Option<RotateCommand> {
    if log == [] then None
    else
      var e := log[|log| - 1];
      if e.op.Rotate? && e.outcome.Rotated? && e.op.command.tokenId == id then Some(e.op.command)
      else SpentBy(log[..|log| - 1], id)
  }

  predicate InFamily(log: seq<Event>, id: string, f: string) {
    Terms(log, id).Some? && Terms(log, id).value.familyId == f
  }

  ghost predicate AnyInFamily(log: seq<Event>, f: string) {
    exists t :: InFamily(log, t, f)
  }

  ghost predicate OwnsFamily(log: seq<Event>, a: string, f: string) {
    exists t :: InFamily(log, t, f) && Terms(log, t).value.accountId == a
  }

  /** The event, coming after `before`, revoked the family. */
  ghost predicate RevokedBy(before: seq<Event>, e: Event, f: string) {
    match e.op
    case RevokeFamily(g) => g == f && e.outcome == Flag(true)
    case RevokeToken(id, _) => e.outcome == Flag(true) && InFamily(before, id, f)
    case RevokeTokenFor(_, id, _) => e.outcome == Flag(true) && InFamily(before, id, f)
    case RevokeAll(a) => OwnsFamily(before, a, f)
    case Prepare(id, _, _, _) => e.outcome == ReplayDetected && InFamily(before, id, f)
    case _ => false
  }

  ghost predicate Revoked(log: seq<Event>, f: string) {
    log != [] && (Revoked(log[..|log| - 1], f) || RevokedBy(log[..|log| - 1], log[|log| - 1], f))
  }

  /** What the log says is stored under the id. */
  ghost function RecordOf(log: seq<Event>, id: string): Option<Refresh> {
    if Terms(log, id).None? then None
    else
      var terms, spent := Terms(log, id).value, SpentBy(log, id);
      Some(terms.(revoked := Revoked(log, terms.familyId), consumed := spent.Some?,
                  idempotency := if spent.Some? then spent.value.idempotency else None,
                  receipt := if spent.Some? then Some(spent.value.receipt) else None))
  }

  ghost predicate RefreshFollows(w: World) {
    && (forall id :: Entry(w.state.refresh, id) == RecordOf(w.log, id))
    && (forall id :: SpentBy(w.log, id).Some? ==> id in w.state.refresh)
    && (forall f :: Revoked(w.log, f) ==> FamilyExists(w.state.refresh, f))
  }

  lemma LogUnfold(log: seq<Event>, e: Event, id: string, f: string)
    ensures Terms(log + [e], id) == if Born(e, id).Some? then Born(e, id) else Terms(log, id)
    ensures SpentBy(log + [e], id)
            == if e.op.Rotate? && e.outcome.Rotated? && e.op.command.tokenId == id then Some(e.op.command) else SpentBy(log, id)
    ensures Revoked(log + [e], f) <==> Revoked(log, f) || RevokedBy(log, e, f)
  {
    SnocSplit(log, e);
  }

  lemma CreationFollows(w: World, op: Op, id: string)
    requires RefreshFollows(w) && op.NewFamily? && Apply(w.state, op).1 == Flag(true)
    ensures Entry(Step(w, op).state.refresh, id) == RecordOf(Step(w, op).log, id)
    ensures SpentBy(Step(w, op).log, id).Some? ==> id in Step(w, op).state.refresh
  {
    var e, f := Event(op, Flag(true)), if id == op.create.tokenId then op.create.familyId
                                       else if id in w.state.refresh then w.state.refresh[id].familyId else "";
    LogUnfold(w.log, e, id, f);
    assert Entry(w.state.refresh, id) == RecordOf(w.log, id);
  }

  lemma RotationFollows(w: World, op: Op, id: string)
    requires RefreshFollows(w) && op.Rotate? && Apply(w.state, op).1.Rotated?
    ensures Entry(Step(w, op).state.refresh, id) == RecordOf(Step(w, op).log, id)
    ensures SpentBy(Step(w, op).log, id).Some? ==> id in Step(w, op).state.refresh
  {
    var cmd := op.command;
    RotationWrites(w.state, cmd, op.now);
    var e, f := Event(op, Apply(w.state, op).1), if id == cmd.successorId then cmd.familyId
                                                 else if id in w.state.refresh then w.state.refresh[id].familyId else "";
    LogUnfold(w.log, e, id, f);
    assert Entry(w.state.refresh, id) == RecordOf(w.log, id);
    assert Entry(w.state.refresh, cmd.tokenId) == RecordOf(w.log, cmd.tokenId);
  }

  /** The step neither created a family nor rotated. */
  ghost predicate IssuesNothing(s: State, op: Op) {
    !(op.NewFamily? && Apply(s, op).1 == Flag(true)) && !(op.Rotate? && Apply(s, op).1.Rotated?)
  }

  /** The record is as it was, but for the mark of its family. */
  ghost predicate OnlyMarked(s: State, op: Op, id: string) {
    var refresh' := Apply(s, op).0.refresh;
    && (id in refresh' <==> id in s.refresh)
    && (id in s.refresh ==>
          refresh'[id] == s.refresh[id].(revoked := s.refresh[id].revoked || Revokes(s, op, s.refresh[id].familyId)))
  }

  lemma FamilyMarked(s: State, f: string, id: string)
    ensures var refresh' := DoRevokeFamily(s, f).0.refresh;
            && (id in refresh' <==> id in s.refresh)
            && (id in s.refresh ==>
                  refresh'[id] == s.refresh[id].(revoked := s.refresh[id].revoked || (f == s.refresh[id].familyId
                                                                                      && DoRevokeFamily(s, f).1 == Flag(true))))
  {
  }

  lemma AccountMarked(s: State, op: Op, id: string)
    requires op.RevokeAll?
    ensures OnlyMarked(s, op, id)
  {
  }

  lemma FamilyCallMarked(s: State, op: Op, id: string)
    requires op.RevokeFamily?
    ensures OnlyMarked(s, op, id)
  {
    FamilyMarked(s, op.familyId, id);
  }

  lemma TokenCallMarked(s: State, op: Op, id: string)
    requires op.RevokeToken?
    ensures OnlyMarked(s, op, id)
  {
    if op.tokenId in s.refresh {
      FamilyMarked(s, s.refresh[op.tokenId].familyId, id);
    }
  }

  lemma OwnerCallMarked(s: State, op: Op, id: string)
    requires op.RevokeTokenFor?
    ensures OnlyMarked(s, op, id)
  {
    if op.tokenId in s.refresh {
      FamilyMarked(s, s.refresh[op.tokenId].familyId, id);
    }
  }

  lemma PresentedMarked(s: State, op: Op, id: string)
    requires op.Prepare?
    ensures OnlyMarked(s, op, id)
  {
  }

  lemma UnmarkedByOthers(s: State, op: Op, id: string)
    requires IssuesNothing(s, op)
    requires !op.Prepare? && !op.RevokeFamily? && !op.RevokeToken? && !op.RevokeTokenFor? && !op.RevokeAll?
    ensures OnlyMarked(s, op, id)
  {
  }

  lemma OnlyMarks(s: State, op: Op, id: string)
    requires IssuesNothing(s, op)
    ensures OnlyMarked(s, op, id)
  {
    if op.RevokeAll? {
      AccountMarked(s, op, id);
    } else if op.Prepare? {
      PresentedMarked(s, op, id);
    } else if op.RevokeFamily? {
      FamilyCallMarked(s, op, id);
    } else if op.RevokeToken? {
      TokenCallMarked(s, op, id);
    } else if op.RevokeTokenFor? {
      OwnerCallMarked(s, op, id);
    } else {
      UnmarkedByOthers(s, op, id);
    }
  }

  lemma MarksFollow(w: World, op: Op, id: string)
    requires RefreshFollows(w) && IssuesNothing(w.state, op) && id in w.state.refresh
    ensures var f := w.state.refresh[id].familyId;
            w.state.refresh[id].revoked || Revokes(w.state, op, f)
            <==> Revoked(w.log, f) || RevokedBy(w.log, Event(op, Apply(w.state, op).1), f)
  {
    var s, f := w.state, w.state.refresh[id].familyId;
    assert Entry(s.refresh, id) == RecordOf(w.log, id);
    match op
    case RevokeToken(t, _) => assert Entry(s.refresh, t) == RecordOf(w.log, t);
    case RevokeTokenFor(_, t, _) => assert Entry(s.refresh, t) == RecordOf(w.log, t);
    case Prepare(t, _, _, _) => assert Entry(s.refresh, t) == RecordOf(w.log, t);
    case RevokeAll(a) => OwnersFollow(w, a, f);
    case _ =>
  }

  lemma OwnersFollow(w: World, a: string, f: string)
    requires RefreshFollows(w)
    ensures f in FamiliesOf(w.state.refresh, a) <==> OwnsFamily(w.log, a, f)
    ensures FamilyExists(w.state.refresh, f) <==> AnyInFamily(w.log, f)
  {
    forall t
      ensures t in w.state.refresh && w.state.refresh[t].familyId == f <==> InFamily(w.log, t, f)
      ensures InFamily(w.log, t, f) ==> w.state.refresh[t].accountId == Terms(w.log, t).value.accountId
    {
      assert Entry(w.state.refresh, t) == RecordOf(w.log, t);
    }
  }

  lemma OtherFollows(w: World, op: Op, id: string)
    requires RefreshFollows(w) && IssuesNothing(w.state, op)
    ensures Entry(Step(w, op).state.refresh, id) == RecordOf(Step(w, op).log, id)
    ensures SpentBy(Step(w, op).log, id).Some? ==> id in Step(w, op).state.refresh
  {
    OnlyMarks(w.state, op, id);
    assert Entry(w.state.refresh, id) == RecordOf(w.log, id);
    var e := Event(op, Apply(w.state, op).1);
    if id in w.state.refresh {
      MarksFollow(w, op, id);
      LogUnfold(w.log, e, id, w.state.refresh[id].familyId);
    } else {
      LogUnfold(w.log, e, id, "");
    }
  }

  lemma FamiliesStay(s: State, op: Op, f: string)
    requires FamilyExists(s.refresh, f)
    ensures FamilyExists(Apply(s, op).0.refresh, f)
  {
    var t :| t in s.refresh && s.refresh[t].familyId == f;
    var s' := Apply(s, op).0;
    if op.Rotate? && Apply(s, op).1.Rotated? {
      RotationWrites(s, op.command, op.now);
    } else if IssuesNothing(s, op) {
      OnlyMarks(s, op, t);
    }
    assert t in s'.refresh && s'.refresh[t].familyId == f;
  }

  lemma RevokedExist(w: World, op: Op, f: string)
    requires RefreshFollows(w) && Revoked(Step(w, op).log, f)
    ensures FamilyExists(Step(w, op).state.refresh, f)
  {
    var e := Event(op, Apply(w.state, op).1);
    LogUnfold(w.log, e, "", f);
    if RevokedBy(w.log, e, f) && !op.RevokeFamily? {
      OwnersFollow(w, "", f);
    }
    assert FamilyExists(w.state.refresh, f);
    FamiliesStay(w.state, op, f);
  }

  lemma RefreshFollowsKept(w: World, op: Op)
    requires RefreshFollows(w)
    ensures RefreshFollows(Step(w, op))
  {
    var w' := Step(w, op);
    forall id
      ensures Entry(w'.state.refresh, id) == RecordOf(w'.log, id)
      ensures SpentBy(w'.log, id).Some? ==> id in w'.state.refresh
    {
      if op.NewFamily? && Apply(w.state, op).1 == Flag(true) {
        CreationFollows(w, op, id);
      } else if op.Rotate? && Apply(w.state, op).1.Rotated? {
        RotationFollows(w, op, id);
      } else {
        OtherFollows(w, op, id);
      }
    }
    forall f | Revoked(w'.log, f) ensures FamilyExists(w'.state.refresh, f) {
      RevokedExist(w, op, f);
    }
  }

  // ------------------------------------------------------------------- accounts, told by the log

  predicate Registers(e: Event, a: string) {
    e.op.Register? && e.outcome.Created? && e.outcome.account.accountId == a
  }

  /** The registration that created the account. */
  function Registered(log: seq<Event>, a: string): (op: Option<Op>)
    ensures op.Some? ==> op.value.Register?
  {
    if log == [] then None
    else if Registers(log[|log| - 1], a) then Some(log[|log| - 1].op)
    else Registered(log[..|log| - 1], a)
  }

  function EpochOf(log: seq<Event>, a: string): Option<int> {
    if Registered(log, a).Some? then Some(1 + BumpCount(log, a)) else None
  }

  /** What the log says is stored about the account. */
  function AccountOf(log: seq<Event>, a: string): Option<Account> {
    if Registered(log, a).None? then None
    else
      var op := Registered(log, a).value;
      Some(Account(a, op.identifier, op.displayName, true, LastProof(log, a) == Some(true), 1 + BumpCount(log, a)))
  }

  /** The fields no step rewrites. */
  ghost predicate RegistrationOk(w: World, a: string) {
    match Registered(w.log, a)
    case None => a !in w.state.accounts
    case Some(op) =>
      && a in w.state.accounts
      && var account := w.state.accounts[a];
      account.normalizedIdentifier == op.identifier && account.displayName == op.displayName && account.active
  }

  ghost predicate SameOwner(s: State, s': State, a: string) {
    && (a in s'.accounts <==> a in s.accounts)
    && (a in s.accounts ==>
          && s'.accounts[a].normalizedIdentifier == s.accounts[a].normalizedIdentifier
          && s'.accounts[a].displayName == s.accounts[a].displayName && s'.accounts[a].active == s.accounts[a].active)
  }

  lemma OwnersStay(s: State, op: Op, a: string)
    requires AccountsInv(s) && !op.Register?
    ensures SameOwner(s, Apply(s, op).0, a)
  {
    if !WritesAccounts(Apply(s, op).1) {
      QuietSteps(s, op);
    }
  }

  lemma RegistrationKept(w: World, op: Op, a: string)
    requires AccountsInv(w.state) && RegistrationOk(w, a)
    ensures RegistrationOk(Step(w, op), a)
  {
    var e := Event(op, Apply(w.state, op).1);
    SnocSplit(w.log, e);
    if !op.Register? {
      OwnersStay(w.state, op, a);
    }
  }

  // --------------------------------------------------------------------- tokens, told by the log

  /** The token was issued, has not succeeded, and has attempts left. */
  predicate Live(log: seq<Event>, id: string) {
    Issued(log, id).Some? && Successes(log, id) == 0 && Wrong(log, id) < Issued(log, id).value.maximumAttempts
  }

  /** When the token was issued. */
  function IssuedAt(log: seq<Event>, id: string): nat {
    if log == [] then 0
    else if Issues(log[|log| - 1], id) then |log| - 1
    else IssuedAt(log[..|log| - 1], id)
  }

  lemma IssuedAtUnfold(log: seq<Event>, e: Event, id: string)
    ensures IssuedAt(log + [e], id) == if Issues(e, id) then |log| else IssuedAt(log, id)
  {
    SnocSplit(log, e);
  }

  lemma {:induction false} IssuedBefore(log: seq<Event>, id: string)
    ensures Issued(log, id).Some? ==>
              IssuedAt(log, id) < |log| && IssueOf(log[IssuedAt(log, id)]) == Issued(log, id) && Issued(log, id).value.tokenId == id
  {
    if log != [] && !Issues(log[|log| - 1], id) {
      IssuedBefore(log[..|log| - 1], id);
    }
  }

  /** Oldest first. */
  ghost predicate ByAge(log: seq<Event>, order: seq<string>) {
    forall i, j :: 0 <= i < j < |order| ==> IssuedAt(log, order[i]) < IssuedAt(log, order[j])
  }

  lemma {:induction false} WithoutByAge(log: seq<Event>, order: seq<string>, id: string)
    requires ByAge(log, order)
    ensures ByAge(log, Without(order, id))
  {
    if order != [] {
      assert forall i :: 1 <= i < |order| ==> order[1..][i - 1] == order[i];
      WithoutByAge(log, order[1..], id);
      var rest := Without(order[1..], id);
      forall x | x in rest ensures IssuedAt(log, order[0]) < IssuedAt(log, x) {
        var i :| 0 <= i < |order[1..]| && order[1..][i] == x;
        assert order[i + 1] == x;
      }
    }
  }

  lemma ExtendedByAge(log: seq<Event>, order: seq<string>, e: Event, id: string)
    requires ByAge(log, order) && Issues(e, id)
    requires forall x :: x in order ==> Issued(log, x).Some? && x != id
    ensures ByAge(log + [e], order + [id])
  {
    forall x ensures IssuedAt(log + [e], x) == if Issues(e, x) then |log| else IssuedAt(log, x) {
      IssuedAtUnfold(log, e, x);
    }
    forall x | x in order ensures IssuedAt(log, x) < |log| && IssuedAt(log + [e], x) == IssuedAt(log, x) {
      IssuedBefore(log, x);
    }
    var more := order + [id];
    forall i, j | 0 <= i < j < |more| ensures IssuedAt(log + [e], more[i]) < IssuedAt(log + [e], more[j]) {
      assert more[i] == order[i] && more[i] in order;
      assert j < |order| ==> more[j] == order[j] && more[j] in order;
    }
  }

  lemma QuietByAge(log: seq<Event>, order: seq<string>, e: Event)
    requires ByAge(log, order) && IssueOf(e).None?
    ensures ByAge(log + [e], order)
  {
    forall x ensures IssuedAt(log + [e], x) == IssuedAt(log, x) {
      IssuedAtUnfold(log, e, x);
    }
  }

  /** How a step moves the insertion order. */
  ghost predicate OrderMoves(s: State, op: Op) {
    var (s', outcome) := Apply(s, op);
    var issue := IssueOf(Event(op, outcome));
    var order := s.tokenOrder + if issue.Some? then [issue.value.tokenId] else [];
    && (issue.Some? ==> !TokenIdKnown(s, issue.value.tokenId))
    && (s'.tokenOrder == order || exists id :: s'.tokenOrder == Without(order, id))
  }

  lemma RegistrationMoves(s: State, op: Op)
    requires op.Register?
    ensures OrderMoves(s, op)
  {
    assert s.tokenOrder + [] == s.tokenOrder;
  }

  lemma ProofMoves(s: State, op: Op)
    requires op.Verify? || op.Reset?
    ensures OrderMoves(s, op)
  {
    var s' := Apply(s, op).0;
    assert s.tokenOrder + [] == s.tokenOrder;
    assert s'.tokenOrder == s.tokenOrder || s'.tokenOrder == Without(s.tokenOrder, op.tokenId)
      || (op.tokenId in s.tokens && s'.tokenOrder == Without(s.tokenOrder, s.tokens[op.tokenId].tokenId));
  }

  lemma OrderSteps(s: State, op: Op)
    ensures OrderMoves(s, op)
  {
    if op.Register? {
      RegistrationMoves(s, op);
    } else if op.Verify? || op.Reset? {
      ProofMoves(s, op);
    } else {
      assert s.tokenOrder + [] == s.tokenOrder;
    }
  }

  lemma AgesKept(w: World, op: Op)
    requires TokensInv(w) && ByAge(w.log, w.state.tokenOrder)
    ensures ByAge(Step(w, op).log, Step(w, op).state.tokenOrder)
  {
    var e, s' := Event(op, Apply(w.state, op).1), Apply(w.state, op).0;
    var issue := IssueOf(e);
    var order := w.state.tokenOrder + if issue.Some? then [issue.value.tokenId] else [];
    OrderSteps(w.state, op);
    if issue.Some? {
      forall x | x in w.state.tokenOrder ensures Issued(w.log, x).Some? && x != issue.value.tokenId {
        assert TokenOk(w.state, w.log, x);
      }
      ExtendedByAge(w.log, w.state.tokenOrder, e, issue.value.tokenId);
    } else {
      assert order == w.state.tokenOrder;
      QuietByAge(w.log, w.state.tokenOrder, e);
    }
    if s'.tokenOrder != order {
      var id :| s'.tokenOrder == Without(order, id);
      WithoutByAge(w.log + [e], order, id);
    }
  }

  // ------------------------------------------------------------------------- the whole store

  ghost predicate History(w: World) {
    && AccountsInv(w.state) && EpochInv(w) && RefreshFollows(w) && TokensInv(w) && ByAge(w.log, w.state.tokenOrder)
    && (forall a :: CredentialsOk(w, a)) && (forall a :: RegistrationOk(w, a))
  }

  lemma HistoryKept(w: World, op: Op)
    requires History(w) && op.WellFormed()
    ensures History(Step(w, op))
  {
    EpochInvKept(w, op);
    RefreshFollowsKept(w, op);
    TokensInvKept(w, op);
    AgesKept(w, op);
    forall a ensures CredentialsOk(Step(w, op), a) && RegistrationOk(Step(w, op), a) {
      CredentialsKept(w, op, a);
      RegistrationKept(w, op, a);
    }
  }

  lemma {:induction false} HistoryRun(w: World, ops: seq<Op>)
    requires History(w) && Admissible(ops)
    ensures History(Run(w, ops))
    decreases |ops|
  {
    if ops != [] {
      assert ops[0].WellFormed();
      HistoryKept(w, ops[0]);
      HistoryRun(Step(w, ops[0]), ops[1..]);
    }
  }

  lemma StartHistory()
    ensures History(START)
  {
    assert forall id :: Entry(START.state.refresh, id) == RecordOf(START.log, id);
    assert forall id :: TokenOk(START.state, START.log, id);
    assert forall a :: CredentialsOk(START, a) && RegistrationOk(START, a);
  }

  lemma TableFollows(w: World, key: string)
    requires History(w)
    ensures Entry(w.state.accounts, key) == AccountOf(w.log, key)
    ensures Entry(w.state.passwords, key) == LastHash(w.log, key)
    ensures Entry(w.state.tokens, key) == if Live(w.log, key) then Issued(w.log, key) else None
    ensures key in w.state.used <==> Issued(w.log, key).Some? && !Live(w.log, key)
    ensures Entry(w.state.attempts, key) == if Live(w.log, key) && Wrong(w.log, key) > 0 then Some(Wrong(w.log, key) as int) else None
    ensures Entry(w.state.refresh, key) == RecordOf(w.log, key)
  {
    assert TokenOk(w.state, w.log, key) && CredentialsOk(w, key) && RegistrationOk(w, key);
    assert BumpCount(w.log, key) == if key in w.state.accounts then w.state.accounts[key].securityEpoch - 1 else 0;
  }

  /**
   After any run every table is what the log says, entry by entry: accounts, password
   hashes, live and used tokens with their failed proofs, and refresh records.
   */
  lemma TablesFollowHistory(ops: seq<Op>, key: string)
    requires Admissible(ops)
    ensures var w := Run(START, ops);
            && Entry(w.state.accounts, key) == AccountOf(w.log, key)
            && Entry(w.state.passwords, key) == LastHash(w.log, key)
            && Entry(w.state.tokens, key) == (if Live(w.log, key) then Issued(w.log, key) else None)
            && (key in w.state.used <==> Issued(w.log, key).Some? && !Live(w.log, key))
            && Entry(w.state.attempts, key)
               == (if Live(w.log, key) && Wrong(w.log, key) > 0 then Some(Wrong(w.log, key) as int) else None)
            && Entry(w.state.refresh, key) == RecordOf(w.log, key)
  {
    StartHistory();
    HistoryRun(START, ops);
    TableFollows(Run(START, ops), key);
  }

  // ------------------------------------------------------- every answer, told by the log

  predicate Overdue(terms: Refresh, now: Time) {
    terms.tokenExpiresAt <= now || terms.familyExpiresAt <= now
  }

  /** The terms a presented token was issued on, if it was issued with this digest. */
  function Presented(log: seq<Event>, id: string, digest: Bytes): Option<Refresh> {
    if Terms(log, id).Some? && Terms(log, id).value.tokenDigest == digest then Terms(log, id) else None
  }

  /** The answer to a prepared rotation. */
  ghost function AnswerPrepare(log: seq<Event>, id: string, digest: Bytes, key: Option<Bytes>, now: Time): Outcome {
    match Presented(log, id, digest)
    case None => Invalid
    case Some(t) =>
      var context := FamilyContext(t.accountId, t.familyId, t.securityEpoch, t.tokenExpiresAt, t.familyExpiresAt, t.scopes);
      if Revoked(log, t.familyId) then AlreadyRevoked
      else if SpentBy(log, id).Some? then
        if SpentBy(log, id).value.idempotency == key then Replayed(context, SpentBy(log, id).value.receipt) else ReplayDetected
      else if Overdue(t, now) then Expired
      else if EpochOf(log, t.accountId) != Some(t.securityEpoch) then EpochMismatch
      else Context(context)
  }

  /** The answer to a rotation: it must repeat the terms of a token that is neither spent, revoked nor overdue. */
  ghost function AnswerRotate(log: seq<Event>, c: RotateCommand, now: Time): Outcome {
    match Presented(log, c.tokenId, c.tokenDigest)
    case None => Invalid
    case Some(t) =>
      if (t.accountId, t.familyId, t.securityEpoch) != (c.accountId, c.familyId, c.securityEpoch) then Invalid
      else if Revoked(log, t.familyId) || SpentBy(log, c.tokenId).Some? || Terms(log, c.successorId).Some? then Invalid
      else if EpochOf(log, t.accountId) != Some(t.securityEpoch) then Invalid
      else if Overdue(t, now) then Expired
      else Rotated(c.receipt)
  }

  /** The family of the presented token is there to be revoked. */
  ghost predicate Revocation(log: seq<Event>, id: string, digest: Bytes) {
    Presented(log, id, digest).Some? && !Revoked(log, Terms(log, id).value.familyId)
  }

  /** The answer to consuming a token of this purpose, up to what it is used for. */
  function Redeemed(log: seq<Event>, id: string, purpose: Purpose, digest: Bytes, now: Time): Outcome {
    if Issued(log, id).None? then Invalid
    else if !Live(log, id) then Used
    else if Issued(log, id).value.purpose != purpose || Issued(log, id).value.digest != digest then Invalid
    else if Issued(log, id).value.expiresAt <= now then Expired
    else Done
  }

  /** The answer to a call, for all calls but registration and the revocation of an account's families. */
  ghost function Answer(log: seq<Event>, op: Op): Outcome
    requires !op.Register? && !op.RevokeAll?
  {
    match op
    case IssueToken(issue) => if Issued(log, issue.tokenId).Some? then Raised else Done
    case Verify(id, digest, now) =>
      var redeemed := Redeemed(log, id, Verification, digest, now);
      if !redeemed.Done? then redeemed
      else
        var a := Issued(log, id).value.accountId;
        if EpochOf(log, a).None? then Invalid else Verified(a, EpochOf(log, a).value)
    case Reset(id, digest, _, now) =>
      var redeemed := Redeemed(log, id, Recovery, digest, now);
      if !redeemed.Done? then redeemed
      else
        var issue := Issued(log, id).value;
        if EpochOf(log, issue.accountId).None? || EpochOf(log, issue.accountId) != issue.issuedEpoch then Conflict
        else WasReset(issue.accountId, EpochOf(log, issue.accountId).value + 1)
    case ReplacePassword(a, expected, _) => Flag(Registered(log, a).Some? && LastHash(log, a) == Some(expected))
    case ChangePassword(a, _, expected) =>
      if EpochOf(log, a).None? then NotFound else if EpochOf(log, a) != Some(expected) then Conflict else Changed(expected + 1)
    case NewFamily(c) =>
      Flag(EpochOf(log, c.accountId) == Some(c.securityEpoch) && Terms(log, c.tokenId).None? && !AnyInFamily(log, c.familyId))
    case Prepare(id, digest, key, now) => AnswerPrepare(log, id, digest, key, now)
    case Rotate(c, now) => AnswerRotate(log, c, now)
    case RevokeFamily(f) => Flag(AnyInFamily(log, f) && !Revoked(log, f))
    case RevokeToken(id, digest) => Flag(Revocation(log, id, digest))
    case RevokeTokenFor(a, id, digest) => Flag(Revocation(log, id, digest) && Terms(log, id).value.accountId == a)
  }

  lemma RevocableByHistory(w: World, f: string)
    requires RefreshFollows(w)
    ensures Revocable(w.state.refresh, f) <==> AnyInFamily(w.log, f) && !Revoked(w.log, f)
  {
    OwnersFollow(w, "", f);
    forall t | t in w.state.refresh && w.state.refresh[t].familyId == f ensures w.state.refresh[t].revoked == Revoked(w.log, f) {
      assert Entry(w.state.refresh, t) == RecordOf(w.log, t);
    }
  }

  lemma EpochByHistory(w: World, a: string)
    requires History(w)
    ensures EpochOf(w.log, a) == if a in w.state.accounts then Some(w.state.accounts[a].securityEpoch) else None
  {
    TableFollows(w, a);
  }

  lemma VerifyAnswers(w: World, op: Op)
    requires History(w) && op.Verify?
    ensures Apply(w.state, op).1 == Answer(w.log, op)
  {
    TableFollows(w, op.tokenId);
    if op.tokenId in w.state.tokens {
      EpochByHistory(w, w.state.tokens[op.tokenId].accountId);
    }
  }

  lemma ResetAnswers(w: World, op: Op)
    requires History(w) && op.Reset?
    ensures Apply(w.state, op).1 == Answer(w.log, op)
  {
    TableFollows(w, op.tokenId);
    if op.tokenId in w.state.tokens {
      EpochByHistory(w, w.state.tokens[op.tokenId].accountId);
    }
  }

  lemma IssueAnswers(w: World, op: Op)
    requires History(w) && op.IssueToken?
    ensures Apply(w.state, op).1 == Answer(w.log, op)
  {
    TableFollows(w, op.issue.tokenId);
  }

  lemma PasswordAnswers(w: World, op: Op)
    requires History(w) && (op.ReplacePassword? || op.ChangePassword?)
    ensures Apply(w.state, op).1 == Answer(w.log, op)
  {
    TableFollows(w, op.accountId);
    EpochByHistory(w, op.accountId);
  }

  lemma PrepareAnswers(w: World, op: Op)
    requires History(w) && op.Prepare?
    ensures Apply(w.state, op).1 == Answer(w.log, op)
  {
    TableFollows(w, op.tokenId);
    if op.tokenId in w.state.refresh {
      EpochByHistory(w, w.state.refresh[op.tokenId].accountId);
    }
  }

  lemma RotateAnswers(w: World, op: Op)
    requires History(w) && op.Rotate?
    ensures Apply(w.state, op).1 == Answer(w.log, op)
  {
    TableFollows(w, op.command.tokenId);
    TableFollows(w, op.command.successorId);
    EpochByHistory(w, op.command.accountId);
  }

  lemma CreationAnswers(w: World, op: Op)
    requires History(w) && op.NewFamily?
    ensures Apply(w.state, op).1 == Answer(w.log, op)
  {
    TableFollows(w, op.create.tokenId);
    EpochByHistory(w, op.create.accountId);
    OwnersFollow(w, "", op.create.familyId);
  }

  lemma RevocationAnswers(w: World, op: Op)
    requires History(w) && (op.RevokeFamily? || op.RevokeToken? || op.RevokeTokenFor?)
    ensures Apply(w.state, op).1 == Answer(w.log, op)
  {
    if op.RevokeFamily? {
      RevocableByHistory(w, op.familyId);
    } else {
      TableFollows(w, op.tokenId);
      if op.tokenId in w.state.refresh {
        RevocableByHistory(w, w.state.refresh[op.tokenId].familyId);
      }
    }
  }

  /** What the store answers next is fixed by the calls so far and their outcomes. */
  lemma AnswersFollowHistory(ops: seq<Op>, op: Op)
    requires Admissible(ops) && !op.Register? && !op.RevokeAll?
    ensures Apply(Run(START, ops).state, op).1 == Answer(Run(START, ops).log, op)
  {
    StartHistory();
    HistoryRun(START, ops);
    var w := Run(START, ops);
    if op.IssueToken? {
      IssueAnswers(w, op);
    } else if op.Verify? {
      VerifyAnswers(w, op);
    } else if op.Reset? {
      ResetAnswers(w, op);
    } else if op.ReplacePassword? || op.ChangePassword? {
      PasswordAnswers(w, op);
    } else if op.Prepare? {
      PrepareAnswers(w, op);
    } else if op.Rotate? {
      RotateAnswers(w, op);
    } else if op.NewFamily? {
      CreationAnswers(w, op);
    } else {
      RevocationAnswers(w, op);
    }
  }

  /** Revoking an account's families counts those it owns that were not revoked yet. */
  lemma RevokeAllCounts(ops: seq<Op>, a: string) returns (families: set<string>)
    requires Admissible(ops)
    ensures var w := Run(START, ops);
            && Apply(w.state, RevokeAll(a)).1 == Count(|families|)
            && forall f :: f in families <==> OwnsFamily(w.log, a, f) && !Revoked(w.log, f)
  {
    StartHistory();
    HistoryRun(START, ops);
    var w := Run(START, ops);
    families := RevocableFamilies(w.state.refresh, a);
    forall f ensures f in families <==> OwnsFamily(w.log, a, f) && !Revoked(w.log, f) {
      OwnersFollow(w, a, f);
      RevocableByHistory(w, f);
    }
  }

  // -------------------------------------------------------------------------- registration

  /** A live invitation with the digest. */
  predicate Invites(log: seq<Event>, id: string, digest: Bytes) {
    Live(log, id) && Issued(log, id).value.purpose.Invitation? && Issued(log, id).value.digest == digest
  }

  /** The live invitation with the digest that was issued before all others. */
  ghost predicate OldestInvitation(log: seq<Event>, id: string, digest: Bytes) {
    Invites(log, id, digest) && forall other :: Invites(log, other, digest) && other != id ==> IssuedAt(log, id) < IssuedAt(log, other)
  }

  ghost predicate KnownIdentifier(log: seq<Event>, identifier: string) {
    exists a :: Registered(log, a).Some? && Registered(log, a).value.identifier == identifier
  }

  /** Live invitations are in the table and in its order. */
  lemma InvitesListed(w: World, id: string, digest: Bytes)
    requires History(w)
    ensures Invites(w.log, id, digest) <==>
            id in w.state.tokens && w.state.tokens[id].purpose.Invitation? && w.state.tokens[id].digest == digest
    ensures id in w.state.tokenOrder <==> id in w.state.tokens
  {
    TableFollows(w, id);
    assert TokenOk(w.state, w.log, id);
  }

  lemma FirstIsOldest(w: World, digest: Bytes, k: nat, other: string)
    requires History(w) && k < |w.state.tokenOrder| && Invites(w.log, other, digest) && other != w.state.tokenOrder[k]
    requires var s := w.state;
             forall i :: 0 <= i < k && s.tokenOrder[i] in s.tokens && s.tokens[s.tokenOrder[i]].purpose.Invitation? ==>
               s.tokens[s.tokenOrder[i]].digest != digest
    ensures IssuedAt(w.log, w.state.tokenOrder[k]) < IssuedAt(w.log, other)
  {
    InvitesListed(w, other, digest);
    var j :| 0 <= j < |w.state.tokenOrder| && w.state.tokenOrder[j] == other;
    assert k < j;
  }

  lemma InvitationByAge(w: World, digest: Bytes)
    requires History(w)
    ensures match FindInvitation(w.state.tokens, w.state.tokenOrder, digest)
            case Some(id) => OldestInvitation(w.log, id, digest)
            case None => forall id :: !Invites(w.log, id, digest)
  {
    var s := w.state;
    var found := FindInvitation(s.tokens, s.tokenOrder, digest);
    FindsFirst(s.tokens, s.tokenOrder, digest);
    if found.Some? {
      InvitesListed(w, found.value, digest);
      var k: nat :| k < |s.tokenOrder| && s.tokenOrder[k] == found.value &&
        forall i :: 0 <= i < k && s.tokenOrder[i] in s.tokens && s.tokens[s.tokenOrder[i]].purpose.Invitation? ==>
          s.tokens[s.tokenOrder[i]].digest != digest;
      forall other | Invites(w.log, other, digest) && other != found.value
        ensures IssuedAt(w.log, found.value) < IssuedAt(w.log, other)
      {
        FirstIsOldest(w, digest, k, other);
      }
    } else {
      forall id ensures !Invites(w.log, id, digest) {
        InvitesListed(w, id, digest);
      }
    }
  }

  lemma IdentifierByHistory(w: World, identifier: string)
    requires History(w)
    ensures IdentifierTaken(w.state, identifier) <==> KnownIdentifier(w.log, identifier)
  {
    forall a ensures a in w.state.accounts <==> Registered(w.log, a).Some?
             ensures a in w.state.accounts ==> w.state.accounts[a].normalizedIdentifier == Registered(w.log, a).value.identifier
    {
      assert RegistrationOk(w, a);
    }
  }

  /** What the log says stands in the way of a registration, in the order it is reported. */
  ghost predicate Refuses(log: seq<Event>, op: Op, outcome: Outcome)
    requires op.Register?
  {
    if KnownIdentifier(log, op.identifier) then outcome == Duplicate
    else if op.invitation.Some?
         && forall id :: OldestInvitation(log, id, op.invitation.value) ==> Issued(log, id).value.expiresAt <= op.now
    then outcome == InvalidInvitation
    else
      && outcome == Raised
      && (|| Registered(log, op.freshId).Some?
          || (op.verification.Some? && (op.verification.value.purpose.Recovery? || Issued(log, op.verification.value.tokenId).Some?)))
  }

  lemma RegistrationAnswers(w: World, op: Op)
    requires History(w) && op.Register?
    ensures var outcome := Apply(w.state, op).1;
            && (outcome.Created? ==> forall refusal :: !Refuses(w.log, op, refusal))
            && (!outcome.Created? ==> Refuses(w.log, op, outcome))
            && (outcome.Created? && op.invitation.Some? ==>
                  outcome.invitationId.Some? && OldestInvitation(w.log, outcome.invitationId.value, op.invitation.value))
  {
    IdentifierByHistory(w, op.identifier);
    assert RegistrationOk(w, op.freshId);
    if op.verification.Some? {
      TableFollows(w, op.verification.value.tokenId);
    }
    if op.invitation.Some? {
      InvitationByAge(w, op.invitation.value);
      var found := FindInvitation(w.state.tokens, w.state.tokenOrder, op.invitation.value);
      if found.Some? {
        TableFollows(w, found.value);
      }
    }
  }

  /**
   A registration creates the account, on the oldest live invitation if one is presented,
   exactly when the log knows nothing against it: the identifier is new, that invitation has
   not expired, the verification token's id was never issued and the account id is new.
   */
  lemma RegistrationFollowsHistory(ops: seq<Op>, op: Op)
    requires Admissible(ops) && op.Register?
    ensures var w := Run(START, ops);
            var outcome := Apply(w.state, op).1;
            && (!outcome.Created? <==> exists refusal :: Refuses(w.log, op, refusal))
            && (!outcome.Created? ==> Refuses(w.log, op, outcome))
            && (outcome.Created? ==>
                  && outcome.account == Account(op.freshId, op.identifier, op.displayName, true, op.verification.None?, 1)
                  && (outcome.invitationId.Some? <==> op.invitation.Some?)
                  && (op.invitation.Some? ==> OldestInvitation(w.log, outcome.invitationId.value, op.invitation.value)))
  {
    StartHistory();
    HistoryRun(START, ops);
    var w := Run(START, ops);
    RegistrationAnswers(w, op);
  }

  // ------------------------------------------------------------------------------ deadlines

  /** What is granted on a refresh token is granted on its record's terms and before both its deadlines. */
  ghost predicate InTime(refresh: map<string, Refresh>, e: Event) {
    && (e.outcome.Rotated? ==>
          && e.op.Rotate? && e.op.command.tokenId in refresh
          && var r, c := refresh[e.op.command.tokenId], e.op.command;
          && e.op.now < r.tokenExpiresAt && e.op.now < r.familyExpiresAt
          && r.tokenDigest == c.tokenDigest && r.accountId == c.accountId && r.familyId == c.familyId
          && r.securityEpoch == c.securityEpoch)
    && (e.outcome.Context? ==>
          && e.op.Prepare? && e.op.tokenId in refresh
          && var r, context := refresh[e.op.tokenId], e.outcome.context;
          && e.op.now < r.tokenExpiresAt && e.op.now < r.familyExpiresAt && r.tokenDigest == e.op.digest
          && context.accountId == r.accountId && context.familyId == r.familyId && context.securityEpoch == r.securityEpoch
          && context.tokenExpiresAt == r.tokenExpiresAt && context.familyExpiresAt == r.familyExpiresAt
          && context.scopes == r.scopes)
  }

  /** The terms of a record never change. */
  lemma TermsStay(s: State, op: Op, id: string)
    requires id in s.refresh
    ensures var refresh' := Apply(s, op).0.refresh;
            id in refresh' && s.refresh[id] == refresh'[id].(
              consumed := s.refresh[id].consumed, revoked := s.refresh[id].revoked,
              idempotency := s.refresh[id].idempotency, receipt := s.refresh[id].receipt)
  {
    if op.Rotate? && Apply(s, op).1.Rotated? {
      RotationWrites(s, op.command, op.now);
    } else if IssuesNothing(s, op) {
      OnlyMarks(s, op, id);
    }
  }

  lemma GrantedInTime(s: State, op: Op)
    ensures InTime(Apply(s, op).0.refresh, Event(op, Apply(s, op).1))
  {
    if op.Rotate? && Apply(s, op).1.Rotated? {
      RotationWrites(s, op.command, op.now);
      TermsStay(s, op, op.command.tokenId);
    }
  }

  ghost predicate AllInTime(w: World) {
    forall k :: 0 <= k < |w.log| ==> InTime(w.state.refresh, w.log[k])
  }

  lemma AllInTimeKept(w: World, op: Op)
    requires AllInTime(w)
    ensures AllInTime(Step(w, op))
  {
    var w' := Step(w, op);
    GrantedInTime(w.state, op);
    forall k | 0 <= k < |w.log| ensures InTime(w'.state.refresh, w'.log[k]) {
      assert w'.log[k] == w.log[k] && InTime(w.state.refresh, w.log[k]);
      if w.log[k].outcome.Rotated? {
        TermsStay(w.state, op, w.log[k].op.command.tokenId);
      } else if w.log[k].outcome.Context? {
        TermsStay(w.state, op, w.log[k].op.tokenId);
      }
    }
  }

  lemma {:induction false} InTimeRun(w: World, ops: seq<Op>)
    requires AllInTime(w)
    ensures AllInTime(Run(w, ops))
    decreases |ops|
  {
    if ops != [] {
      AllInTimeKept(w, ops[0]);
      InTimeRun(Step(w, ops[0]), ops[1..]);
    }
  }

  /**
   Over every run: each rotation and each prepared context named a token whose record, as it
   stands in the table to the end, has both deadlines after the time of the call and the very
   terms the call named or was given.
   */
  lemma GrantsAreInTime(ops: seq<Op>, k: nat)
    requires k < |Run(START, ops).log|
    ensures InTime(Run(START, ops).state.refresh, Run(START, ops).log[k])
  {
    InTimeRun(START, ops);
  }
}
