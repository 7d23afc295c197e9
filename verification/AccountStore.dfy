/**
 The in-memory account store itself. Each method is one critical section, tied to the
 operation of AccountSpec it performs; `Valid` is the joint invariant of every run.
 Refresh records are objects mutated in place, all other tables hold values.
 */
module AccountStore {
  import opened Prelude
  import opened AccountSpec
  import opened RefreshFamilies
  import opened AccountEpochs
  import opened PurposeTokens

  class RefreshState {
    const tokenDigest: Bytes
    const accountId: string
    const familyId: string
    const securityEpoch: int
    const tokenExpiresAt: Time
    const familyExpiresAt: Time
    const scopes: set<string>
    var consumed: bool
    var revoked: bool
    var idempotency: Option<Bytes>
    var receipt: Option<Bytes>

    constructor (tokenDigest: Bytes, accountId: string, familyId: string, securityEpoch: int,
                 tokenExpiresAt: Time, familyExpiresAt: Time, scopes: set<string>)
      ensures Value() == Refresh(tokenDigest, accountId, familyId, securityEpoch, tokenExpiresAt, familyExpiresAt,
                                 scopes, false, false, None, None)
    {
      this.tokenDigest, this.accountId, this.familyId := tokenDigest, accountId, familyId;
      this.securityEpoch, this.scopes := securityEpoch, scopes;
      this.tokenExpiresAt, this.familyExpiresAt := tokenExpiresAt, familyExpiresAt;
      consumed, revoked, idempotency, receipt := false, false, None, None;
    }

    function Value(): Refresh
      reads this
    {
      Refresh(tokenDigest, accountId, familyId, securityEpoch, tokenExpiresAt, familyExpiresAt, scopes,
              consumed, revoked, idempotency, receipt)
    }
  }

  /** Everything proved of the tables, over every run of the store. */
  ghost predicate Inv(w: World) {
    RefreshInv(w) && AccountsInv(w.state) && EpochInv(w) && TokensInv(w)
  }

  lemma ReachableInv(ops: seq<Op>)
    requires Admissible(ops)
    ensures Inv(Run(START, ops))
  {
    RefreshInvRun(START, ops);
    EpochInvRun(START, ops);
    TokensInvRun(START, ops);
  }

  lemma {:induction false} RunSnoc(w: World, ops: seq<Op>, op: Op)
    ensures Run(w, ops + [op]) == Step(Run(w, ops), op)
    decreases |ops|
  {
    if ops == [] {
      assert [op][1..] == [];
      assert Run(Step(w, op), [op][1..]) == Step(w, op);
      assert ops + [op] == [op];
    } else {
      RunSnoc(Step(w, ops[0]), ops[1..], op);
      assert (ops + [op])[1..] == ops[1..] + [op];
    }
  }

  /** The state reached by `ops`, and by one operation more. */
  lemma Extend(ops: seq<Op>, op: Op, s: State)
    requires Admissible(ops) && op.WellFormed() && Run(START, ops).state == s
    ensures Admissible(ops + [op]) && Run(START, ops + [op]).state == Apply(s, op).0
  {
    RunSnoc(START, ops, op);
  }

  lemma {:induction false} RevokingRevokedChangesNothing(refresh: map<string, Refresh>, accountId: string)
    ensures RevokeFamilies(refresh, FamiliesOf(refresh, accountId))
            == RevokeFamilies(refresh, RevocableFamilies(refresh, accountId))
  {
    forall t | t in refresh
      ensures RevokeFamilies(refresh, FamiliesOf(refresh, accountId))[t]
              == RevokeFamilies(refresh, RevocableFamilies(refresh, accountId))[t]
    {
      assert !refresh[t].revoked ==> Revocable(refresh, refresh[t].familyId);
    }
  }

  class InMemoryLocalAccountStore {
    var accounts: map<string, Account>
    var passwords: map<string, string>
    var tokens: map<string, Issue>
    var tokenOrder: seq<string>
    var used: set<string>
    var attempts: map<string, int>
    var refreshTokens: map<string, RefreshState>
    ghost var ops: seq<Op>

    ghost function RefreshTable(): map<string, Refresh>
      reads this`refreshTokens, refreshTokens.Values
    {
      map t | t in refreshTokens :: refreshTokens[t].Value()
    }

    ghost function Model(): State
      reads this, refreshTokens.Values
    {
      State(accounts, passwords, tokens, tokenOrder, used, attempts, RefreshTable())
    }

    /** Distinct refresh ids own distinct records. */
    ghost predicate Wired()
      reads this`refreshTokens
    {
      forall t, u :: t in refreshTokens && u in refreshTokens && t != u ==> refreshTokens[t] != refreshTokens[u]
    }

    /** The tables are exactly what the operations performed so far lead to. */
    ghost predicate Valid()
      reads this, refreshTokens.Values
    {
      Wired() && Admissible(ops) && Run(START, ops).state == Model()
    }

    constructor ()
      ensures Valid() && Model() == EMPTY && ops == [] && refreshTokens == map[]
    {
      accounts, passwords, tokens, tokenOrder := map[], map[], map[], [];
      used, attempts, refreshTokens, ops := {}, map[], map[], [];
    }

    /** The joint invariant holds of every store object at every moment. */
    lemma ValidMeansInv()
      requires Valid()
      ensures Inv(Run(START, ops)) && Run(START, ops).state == Model()
    {
      ReachableInv(ops);
    }

    predicate TokenIdExists(id: string)
      reads this
    {
      id in tokens || id in used
    }

    method Register(identifier: string, displayName: Option<string>, passwordHash: string, invitationDigest: Option<Bytes>,
                    verification: Option<Pending>, now: Time, freshId: string) returns (outcome: Outcome)
      requires Valid() && (verification.Some? ==> 1 <= verification.value.maximumAttempts <= 100)
      modifies this
      ensures var op := Op.Register(identifier, displayName, passwordHash, invitationDigest, verification, now, freshId);
              (Model(), outcome) == DoRegister(old(Model()), op) && ops == old(ops) + [op]
      ensures Valid() && refreshTokens == old(refreshTokens)
    {
      ghost var op := Op.Register(identifier, displayName, passwordHash, invitationDigest, verification, now, freshId);
      Extend(ops, op, Model());
      outcome := RegisterLocked(identifier, displayName, passwordHash, invitationDigest, verification, now, freshId);
      ops := ops + [op];
    }

    method RegisterLocked(identifier: string, displayName: Option<string>, passwordHash: string,
                          invitationDigest: Option<Bytes>, verification: Option<Pending>, now: Time, freshId: string)
      returns (outcome: Outcome)
      modifies this`accounts, this`passwords, this`tokens, this`tokenOrder, this`used
      ensures (Model(), outcome) == DoRegister(old(Model()),
                Op.Register(identifier, displayName, passwordHash, invitationDigest, verification, now, freshId))
    {
      if exists a | a in accounts :: accounts[a].normalizedIdentifier == identifier {
        return Duplicate;
      }
      var invitation := None;
      if invitationDigest.Some? {
        invitation := FindInvitation(tokens, tokenOrder, invitationDigest.value);
        if invitation.None? || tokens[invitation.value].expiresAt <= now {
          return InvalidInvitation;
        }
      }
      if verification.Some? && TokenIdExists(verification.value.tokenId) {
        return Raised;
      }
      if freshId in accounts {
        return Raised;
      }
      var account := Account(freshId, identifier, displayName, true, verification.None?, 1);
      if verification.Some? && verification.value.purpose.Recovery? {
        return Raised;
      }
      CommitLocked(account, passwordHash, verification, invitation);
      outcome := Created(account, invitation);
    }

    method CommitLocked(account: Account, passwordHash: string, verification: Option<Pending>, invitation: Option<string>)
      modifies this`accounts, this`passwords, this`tokens, this`tokenOrder, this`used
      ensures Model() == CommitRegistration(old(Model()), account, passwordHash, verification, invitation)
    {
      if verification.Some? {
        var issue := Bind(verification.value, account.accountId);
        tokens := tokens[issue.tokenId := issue];
        tokenOrder := tokenOrder + [issue.tokenId];
      }
      assert RefreshTable() == old(RefreshTable());
      accounts := accounts[account.accountId := account];
      passwords := passwords[account.accountId := passwordHash];
      if invitation.Some? {
        tokens := tokens - {invitation.value};
        tokenOrder := Without(tokenOrder, invitation.value);
        used := used + {invitation.value};
      }
      assert RefreshTable() == old(RefreshTable());
    }

    method IssueToken(issue: Issue) returns (outcome: Outcome)
      requires Valid() && issue.WellFormed()
      modifies this
      ensures (Model(), outcome) == Apply(old(Model()), Op.IssueToken(issue)) && ops == old(ops) + [Op.IssueToken(issue)]
      ensures Valid() && refreshTokens == old(refreshTokens)
    {
      Extend(ops, Op.IssueToken(issue), Model());
      ops := ops + [Op.IssueToken(issue)];
      if TokenIdExists(issue.tokenId) {
        return Raised;
      }
      tokens := tokens[issue.tokenId := issue];
      tokenOrder := tokenOrder + [issue.tokenId];
      outcome := Done;
    }

    /** Count one wrong proof, burning the token when its attempts run out. */
    method RecordFailedProofLocked(issue: Issue)
      modifies this`tokens, this`tokenOrder, this`attempts, this`used
      ensures Model() == FailedProof(old(Model()), issue)
    {
      var count := (if issue.tokenId in attempts then attempts[issue.tokenId] else 0) + 1;
      if count < issue.maximumAttempts {
        attempts := attempts[issue.tokenId := count];
        return;
      }
      BurnLocked(issue.tokenId);
    }

    method BurnLocked(id: string)
      modifies this`tokens, this`tokenOrder, this`attempts, this`used
      ensures Model() == Burn(old(Model()), id)
    {
      tokens := tokens - {id};
      tokenOrder := Without(tokenOrder, id);
      attempts := attempts - {id};
      used := used + {id};
    }

    method ConsumeAndVerify(id: string, digest: Bytes, now: Time) returns (outcome: Outcome)
      requires Valid()
      modifies this
      ensures (Model(), outcome) == DoVerify(old(Model()), id, digest, now) && ops == old(ops) + [Verify(id, digest, now)]
      ensures Valid() && refreshTokens == old(refreshTokens)
    {
      Extend(ops, Verify(id, digest, now), Model());
      outcome := VerifyLocked(id, digest, now);
      ops := ops + [Verify(id, digest, now)];
    }

    method VerifyLocked(id: string, digest: Bytes, now: Time) returns (outcome: Outcome)
      modifies this`accounts, this`tokens, this`tokenOrder, this`attempts, this`used
      ensures (Model(), outcome) == DoVerify(old(Model()), id, digest, now)
    {
      if id !in tokens || !tokens[id].purpose.Verification? {
        return if id in used then Used else Invalid;
      }
      var issue := tokens[id];
      if issue.digest != digest {
        RecordFailedProofLocked(issue);
        return Invalid;
      }
      if issue.expiresAt <= now {
        return Expired;
      }
      if issue.accountId !in accounts {
        return Invalid;
      }
      var account := accounts[issue.accountId];
      BurnLocked(id);
      accounts := accounts[account.accountId := account.(verified := true)];
      outcome := Verified(account.accountId, account.securityEpoch);
    }

    method ConsumeAndReset(id: string, digest: Bytes, passwordHash: string, now: Time) returns (outcome: Outcome)
      requires Valid()
      modifies this
      ensures (Model(), outcome) == DoReset(old(Model()), id, digest, passwordHash, now)
      ensures ops == old(ops) + [Reset(id, digest, passwordHash, now)]
      ensures Valid() && refreshTokens == old(refreshTokens)
    {
      Extend(ops, Reset(id, digest, passwordHash, now), Model());
      outcome := ResetLocked(id, digest, passwordHash, now);
      ops := ops + [Reset(id, digest, passwordHash, now)];
    }

    method ResetLocked(id: string, digest: Bytes, passwordHash: string, now: Time) returns (outcome: Outcome)
      modifies this`accounts, this`passwords, this`tokens, this`tokenOrder, this`attempts, this`used
      ensures (Model(), outcome) == DoReset(old(Model()), id, digest, passwordHash, now)
    {
      if id !in tokens || !tokens[id].purpose.Recovery? {
        return if id in used then Used else Invalid;
      }
      var issue := tokens[id];
      if issue.digest != digest {
        RecordFailedProofLocked(issue);
        return Invalid;
      }
      if issue.expiresAt <= now {
        return Expired;
      }
      if issue.accountId !in accounts || issue.issuedEpoch != Some(accounts[issue.accountId].securityEpoch) {
        return Conflict;
      }
      var account := accounts[issue.accountId];
      var nextEpoch := account.securityEpoch + 1;
      BurnLocked(id);
      passwords := passwords[account.accountId := passwordHash];
      accounts := accounts[account.accountId := account.(securityEpoch := nextEpoch)];
      outcome := WasReset(account.accountId, nextEpoch);
    }

    method CompareAndReplacePassword(accountId: string, expectedHash: string,
                                     passwordHash: string) returns (outcome: Outcome)
      requires Valid()
      modifies this
      ensures (Model(), outcome) == DoReplace(old(Model()), accountId, expectedHash, passwordHash)
      ensures ops == old(ops) + [ReplacePassword(accountId, expectedHash, passwordHash)]
      ensures Valid() && refreshTokens == old(refreshTokens)
    {
      Extend(ops, ReplacePassword(accountId, expectedHash, passwordHash), Model());
      ops := ops + [ReplacePassword(accountId, expectedHash, passwordHash)];
      if accountId !in accounts || accountId !in passwords || passwords[accountId] != expectedHash {
        return Flag(false);
      }
      passwords := passwords[accountId := passwordHash];
      outcome := Flag(true);
    }

    method ReplacePasswordAndBumpEpoch(accountId: string, passwordHash: string,
                                       expectedEpoch: int) returns (outcome: Outcome)
      requires Valid()
      modifies this
      ensures (Model(), outcome) == DoChange(old(Model()), accountId, passwordHash, expectedEpoch)
      ensures ops == old(ops) + [ChangePassword(accountId, passwordHash, expectedEpoch)]
      ensures Valid() && refreshTokens == old(refreshTokens)
    {
      Extend(ops, ChangePassword(accountId, passwordHash, expectedEpoch), Model());
      ops := ops + [ChangePassword(accountId, passwordHash, expectedEpoch)];
      if accountId !in accounts {
        return NotFound;
      }
      if accounts[accountId].securityEpoch != expectedEpoch {
        return Conflict;
      }
      passwords := passwords[accountId := passwordHash];
      accounts := accounts[accountId := accounts[accountId].(securityEpoch := expectedEpoch + 1)];
      outcome := Changed(expectedEpoch + 1);
    }

    method CreateRefreshFamily(c: CreateFamily) returns (outcome: Outcome)
      requires Valid()
      modifies this`ops, this`refreshTokens
      ensures (Model(), outcome) == DoNewFamily(old(Model()), c) && ops == old(ops) + [NewFamily(c)]
      ensures Valid() && fresh(refreshTokens.Values - old(refreshTokens.Values))
    {
      Extend(ops, NewFamily(c), Model());
      outcome := CreateFamilyLocked(c);
      ops := ops + [NewFamily(c)];
    }

    method CreateFamilyLocked(c: CreateFamily) returns (outcome: Outcome)
      requires Wired()
      modifies this`refreshTokens
      ensures Wired() && fresh(refreshTokens.Values - old(refreshTokens.Values))
      ensures (Model(), outcome) == DoNewFamily(old(Model()), c)
    {
      ghost var refresh := RefreshTable();
      assert forall t :: t in refreshTokens ==> refresh[t].familyId == refreshTokens[t].familyId;
      if c.accountId !in accounts || accounts[c.accountId].securityEpoch != c.securityEpoch
         || c.tokenId in refreshTokens
         || exists t | t in refreshTokens :: refreshTokens[t].familyId == c.familyId {
        return Flag(false);
      }
      var state := new RefreshState(c.tokenDigest, c.accountId, c.familyId, c.securityEpoch,
                                    c.tokenExpiresAt, c.familyExpiresAt, c.scopes);
      AddRecord(c.tokenId, state);
      outcome := Flag(true);
    }

    method AddRecord(id: string, record: RefreshState)
      requires Wired() && id !in refreshTokens && record !in refreshTokens.Values
      modifies this`refreshTokens
      ensures Wired() && refreshTokens == old(refreshTokens)[id := record]
      ensures refreshTokens.Values <= old(refreshTokens.Values) + {record}
      ensures RefreshTable() == old(RefreshTable())[id := record.Value()]
    {
      refreshTokens := refreshTokens[id := record];
    }

    method PrepareRotation(id: string, digest: Bytes, idempotency: Option<Bytes>, now: Time) returns (outcome: Outcome)
      requires Valid()
      modifies this`ops, refreshTokens.Values`revoked
      ensures (Model(), outcome) == DoPrepare(old(Model()), id, digest, idempotency, now)
      ensures ops == old(ops) + [Prepare(id, digest, idempotency, now)]
      ensures Valid()
    {
      Extend(ops, Prepare(id, digest, idempotency, now), Model());
      outcome := PrepareLocked(id, digest, idempotency, now);
      ops := ops + [Prepare(id, digest, idempotency, now)];
    }

    method PrepareLocked(id: string, digest: Bytes, idempotency: Option<Bytes>, now: Time) returns (outcome: Outcome)
      requires Wired()
      modifies refreshTokens.Values`revoked
      ensures (Model(), outcome) == DoPrepare(old(Model()), id, digest, idempotency, now)
    {
      if id !in refreshTokens || refreshTokens[id].tokenDigest != digest {
        return Invalid;
      }
      var state := refreshTokens[id];
      assert RefreshTable()[id] == state.Value();
      if state.revoked {
        return AlreadyRevoked;
      }
      if state.consumed {
        if state.idempotency == idempotency && state.receipt.Some? {
          return Replayed(ContextOf(state.Value()), state.receipt.value);
        }
        var _ := RevokeFamilyLocked(state.familyId);
        return ReplayDetected;
      }
      if state.tokenExpiresAt <= now || state.familyExpiresAt <= now {
        return Expired;
      }
      if state.accountId !in accounts || accounts[state.accountId].securityEpoch != state.securityEpoch {
        return EpochMismatch;
      }
      outcome := Context(ContextOf(state.Value()));
    }

    method RotateToken(c: RotateCommand, now: Time) returns (outcome: Outcome)
      requires Valid()
      modifies this`ops, this`refreshTokens, refreshTokens.Values
      ensures (Model(), outcome) == DoRotate(old(Model()), c, now) && ops == old(ops) + [Rotate(c, now)]
      ensures Valid() && fresh(refreshTokens.Values - old(refreshTokens.Values))
    {
      Extend(ops, Rotate(c, now), Model());
      outcome := RotateLocked(c, now);
      ops := ops + [Rotate(c, now)];
    }

    method RotateLocked(c: RotateCommand, now: Time) returns (outcome: Outcome)
      requires Wired()
      modifies this`refreshTokens, refreshTokens.Values
      ensures Wired() && fresh(refreshTokens.Values - old(refreshTokens.Values))
      ensures (Model(), outcome) == DoRotate(old(Model()), c, now)
    {
      ghost var refresh := RefreshTable();
      if c.tokenId !in refreshTokens {
        return Invalid;
      }
      var state := refreshTokens[c.tokenId];
      assert refresh[c.tokenId] == state.Value();
      if state.consumed || state.revoked || c.accountId !in accounts
         || state.tokenDigest != c.tokenDigest || state.accountId != c.accountId || state.familyId != c.familyId
         || state.securityEpoch != c.securityEpoch || accounts[c.accountId].securityEpoch != c.securityEpoch
         || c.successorId in refreshTokens {
        return Invalid;
      }
      if state.tokenExpiresAt <= now || state.familyExpiresAt <= now {
        return Expired;
      }
      CommitRotation(state, c);
      outcome := Rotated(c.receipt);
    }

    method MarkConsumed(state: RefreshState, c: RotateCommand)
      requires Wired() && c.tokenId in refreshTokens && refreshTokens[c.tokenId] == state
      modifies state
      ensures RefreshTable() == old(RefreshTable())
        [c.tokenId := old(state.Value()).(consumed := true, idempotency := c.idempotency, receipt := Some(c.receipt))]
    {
      state.consumed := true;
      state.idempotency := c.idempotency;
      state.receipt := Some(c.receipt);
    }

    /** The writes of a rotation that passed every check. */
    method CommitRotation(state: RefreshState, c: RotateCommand)
      requires Wired() && c.tokenId in refreshTokens && refreshTokens[c.tokenId] == state && c.successorId !in refreshTokens
      modifies this`refreshTokens, state
      ensures Wired() && fresh(refreshTokens.Values - old(refreshTokens.Values))
      ensures RefreshTable() == old(RefreshTable())
        [c.tokenId := old(state.Value()).(consumed := true, idempotency := c.idempotency, receipt := Some(c.receipt))]
        [c.successorId := Refresh(c.successorDigest, c.accountId, c.familyId, c.securityEpoch,
                                  c.successorExpiresAt, c.familyExpiresAt, c.scopes, false, false, None, None)]
    {
      MarkConsumed(state, c);
      var successor := new RefreshState(c.successorDigest, c.accountId, c.familyId, c.securityEpoch,
                                        c.successorExpiresAt, c.familyExpiresAt, c.scopes);
      AddRecord(c.successorId, successor);
    }

    /** Mark every record of the family, unless all are marked already. */
    method RevokeFamilyLocked(familyId: string) returns (changed: bool)
      requires Wired()
      modifies refreshTokens.Values`revoked
      ensures RefreshTable() == RevokeFamilies(old(RefreshTable()), {familyId})
      ensures changed == Revocable(old(RefreshTable()), familyId)
    {
      ghost var refresh := RefreshTable();
      assert forall t :: t in refreshTokens ==> refresh[t] == refreshTokens[t].Value();
      var states := set t | t in refreshTokens && refreshTokens[t].familyId == familyId;
      if forall t | t in states :: refreshTokens[t].revoked {
        UnrevocableIsFixed(refresh, familyId);
        return false;
      }
      changed := true;
      assert Revocable(refresh, familyId);
      MarkRevoked(states);
      forall t | t in refreshTokens ensures RefreshTable()[t] == RevokeFamilies(refresh, {familyId})[t] {
        assert refreshTokens[t].Value() == refresh[t].(revoked := refreshTokens[t].revoked);
      }
    }

    method MarkRevoked(states: set<string>)
      requires Wired() && states <= refreshTokens.Keys
      modifies refreshTokens.Values`revoked
      ensures forall u :: u in refreshTokens ==>
        refreshTokens[u].revoked == (old(refreshTokens[u].revoked) || u in states)
    {
      var pending := states;
      while pending != {}
        invariant pending <= states
        invariant forall u :: u in refreshTokens ==>
          refreshTokens[u].revoked == (old(refreshTokens[u].revoked) || (u in states && u !in pending))
        decreases pending
      {
        var u :| u in pending;
        refreshTokens[u].revoked := true;
        pending := pending - {u};
      }
    }

    method RevokeFamily(familyId: string) returns (outcome: Outcome)
      requires Valid()
      modifies this`ops, refreshTokens.Values`revoked
      ensures (Model(), outcome) == DoRevokeFamily(old(Model()), familyId) && ops == old(ops) + [Op.RevokeFamily(familyId)]
      ensures Valid()
    {
      Extend(ops, Op.RevokeFamily(familyId), Model());
      ops := ops + [Op.RevokeFamily(familyId)];
      RevokingAsOneStep(Model(), familyId);
      var changed := RevokeFamilyLocked(familyId);
      outcome := Flag(changed);
    }

    method RevokeToken(id: string, digest: Bytes) returns (outcome: Outcome)
      requires Valid()
      modifies this`ops, refreshTokens.Values`revoked
      ensures (Model(), outcome) == DoRevokeToken(old(Model()), id, digest) && ops == old(ops) + [Op.RevokeToken(id, digest)]
      ensures Valid()
    {
      Extend(ops, Op.RevokeToken(id, digest), Model());
      ops := ops + [Op.RevokeToken(id, digest)];
      if id !in refreshTokens || refreshTokens[id].tokenDigest != digest {
        return Flag(false);
      }
      assert RefreshTable()[id] == refreshTokens[id].Value();
      RevokingAsOneStep(Model(), refreshTokens[id].familyId);
      var changed := RevokeFamilyLocked(refreshTokens[id].familyId);
      outcome := Flag(changed);
    }

    method RevokeTokenForAccount(accountId: string, id: string, digest: Bytes) returns (outcome: Outcome)
      requires Valid()
      modifies this`ops, refreshTokens.Values`revoked
      ensures (Model(), outcome) == Apply(old(Model()), RevokeTokenFor(accountId, id, digest))
      ensures ops == old(ops) + [RevokeTokenFor(accountId, id, digest)]
      ensures Valid()
    {
      Extend(ops, RevokeTokenFor(accountId, id, digest), Model());
      ops := ops + [RevokeTokenFor(accountId, id, digest)];
      if id !in refreshTokens || refreshTokens[id].accountId != accountId || refreshTokens[id].tokenDigest != digest {
        return Flag(false);
      }
      assert RefreshTable()[id] == refreshTokens[id].Value();
      RevokingAsOneStep(Model(), refreshTokens[id].familyId);
      var changed := RevokeFamilyLocked(refreshTokens[id].familyId);
      outcome := Flag(changed);
    }

    method RevokeForAccount(accountId: string) returns (outcome: Outcome)
      requires Valid()
      modifies this`ops, refreshTokens.Values`revoked
      ensures (Model(), outcome) == Apply(old(Model()), RevokeAll(accountId)) && ops == old(ops) + [RevokeAll(accountId)]
      ensures Valid()
    {
      ghost var before := Model();
      Extend(ops, RevokeAll(accountId), before);
      outcome := RevokeForAccountLocked(accountId);
      assert Model() == Apply(before, RevokeAll(accountId)).0;
      ops := ops + [RevokeAll(accountId)];
    }

    method RevokeForAccountLocked(accountId: string) returns (outcome: Outcome)
      requires Wired()
      modifies refreshTokens.Values`revoked
      ensures (Model(), outcome) == Apply(old(Model()), RevokeAll(accountId))
    {
      RevokingAllAsOneStep(Model(), accountId);
      var families := FamilyIdsOf(accountId);
      var n := RevokeEach(families);
      outcome := Count(n);
    }

    method FamilyIdsOf(accountId: string) returns (families: set<string>)
      ensures families == FamiliesOf(RefreshTable(), accountId)
    {
      ghost var refresh := RefreshTable();
      families := set t | t in refreshTokens && refreshTokens[t].accountId == accountId :: refreshTokens[t].familyId;
      assert forall t :: t in refreshTokens ==> refresh[t] == refreshTokens[t].Value();
    }

    method RevokeEach(families: set<string>) returns (n: nat)
      requires Wired()
      modifies refreshTokens.Values`revoked
      ensures RefreshTable() == RevokeFamilies(old(RefreshTable()), families)
      ensures n == |RevocableIn(old(RefreshTable()), families)|
    {
      ghost var refresh := RefreshTable();
      var pending := families;
      ghost var done, counted: set<string> := {}, {};
      n := 0;
      assert RevokeFamilies(refresh, {}) == refresh;
      while pending != {}
        invariant pending == families - done && done <= families
        invariant RefreshTable() == RevokeFamilies(refresh, done)
        invariant n == |counted| && counted == RevocableIn(refresh, done)
        decreases pending
      {
        var f :| f in pending;
        RevocableUnaffected(refresh, done, f);
        RevokingInTurn(refresh, done, f);
        OneMoreRevocable(refresh, done, f);
        var changed := RevokeFamilyLocked(f);
        pending := pending - {f};
        done := done + {f};
        if changed {
          counted := counted + {f};
          n := n + 1;
        }
      }
      assert done == families;
    }
  }

  ghost function RevocableIn(refresh: map<string, Refresh>, families: set<string>): set<string> {
    set f | f in families && Revocable(refresh, f)
  }

  lemma {:induction false} OneMoreRevocable(refresh: map<string, Refresh>, done: set<string>, f: string)
    ensures RevocableIn(refresh, done + {f})
            == if Revocable(refresh, f) then RevocableIn(refresh, done) + {f} else RevocableIn(refresh, done)
    ensures RevocableIn(refresh, done) <= done
  {
  }

  lemma {:induction false} RevokingAllAsOneStep(s: State, a: string)
    ensures var families := FamiliesOf(s.refresh, a);
            Apply(s, RevokeAll(a))
            == (s.(refresh := RevokeFamilies(s.refresh, families)), Count(|RevocableIn(s.refresh, families)|))
  {
    RevokingRevokedChangesNothing(s.refresh, a);
    assert RevocableFamilies(s.refresh, a) == RevocableIn(s.refresh, FamiliesOf(s.refresh, a));
  }

  lemma {:induction false} RevokingAsOneStep(s: State, f: string)
    ensures DoRevokeFamily(s, f) == (s.(refresh := RevokeFamilies(s.refresh, {f})), Flag(Revocable(s.refresh, f)))
  {
    UnrevocableIsFixed(s.refresh, f);
  }

  lemma {:induction false} UnrevocableIsFixed(refresh: map<string, Refresh>, f: string)
    ensures !Revocable(refresh, f) ==> RevokeFamilies(refresh, {f}) == refresh
  {
  }

  lemma {:induction false} RevocableUnaffected(refresh: map<string, Refresh>, done: set<string>, f: string)
    requires f !in done
    ensures Revocable(RevokeFamilies(refresh, done), f) <==> Revocable(refresh, f)
  {
    var r := RevokeFamilies(refresh, done);
    if Revocable(refresh, f) {
      var t :| t in refresh && refresh[t].familyId == f && !refresh[t].revoked;
      assert t in r && r[t] == refresh[t];
    }
  }

  lemma {:induction false} RevokingInTurn(refresh: map<string, Refresh>, done: set<string>, f: string)
    ensures RevokeFamilies(RevokeFamilies(refresh, done), {f}) == RevokeFamilies(refresh, done + {f})
  {
  }
}
