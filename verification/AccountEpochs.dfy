/**
 Accounts over every run: identifiers stay unique, the security epoch counts the
 password changes and resets exactly, and each epoch is left once.
 */
module AccountEpochs {
  import opened Prelude
  import opened AccountSpec
  import opened RefreshFamilies

  /** The event moved account `a` away from epoch `epoch`. */
  predicate Leaves(e: Event, a: string, epoch: int) {
    || (e.op.ChangePassword? && e.outcome == Changed(epoch + 1) && e.op.accountId == a)
    || (e.op.Reset? && e.outcome == WasReset(a, epoch + 1))
  }

  /** A CHANGED or RESET outcome for the account. */
  predicate Bumps(e: Event, a: string) {
    || (e.op.ChangePassword? && e.outcome.Changed? && e.op.accountId == a)
    || (e.op.Reset? && e.outcome.WasReset? && e.outcome.accountId == a)
  }

  function BumpCount(log: seq<Event>, a: string): nat {
    if log == [] then 0
    else BumpCount(log[..|log| - 1], a) + if Bumps(log[|log| - 1], a) then 1 else 0
  }

  function LeaveCount(log: seq<Event>, a: string, epoch: int): nat {
    if log == [] then 0
    else LeaveCount(log[..|log| - 1], a, epoch) + if Leaves(log[|log| - 1], a, epoch) then 1 else 0
  }

  lemma CountUnfold(log: seq<Event>, e: Event, a: string, epoch: int)
    ensures BumpCount(log + [e], a) == BumpCount(log, a) + if Bumps(e, a) then 1 else 0
    ensures LeaveCount(log + [e], a, epoch) == LeaveCount(log, a, epoch) + if Leaves(e, a, epoch) then 1 else 0
  {
    SnocSplit(log, e);
  }

  ghost predicate AccountsInv(s: State) {
    && (forall a :: a in s.accounts ==> s.accounts[a].accountId == a && a in s.passwords)
    && (forall a, b :: a in s.accounts && b in s.accounts && a != b ==>
          s.accounts[a].normalizedIdentifier != s.accounts[b].normalizedIdentifier)
  }

  ghost predicate EpochInv(w: World) {
    && (forall a :: BumpCount(w.log, a) == if a in w.state.accounts then w.state.accounts[a].securityEpoch - 1 else 0)
    && (forall a, epoch :: LeaveCount(w.log, a, epoch) ==
          if a in w.state.accounts && 1 <= epoch < w.state.accounts[a].securityEpoch then 1 else 0)
  }

  lemma {:induction false} RegistrationAddsAccount(s: State, op: Op)
    requires op.Register? && Apply(s, op).1.Created?
    ensures var account := Apply(s, op).1.account;
            && Apply(s, op).0.accounts == s.accounts[op.freshId := account]
            && Apply(s, op).0.passwords == s.passwords[op.freshId := op.passwordHash]
            && op.freshId !in s.accounts && account.accountId == op.freshId && account.securityEpoch == 1
            && account.normalizedIdentifier == op.identifier && !IdentifierTaken(s, op.identifier)
  {
  }

  /** Outcomes that write the account table. */
  predicate WritesAccounts(outcome: Outcome) {
    outcome.Created? || outcome.Verified? || outcome.WasReset? || outcome.Changed?
  }

  lemma {:induction false} QuietSteps(s: State, op: Op)
    requires !WritesAccounts(Apply(s, op).1)
    ensures Apply(s, op).0.accounts == s.accounts && Apply(s, op).0.passwords.Keys == s.passwords.Keys
  {
  }

  /** The one account a writing step rewrites. */
  function Rewritten(s: State, op: Op): string
    requires op.ChangePassword? || ((op.Verify? || op.Reset?) && op.tokenId in s.tokens)
  {
    if op.ChangePassword? then op.accountId else s.tokens[op.tokenId].accountId
  }

  lemma {:induction false} RewriteSteps(s: State, op: Op)
    requires AccountsInv(s) && WritesAccounts(Apply(s, op).1) && !op.Register?
    ensures op.ChangePassword? || ((op.Verify? || op.Reset?) && op.tokenId in s.tokens)
    ensures var (s', outcome) := Apply(s, op);
            var a := Rewritten(s, op);
            && a in s.accounts && a in s'.accounts && s'.accounts == s.accounts[a := s'.accounts[a]]
            && s'.passwords.Keys == s.passwords.Keys + {a}
            && s'.accounts[a].accountId == a && s'.accounts[a].normalizedIdentifier == s.accounts[a].normalizedIdentifier
            && (forall b :: Bumps(Event(op, outcome), b) ==> b == a)
            && s'.accounts[a].securityEpoch
               == s.accounts[a].securityEpoch + if Bumps(Event(op, outcome), a) then 1 else 0
  {
  }

  /** One step changes an account record only by verifying it or bumping its epoch. */
  lemma {:induction false} AccountStep(s: State, op: Op, a: string)
    requires AccountsInv(s)
    ensures AccountsInv(Apply(s, op).0)
    ensures var (s', outcome) := Apply(s, op);
            if a in s.accounts then
              && a in s'.accounts
              && s'.accounts[a].normalizedIdentifier == s.accounts[a].normalizedIdentifier
              && s'.accounts[a].securityEpoch
                 == s.accounts[a].securityEpoch + if Bumps(Event(op, outcome), a) then 1 else 0
            else
              !Bumps(Event(op, outcome), a) && (a in s'.accounts ==> s'.accounts[a].securityEpoch == 1)
  {
    if op.Register? && Apply(s, op).1.Created? {
      RegistrationAddsAccount(s, op);
    } else if WritesAccounts(Apply(s, op).1) {
      RewriteSteps(s, op);
    } else {
      QuietSteps(s, op);
    }
  }

  lemma {:induction false} LeavingStep(s: State, op: Op, a: string, epoch: int)
    requires AccountsInv(s)
    ensures Leaves(Event(op, Apply(s, op).1), a, epoch) <==>
            Bumps(Event(op, Apply(s, op).1), a) && a in s.accounts && s.accounts[a].securityEpoch == epoch
  {
  }

  lemma {:induction false} EpochInvKept(w: World, op: Op)
    requires AccountsInv(w.state) && EpochInv(w)
    ensures AccountsInv(Step(w, op).state) && EpochInv(Step(w, op))
  {
    var e := Event(op, Apply(w.state, op).1);
    AccountStep(w.state, op, "");
    forall a
      ensures BumpCount(w.log + [e], a) ==
              if a in Step(w, op).state.accounts then Step(w, op).state.accounts[a].securityEpoch - 1 else 0
    {
      CountUnfold(w.log, e, a, 0);
      AccountStep(w.state, op, a);
    }
    forall a, epoch
      ensures LeaveCount(w.log + [e], a, epoch) ==
              if a in Step(w, op).state.accounts && 1 <= epoch < Step(w, op).state.accounts[a].securityEpoch then 1 else 0
    {
      CountUnfold(w.log, e, a, epoch);
      AccountStep(w.state, op, a);
      LeavingStep(w.state, op, a, epoch);
      assert BumpCount(w.log, a) >= 0;
    }
  }

  lemma {:induction false} EpochInvRun(w: World, ops: seq<Op>)
    requires AccountsInv(w.state) && EpochInv(w)
    ensures AccountsInv(Run(w, ops).state) && EpochInv(Run(w, ops))
    decreases |ops|
  {
    if ops != [] {
      EpochInvKept(w, ops[0]);
      EpochInvRun(Step(w, ops[0]), ops[1..]);
    }
  }

  /**
   After any run an account's epoch is one more than its CHANGED and RESET outcomes,
   every epoch it has passed was left by exactly one of them, and no two accounts share
   an identifier.
   */
  lemma EpochCountsChanges(ops: seq<Op>)
    ensures var w := Run(START, ops);
            && (forall a :: a in w.state.accounts ==> w.state.accounts[a].securityEpoch - 1 == BumpCount(w.log, a))
            && (forall a, epoch :: LeaveCount(w.log, a, epoch) ==
                  if a in w.state.accounts && 1 <= epoch < w.state.accounts[a].securityEpoch then 1 else 0)
            && (forall a, b :: a in w.state.accounts && b in w.state.accounts && a != b ==>
                  w.state.accounts[a].normalizedIdentifier != w.state.accounts[b].normalizedIdentifier)
  {
    EpochInvRun(START, ops);
  }

  ghost predicate PastEpoch(s: State, a: string, epoch: int) {
    a in s.accounts && epoch < s.accounts[a].securityEpoch
  }

  /** The event prepared or rotated a refresh token of `a` that was issued at `epoch`. */
  predicate Uses(e: Event, a: string, epoch: int) {
    || (e.outcome.Context? && e.outcome.context.accountId == a && e.outcome.context.securityEpoch == epoch)
    || (e.op.Rotate? && e.outcome.Rotated? && e.op.command.accountId == a && e.op.command.securityEpoch == epoch)
  }

  /** The event reset `a`'s password with a recovery token issued at `epoch`. */
  predicate RecoveredAt(e: Event, a: string, epoch: int) {
    e.op.Reset? && e.outcome == WasReset(a, epoch + 1)
  }

  lemma {:induction false} PastEpochsAreDead(w: World, ops: seq<Op>, a: string, epoch: int)
    requires AccountsInv(w.state) && PastEpoch(w.state, a, epoch)
    ensures var w' := Run(w, ops);
            && w.log <= w'.log && PastEpoch(w'.state, a, epoch)
            && forall k :: |w.log| <= k < |w'.log| ==>
                 !Uses(w'.log[k], a, epoch) && !Leaves(w'.log[k], a, epoch) && !RecoveredAt(w'.log[k], a, epoch)
    decreases |ops|
  {
    if ops != [] {
      var op := ops[0];
      AccountStep(w.state, op, a);
      LeavingStep(w.state, op, a, epoch);
      assert !Uses(Event(op, Apply(w.state, op).1), a, epoch);
      PastEpochsAreDead(Step(w, op), ops[1..], a, epoch);
    }
  }

  /**
   Once a change or reset has left `epoch`, no continuation prepares or rotates a refresh
   token of that epoch, and no recovery token issued at that epoch resets the password.
   */
  lemma EpochBumpIsFinal(before: seq<Op>, op: Op, after: seq<Op>, a: string, epoch: int)
    requires var s := Run(START, before).state;
             Leaves(Event(op, Apply(s, op).1), a, epoch)
    ensures var w := Step(Run(START, before), op);
            var w' := Run(w, after);
            forall k :: |w.log| <= k < |w'.log| ==>
              forall earlier :: earlier <= epoch ==> !Uses(w'.log[k], a, earlier) && !RecoveredAt(w'.log[k], a, earlier)
  {
    var w0 := Run(START, before);
    EpochInvRun(START, before);
    AccountStep(w0.state, op, a);
    LeavingStep(w0.state, op, a, epoch);
    var w := Step(w0, op);
    var w' := Run(w, after);
    forall k, earlier | |w.log| <= k < |w'.log| && earlier <= epoch
      ensures !Uses(w'.log[k], a, earlier) && !RecoveredAt(w'.log[k], a, earlier)
    {
      PastEpochsAreDead(w, after, a, earlier);
    }
  }

  /** A reset happens at exactly the epoch its recovery token was issued for. */
  lemma ResetNeedsIssuedEpoch(ops: seq<Op>, id: string, digest: Bytes, hash: string, now: Time, a: string, epoch: int)
    requires var s := Run(START, ops).state;
             DoReset(s, id, digest, hash, now).1 == WasReset(a, epoch + 1)
    ensures var s := Run(START, ops).state;
            id in s.tokens && s.tokens[id].issuedEpoch == Some(epoch) && s.tokens[id].accountId == a
            && s.tokens[id].digest == digest && now < s.tokens[id].expiresAt
  {
    EpochInvRun(START, ops);
  }

  lemma ResetLeavesIssuedEpoch(w: World, op: Op)
    requires EpochInv(w) && AccountsInv(w.state) && op.Reset? && DoReset(w.state, op.tokenId, op.digest, op.passwordHash, op.now).1.WasReset?
    ensures op.tokenId in w.state.tokens && w.state.tokens[op.tokenId].issuedEpoch.Some?
    ensures var issue := w.state.tokens[op.tokenId];
            && AccountsInv(Step(w, op).state)
            && PastEpoch(Step(w, op).state, issue.accountId, issue.issuedEpoch.value)
  {
    EpochInvKept(w, op);
  }

  lemma PastEpochTokensFail(s: State, a: string, epoch: int, id: string, digest: Bytes, hash: string, now: Time)
    requires PastEpoch(s, a, epoch) && id in s.tokens && s.tokens[id].accountId == a && s.tokens[id].issuedEpoch == Some(epoch)
    ensures !DoReset(s, id, digest, hash, now).1.WasReset?
  {
  }

  /**
   Of all recovery tokens issued to an account at one epoch at most one ever resets the
   password: after the first success, no continuation lets this or another one through.
   */
  lemma OneResetPerEpoch(before: seq<Op>, first: Op, between: seq<Op>, id: string, digest: Bytes, hash: string, now: Time)
    requires first.Reset? && DoReset(Run(START, before).state, first.tokenId, first.digest, first.passwordHash, first.now).1.WasReset?
    ensures var w := Run(START, before);
            var s, s' := w.state, Run(Step(w, first), between).state;
            && first.tokenId in s.tokens && s.tokens[first.tokenId].issuedEpoch.Some?
            && (id in s'.tokens && s'.tokens[id].accountId == s.tokens[first.tokenId].accountId
                && s'.tokens[id].issuedEpoch == s.tokens[first.tokenId].issuedEpoch ==>
                  !DoReset(s', id, digest, hash, now).1.WasReset?)
  {
    var w := Run(START, before);
    EpochInvRun(START, before);
    ResetLeavesIssuedEpoch(w, first);
    var issue := w.state.tokens[first.tokenId];
    var a, epoch := issue.accountId, issue.issuedEpoch.value;
    PastEpochsAreDead(Step(w, first), between, a, epoch);
    var s' := Run(Step(w, first), between).state;
    if id in s'.tokens && s'.tokens[id].accountId == a && s'.tokens[id].issuedEpoch == Some(epoch) {
      PastEpochTokensFail(s', a, epoch, id, digest, hash, now);
    }
  }

  /** A receipt is still replayed after the account's epoch has moved on. */
  lemma ReceiptOutlivesEpoch(ops: seq<Op>, f: string, i: nat, hash: string, now: Time)
    requires i < |Rotations(Run(START, ops).log, f)| && !FamilyRevoked(Run(START, ops).state.refresh, f)
    ensures var w := Run(START, ops);
            var cmd := Rotations(w.log, f)[i];
            var s' := DoChange(w.state, cmd.accountId, hash, cmd.securityEpoch).0;
            var outcome := DoPrepare(s', cmd.tokenId, cmd.tokenDigest, cmd.idempotency, now).1;
            outcome.Replayed? && outcome.receipt == cmd.receipt
  {
    SecondPresentation(ops, f, i, Rotations(Run(START, ops).log, f)[i].idempotency, now);
  }

  // ------------------------------------------------------------- stored credentials

  /** The password hash an event stored for the account. */
  function Stores(e: Event, a: string): Option<string> {
    if e.op.Register? && e.outcome.Created? && e.outcome.account.accountId == a then Some(e.op.passwordHash)
    else if e.op.ReplacePassword? && e.outcome == Flag(true) && e.op.accountId == a then Some(e.op.passwordHash)
    else if e.op.ChangePassword? && e.outcome.Changed? && e.op.accountId == a then Some(e.op.passwordHash)
    else if e.op.Reset? && e.outcome.WasReset? && e.outcome.accountId == a then Some(e.op.passwordHash)
    else None
  }

  /** What an event says about the account being verified. */
  function Proves(e: Event, a: string): Option<bool> {
    if e.op.Register? && e.outcome.Created? && e.outcome.account.accountId == a then Some(e.op.verification.None?)
    else if e.op.Verify? && e.outcome.Verified? && e.outcome.accountId == a then Some(true)
    else None
  }

  function LastHash(log: seq<Event>, a: string): Option<string> {
    if log == [] then None
    else if Stores(log[|log| - 1], a).Some? then Stores(log[|log| - 1], a)
    else LastHash(log[..|log| - 1], a)
  }

  function LastProof(log: seq<Event>, a: string): Option<bool> {
    if log == [] then None
    else if Proves(log[|log| - 1], a).Some? then Proves(log[|log| - 1], a)
    else LastProof(log[..|log| - 1], a)
  }

  ghost predicate CredentialsOk(w: World, a: string) {
    && LastHash(w.log, a) == (if a in w.state.passwords then Some(w.state.passwords[a]) else None)
    && LastProof(w.log, a) == (if a in w.state.accounts then Some(w.state.accounts[a].verified) else None)
  }

  /** Passwords change only where an event says so, one kind of operation at a time. */
  lemma RegistrationHash(s: State, op: Op, a: string)
    requires AccountsInv(s) && op.Register?
    ensures HashFollows(s, op, a)
  {
  }

  lemma ResetHash(s: State, op: Op, a: string)
    requires AccountsInv(s) && op.Reset?
    ensures HashFollows(s, op, a)
  {
  }

  lemma OtherHash(s: State, op: Op, a: string)
    requires AccountsInv(s) && !op.Register? && !op.Reset?
    ensures HashFollows(s, op, a)
  {
  }

  ghost predicate HashFollows(s: State, op: Op, a: string) {
    var s' := Apply(s, op).0;
    var stored := Stores(Event(op, Apply(s, op).1), a);
    if stored.Some? then a in s'.passwords && s'.passwords[a] == stored.value
    else (a in s'.passwords <==> a in s.passwords) && (a in s.passwords ==> s'.passwords[a] == s.passwords[a])
  }

  lemma {:induction false} HashStep(s: State, op: Op, a: string)
    requires AccountsInv(s)
    ensures HashFollows(s, op, a)
  {
    if op.Register? {
      RegistrationHash(s, op, a);
    } else if op.Reset? {
      ResetHash(s, op, a);
    } else {
      OtherHash(s, op, a);
    }
  }

  lemma {:induction false} ProofStep(s: State, op: Op, a: string)
    requires AccountsInv(s)
    ensures var s' := Apply(s, op).0;
            var proved := Proves(Event(op, Apply(s, op).1), a);
            if proved.Some? then a in s'.accounts && s'.accounts[a].verified == proved.value
            else (a in s'.accounts <==> a in s.accounts)
                 && (a in s.accounts ==> s'.accounts[a].verified == s.accounts[a].verified)
  {
    if !WritesAccounts(Apply(s, op).1) {
      QuietSteps(s, op);
    } else if op.Register? {
      RegistrationAddsAccount(s, op);
    }
  }

  lemma {:induction false} CredentialsKept(w: World, op: Op, a: string)
    requires AccountsInv(w.state) && CredentialsOk(w, a)
    ensures CredentialsOk(Step(w, op), a)
  {
    var e := Event(op, Apply(w.state, op).1);
    SnocSplit(w.log, e);
    HashStep(w.state, op, a);
    ProofStep(w.state, op, a);
  }

  lemma {:induction false} CredentialsRun(w: World, ops: seq<Op>, a: string)
    requires AccountsInv(w.state) && CredentialsOk(w, a)
    ensures CredentialsOk(Run(w, ops), a)
    decreases |ops|
  {
    if ops != [] {
      CredentialsKept(w, ops[0], a);
      AccountStep(w.state, ops[0], a);
      CredentialsRun(Step(w, ops[0]), ops[1..], a);
    }
  }

  /**
   The stored hash is always the one the latest successful registration, rehash, change or
   reset supplied, and an account is verified exactly when it was created so or proved it.
   */
  lemma CredentialsFollowOutcomes(ops: seq<Op>, a: string)
    requires a in Run(START, ops).state.accounts
    ensures var w := Run(START, ops);
            && a in w.state.passwords && LastHash(w.log, a) == Some(w.state.passwords[a])
            && LastProof(w.log, a) == Some(w.state.accounts[a].verified)
  {
    EpochInvRun(START, ops);
    CredentialsRun(START, ops, a);
  }
}
