/**
 The reference local-account store as a pure transition function: one operation
 per store method, each one atomic step because the store runs it under its lock.
 Timestamps are integer microseconds.
 */
module AccountSpec {
  import opened Prelude

  type Time = int

  datatype Account = Account(
    accountId: string,
    normalizedIdentifier: string,
    displayName: Option<string>,
    active: bool,
    verified: bool,
    securityEpoch: int)

  datatype Purpose = Invitation | Verification | Recovery

  /** Hashed one-time material before an account is known. */
  datatype Pending = Pending(tokenId: string, digest: Bytes, purpose: Purpose, expiresAt: Time, maximumAttempts: int)

  datatype Issue = Issue(
    tokenId: string,
    digest: Bytes,
    purpose: Purpose,
    accountId: string,
    expiresAt: Time,
    maximumAttempts: int,
    issuedEpoch: Option<int>)
  {
    // What the TokenIssue constructor enforces on every instance.
    predicate WellFormed() {
      && 1 <= maximumAttempts <= 100
      && (purpose.Recovery? <==> issuedEpoch.Some?)
    }
  }

  datatype Refresh = Refresh(
    tokenDigest: Bytes,
    accountId: string,
    familyId: string,
    securityEpoch: int,
    tokenExpiresAt: Time,
    familyExpiresAt: Time,
    scopes: set<string>,
    consumed: bool,
    revoked: bool,
    idempotency: Option<Bytes>,
    receipt: Option<Bytes>)

  datatype FamilyContext = FamilyContext(
    accountId: string,
    familyId: string,
    securityEpoch: int,
    tokenExpiresAt: Time,
    familyExpiresAt: Time,
    scopes: set<string>)

  /** The store's tables. `tokenOrder` is the insertion order of the dictionary `tokens`. */
  datatype State = State(
    accounts: map<string, Account>,
    passwords: map<string, string>,
    tokens: map<string, Issue>,
    tokenOrder: seq<string>,
    used: set<string>,
    attempts: map<string, int>,
    refresh: map<string, Refresh>)

  const EMPTY := State(map[], map[], map[], [], {}, map[], map[])

  datatype CreateFamily = CreateFamily(
    tokenId: string, tokenDigest: Bytes, accountId: string, familyId: string, securityEpoch: int,
    tokenExpiresAt: Time, familyExpiresAt: Time, scopes: set<string>)

  datatype RotateCommand = RotateCommand(
    tokenId: string, tokenDigest: Bytes, accountId: string, familyId: string, securityEpoch: int,
    successorId: string, successorDigest: Bytes, successorExpiresAt: Time, familyExpiresAt: Time,
    receipt: Bytes, idempotency: Option<Bytes>, scopes: set<string>)

  datatype Op =
    | Register(identifier: string, displayName: Option<string>, passwordHash: string,
               invitation: Option<Bytes>, verification: Option<Pending>, now: Time, freshId: string)
    | IssueToken(issue: Issue)
    | Verify(tokenId: string, digest: Bytes, now: Time)
    | Reset(tokenId: string, digest: Bytes, passwordHash: string, now: Time)
    | ReplacePassword(accountId: string, expectedHash: string, passwordHash: string)
    | ChangePassword(accountId: string, passwordHash: string, expectedEpoch: int)
    | NewFamily(create: CreateFamily)
    | Prepare(tokenId: string, digest: Bytes, idempotency: Option<Bytes>, now: Time)
    | Rotate(command: RotateCommand, now: Time)
    | RevokeFamily(familyId: string)
    | RevokeToken(tokenId: string, digest: Bytes)
    | RevokeTokenFor(accountId: string, tokenId: string, digest: Bytes)
    | RevokeAll(accountId: string)
  {
    // Constructor checks of the values a caller may pass.
    predicate WellFormed() {
      match this
      case IssueToken(issue) => issue.WellFormed()
      case Register(_, _, _, _, verification, _, _) =>
        verification.Some? ==> 1 <= verification.value.maximumAttempts <= 100
      case _ => true
    }
  }

  datatype Outcome =
    | Raised
    | Done
    | Flag(ok: bool)
    | Count(n: nat)
    // register
    | Duplicate
    | InvalidInvitation
    | Created(account: Account, invitationId: Option<string>)
    // verify and reset
    | Invalid
    | Used
    | Expired
    | Conflict
    | Verified(accountId: string, epoch: int)
    | WasReset(accountId: string, epoch: int)
    // password change
    | NotFound
    | Changed(epoch: int)
    // refresh tokens
    | Context(context: FamilyContext)
    | Replayed(context: FamilyContext, receipt: Bytes)
    | AlreadyRevoked
    | ReplayDetected
    | EpochMismatch
    | Rotated(receipt: Bytes)

  // ---------------------------------------------------------------- accounts

  ghost predicate IdentifierTaken(s: State, identifier: string) {
    exists a :: a in s.accounts && s.accounts[a].normalizedIdentifier == identifier
  }

  predicate TokenIdKnown(s: State, id: string) {
    id in s.tokens || id in s.used
  }

  /** First live invitation with this digest, in insertion order. */
  function FindInvitation(tokens: map<string, Issue>, order: seq<string>, digest: Bytes): (r: Option<string>)
    ensures r.Some? ==> r.value in order && r.value in tokens
                        && tokens[r.value].purpose.Invitation? && tokens[r.value].digest == digest
  {
    if order == [] then None
    else if order[0] in tokens && tokens[order[0]].purpose.Invitation? && tokens[order[0]].digest == digest
    then Some(order[0])
    else FindInvitation(tokens, order[1..], digest)
  }

  function Without(order: seq<string>, id: string): (r: seq<string>)
    ensures forall x :: x in r <==> x in order && x != id
  {
    if order == [] then []
    else if order[0] == id then Without(order[1..], id)
    else [order[0]] + Without(order[1..], id)
  }

  function Bind(p: Pending, accountId: string): Issue {
    Issue(p.tokenId, p.digest, p.purpose, accountId, p.expiresAt, p.maximumAttempts, None)
  }

  function AddToken(s: State, issue: Issue): State {
    s.(tokens := s.tokens[issue.tokenId := issue], tokenOrder := s.tokenOrder + [issue.tokenId])
  }

  /** `del tokens[id]; attempts.pop(id); used.add(id)` */
  function Burn(s: State, id: string): State {
    s.(tokens := s.tokens - {id}, tokenOrder := Without(s.tokenOrder, id),
       attempts := s.attempts - {id}, used := s.used + {id})
  }

  /** The writes of a registration that passed every check. The invitation's counter is not touched. */
  function CommitRegistration(s: State, account: Account, passwordHash: string, verification: Option<Pending>,
                              invitation: Option<string>): State
  {
    var s1 := if verification.Some? then AddToken(s, Bind(verification.value, account.accountId)) else s;
    var s2 := s1.(accounts := s1.accounts[account.accountId := account],
                  passwords := s1.passwords[account.accountId := passwordHash]);
    if invitation.Some?
    then s2.(tokens := s2.tokens - {invitation.value},
             tokenOrder := Without(s2.tokenOrder, invitation.value),
             used := s2.used + {invitation.value})
    else s2
  }

  ghost function DoRegister(s: State, op: Op): (State, Outcome)
    requires op.Register?
  {
    if IdentifierTaken(s, op.identifier) then (s, Duplicate)
    else
      var invitation := if op.invitation.Some? then FindInvitation(s.tokens, s.tokenOrder, op.invitation.value) else None;
      if op.invitation.Some? && (invitation.None? || s.tokens[invitation.value].expiresAt <= op.now) then
        (s, InvalidInvitation)
      else if op.verification.Some? && TokenIdKnown(s, op.verification.value.tokenId) then (s, Raised)
      else if op.freshId in s.accounts then (s, Raised)
      else if op.verification.Some? && op.verification.value.purpose.Recovery? then (s, Raised)
      else
        var account := Account(op.freshId, op.identifier, op.displayName, true, op.verification.None?, 1);
        (CommitRegistration(s, account, op.passwordHash, op.verification, invitation), Created(account, invitation))
  }

  function FailedProof(s: State, issue: Issue): State {
    var attempts := (if issue.tokenId in s.attempts then s.attempts[issue.tokenId] else 0) + 1;
    if attempts < issue.maximumAttempts then s.(attempts := s.attempts[issue.tokenId := attempts])
    else Burn(s, issue.tokenId)
  }

  function DoVerify(s: State, id: string, digest: Bytes, now: Time): (State, Outcome) {
    if id !in s.tokens || !s.tokens[id].purpose.Verification? then
      (s, if id in s.used then Used else Invalid)
    else
      var issue := s.tokens[id];
      if issue.digest != digest then (FailedProof(s, issue), Invalid)
      else if issue.expiresAt <= now then (s, Expired)
      else if issue.accountId !in s.accounts then (s, Invalid)
      else
        var account := s.accounts[issue.accountId];
        (Burn(s, id).(accounts := s.accounts[account.accountId := account.(verified := true)]),
         Verified(account.accountId, account.securityEpoch))
  }

  function DoReset(s: State, id: string, digest: Bytes, passwordHash: string, now: Time): (State, Outcome) {
    if id !in s.tokens || !s.tokens[id].purpose.Recovery? then
      (s, if id in s.used then Used else Invalid)
    else
      var issue := s.tokens[id];
      if issue.digest != digest then (FailedProof(s, issue), Invalid)
      else if issue.expiresAt <= now then (s, Expired)
      else if issue.accountId !in s.accounts || issue.issuedEpoch != Some(s.accounts[issue.accountId].securityEpoch) then
        (s, Conflict)
      else
        var account := s.accounts[issue.accountId];
        (Burn(s, id).(accounts := s.accounts[account.accountId := account.(securityEpoch := account.securityEpoch + 1)],
                      passwords := s.passwords[account.accountId := passwordHash]),
         WasReset(account.accountId, account.securityEpoch + 1))
  }

  function DoReplace(s: State, accountId: string, expectedHash: string, passwordHash: string): (State, Outcome) {
    if accountId !in s.accounts || accountId !in s.passwords || s.passwords[accountId] != expectedHash then (s, Flag(false))
    else (s.(passwords := s.passwords[accountId := passwordHash]), Flag(true))
  }

  function DoChange(s: State, accountId: string, passwordHash: string, expectedEpoch: int): (State, Outcome) {
    if accountId !in s.accounts then (s, NotFound)
    else if s.accounts[accountId].securityEpoch != expectedEpoch then (s, Conflict)
    else
      (s.(passwords := s.passwords[accountId := passwordHash],
          accounts := s.accounts[accountId := s.accounts[accountId].(securityEpoch := expectedEpoch + 1)]),
       Changed(expectedEpoch + 1))
  }

  // ---------------------------------------------------------- refresh families

  ghost predicate FamilyExists(refresh: map<string, Refresh>, familyId: string) {
    exists t :: t in refresh && refresh[t].familyId == familyId
  }

  /** The family has a token that is not revoked, so revoking it changes something. */
  ghost predicate Revocable(refresh: map<string, Refresh>, familyId: string) {
    exists t :: t in refresh && refresh[t].familyId == familyId && !refresh[t].revoked
  }

  function RevokeFamilies(refresh: map<string, Refresh>, families: set<string>): (r: map<string, Refresh>)
    ensures r.Keys == refresh.Keys
  {
    map t | t in refresh ::
      if refresh[t].familyId in families then refresh[t].(revoked := true) else refresh[t]
  }

  function ContextOf(r: Refresh): FamilyContext {
    FamilyContext(r.accountId, r.familyId, r.securityEpoch, r.tokenExpiresAt, r.familyExpiresAt, r.scopes)
  }

  predicate EpochCurrent(s: State, accountId: string, epoch: int) {
    accountId in s.accounts && s.accounts[accountId].securityEpoch == epoch
  }

  ghost function DoNewFamily(s: State, c: CreateFamily): (State, Outcome) {
    if !EpochCurrent(s, c.accountId, c.securityEpoch) || c.tokenId in s.refresh || FamilyExists(s.refresh, c.familyId)
    then (s, Flag(false))
    else
      (s.(refresh := s.refresh[c.tokenId :=
         Refresh(c.tokenDigest, c.accountId, c.familyId, c.securityEpoch, c.tokenExpiresAt, c.familyExpiresAt,
                 c.scopes, false, false, None, None)]),
       Flag(true))
  }

  function DoPrepare(s: State, id: string, digest: Bytes, idempotency: Option<Bytes>, now: Time): (State, Outcome) {
    if id !in s.refresh || s.refresh[id].tokenDigest != digest then (s, Invalid)
    else
      var r := s.refresh[id];
      if r.revoked then (s, AlreadyRevoked)
      else if r.consumed then
        if r.idempotency == idempotency && r.receipt.Some? then (s, Replayed(ContextOf(r), r.receipt.value))
        else (s.(refresh := RevokeFamilies(s.refresh, {r.familyId})), ReplayDetected)
      else if r.tokenExpiresAt <= now || r.familyExpiresAt <= now then (s, Expired)
      else if !EpochCurrent(s, r.accountId, r.securityEpoch) then (s, EpochMismatch)
      else (s, Context(ContextOf(r)))
  }

  predicate RotateMatches(s: State, c: RotateCommand) {
    && c.tokenId in s.refresh
    && var r := s.refresh[c.tokenId];
    && !r.consumed && !r.revoked
    && r.tokenDigest == c.tokenDigest && r.accountId == c.accountId
    && r.familyId == c.familyId && r.securityEpoch == c.securityEpoch
    && EpochCurrent(s, c.accountId, c.securityEpoch)
    && c.successorId !in s.refresh
  }

  function DoRotate(s: State, c: RotateCommand, now: Time): (State, Outcome) {
    if !RotateMatches(s, c) then (s, Invalid)
    else
      var r := s.refresh[c.tokenId];
      if r.tokenExpiresAt <= now || r.familyExpiresAt <= now then (s, Expired)
      else
        var spent := r.(consumed := true, idempotency := c.idempotency, receipt := Some(c.receipt));
        var successor := Refresh(c.successorDigest, c.accountId, c.familyId, c.securityEpoch, c.successorExpiresAt,
                                 c.familyExpiresAt, c.scopes, false, false, None, None);
        (s.(refresh := s.refresh[c.tokenId := spent][c.successorId := successor]), Rotated(c.receipt))
  }

  ghost function DoRevokeFamily(s: State, familyId: string): (State, Outcome) {
    if Revocable(s.refresh, familyId)
    then (s.(refresh := RevokeFamilies(s.refresh, {familyId})), Flag(true))
    else (s, Flag(false))
  }

  ghost function DoRevokeToken(s: State, id: string, digest: Bytes): (State, Outcome) {
    if id in s.refresh && s.refresh[id].tokenDigest == digest then DoRevokeFamily(s, s.refresh[id].familyId)
    else (s, Flag(false))
  }

  function FamiliesOf(refresh: map<string, Refresh>, accountId: string): set<string> {
    set t | t in refresh && refresh[t].accountId == accountId :: refresh[t].familyId
  }

  ghost function RevocableFamilies(refresh: map<string, Refresh>, accountId: string): set<string> {
    set f | f in FamiliesOf(refresh, accountId) && Revocable(refresh, f)
  }

  // -------------------------------------------------------------------- steps

  ghost function Apply(s: State, op: Op): (State, Outcome) {
    match op
    case Register(_, _, _, _, _, _, _) => DoRegister(s, op)
    case IssueToken(issue) =>
      if TokenIdKnown(s, issue.tokenId) then (s, Raised) else (AddToken(s, issue), Done)
    case Verify(id, digest, now) => DoVerify(s, id, digest, now)
    case Reset(id, digest, hash, now) => DoReset(s, id, digest, hash, now)
    case ReplacePassword(a, expected, hash) => DoReplace(s, a, expected, hash)
    case ChangePassword(a, hash, expected) => DoChange(s, a, hash, expected)
    case NewFamily(c) => DoNewFamily(s, c)
    case Prepare(id, digest, key, now) => DoPrepare(s, id, digest, key, now)
    case Rotate(c, now) => DoRotate(s, c, now)
    case RevokeFamily(f) => DoRevokeFamily(s, f)
    case RevokeToken(id, digest) => DoRevokeToken(s, id, digest)
    case RevokeTokenFor(a, id, digest) =>
      if id in s.refresh && s.refresh[id].accountId == a then DoRevokeToken(s, id, digest) else (s, Flag(false))
    case RevokeAll(a) =>
      (s.(refresh := RevokeFamilies(s.refresh, RevocableFamilies(s.refresh, a))),
       Count(|RevocableFamilies(s.refresh, a)|))
  }

  /** What an observer records about one step. */
  datatype Event = Event(op: Op, outcome: Outcome)

  /** A store together with everything that happened to it so far. */
  datatype World = World(state: State, log: seq<Event>)

  const START := World(EMPTY, [])

  ghost function Step(w: World, op: Op): World {
    var (s, outcome) := Apply(w.state, op);
    World(s, w.log + [Event(op, outcome)])
  }

  /** Any interleaving of clients is one sequence of atomic operations. */
  ghost function Run(w: World, ops: seq<Op>): World
    decreases |ops|
  {
    if ops == [] then w else Run(Step(w, ops[0]), ops[1..])
  }

  ghost predicate Admissible(ops: seq<Op>) {
    forall k :: 0 <= k < |ops| ==> ops[k].WellFormed()
  }
}
