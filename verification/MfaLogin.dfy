/**
 Completing a login with a second factor: any number of completions, each a sequence of
 separate steps, interleaved with challenge issues, password changes and deactivations.
 The keyed digest and the text checks are parameters; the factor check is an arbitrary answer.
 */
module MfaLogin {
  import opened Prelude

  const MAXIMUM_EPOCH := 9_223_372_036_854_775_807

  datatype Account = Account(active: bool, epoch: int)

  datatype Challenge = Challenge(
    digest: Bytes,
    accountId: string,
    epoch: int,
    clientKey: Option<string>,
    issuedAt: int,
    expiresAt: int)

  datatype Service = Service(digest: string -> Bytes, strict: string -> bool, strictAscii: string -> bool, ttl: int) {

    predicate ValidEpoch(epoch: int) {
      0 <= epoch <= MAXIMUM_EPOCH
    }

    predicate ValidClientKey(key: Option<string>) {
      key.None? || strict(key.value)
    }
  }

  // -------------------------------------------------------------- the challenge store

  /** `consume`: the digest is popped first, then the binding is checked. */
  function Found(challenges: map<Bytes, Challenge>, digest: Bytes, accountId: string, epoch: int,
                 now: int): Option<Challenge> {
    if digest !in challenges then None
    else
      var challenge := challenges[digest];
      if challenge.accountId != accountId || challenge.epoch != epoch || challenge.expiresAt <= now then None
      else Some(challenge)
  }

  class InMemoryMfaLoginChallengeStore {
    var challenges: map<Bytes, Challenge>

    constructor ()
      ensures challenges == map[]
    {
      challenges := map[];
    }

    method Put(challenge: Challenge)
      modifies this
      ensures challenges == old(challenges)[challenge.digest := challenge]
    {
      challenges := challenges[challenge.digest := challenge];
    }

    method Consume(digest: Bytes, accountId: string, epoch: int, now: int) returns (found: Option<Challenge>)
      modifies this
      ensures challenges == old(challenges) - {digest}
      ensures found == Found(old(challenges), digest, accountId, epoch, now)
      ensures found.Some? <==>
              && digest in old(challenges)
              && old(challenges)[digest].accountId == accountId
              && old(challenges)[digest].epoch == epoch
              && now < old(challenges)[digest].expiresAt
    {
      if digest !in challenges {
        return None;
      }
      var challenge := challenges[digest];
      challenges := challenges - {digest};
      if challenge.accountId != accountId || challenge.epoch != epoch || challenge.expiresAt <= now {
        return None;
      }
      return Some(challenge);
    }
  }

  // ------------------------------------------------------------------- the step machine

  datatype Request = Request(challenge: string, accountId: string, clientKey: Option<string>)

  /** How far a completion has come. */
  datatype Phase =
    | Started
    | Looked(epoch: int)
    | Holding(record: Challenge)
    | Proven(record: Challenge)
    | Confirmed(record: Challenge, account: Account)
    | Established
    | Rejected

  datatype Client = Client(request: Request, phase: Phase)

  /** A session or token pair, with the account record and the client it was issued for. */
  datatype Issuance = Issuance(digest: Bytes, accountId: string, account: Account, clientKey: Option<string>)

  /** `ledger` remembers every challenge ever stored. */
  datatype World = World(
    accounts: map<string, Account>,
    challenges: map<Bytes, Challenge>,
    ledger: map<Bytes, Challenge>,
    clients: seq<Client>,
    issued: seq<Issuance>)

  datatype Step =
    | CreateAccount(id: string)
    | SetActive(id: string, active: bool)
    | ChangePassword(id: string)
    | IssueChallenge(id: string, epoch: int, clientKey: Option<string>, token: string, now: int)
    | Begin(request: Request)
    | ReadAccount(c: nat)
    | Consume(c: nat, now: int)
    | VerifyFactor(c: nat, accepted: bool)
    | ConfirmAccount(c: nat)
    | Establish(c: nat, succeeded: bool)
    | Abort(c: nat)

  const START := World(map[], map[], map[], [], [])

  function Move(w: World, c: nat, phase: Phase): World
    requires c < |w.clients|
  {
    w.(clients := w.clients[c := w.clients[c].(phase := phase)])
  }

  predicate ClientKeysMatch(expected: Option<string>, actual: Option<string>) {
    expected == actual
  }

  function MakeChallenge(svc: Service, s: Step): Challenge
    requires s.IssueChallenge?
  {
    Challenge(svc.digest(s.token), s.id, s.epoch, s.clientKey, s.now, s.now + svc.ttl)
  }

  function DoIssue(svc: Service, w: World, s: Step): World
    requires s.IssueChallenge?
  {
    if !svc.strict(s.id) || !svc.ValidEpoch(s.epoch) || !svc.ValidClientKey(s.clientKey) then w
    else
      var challenge := MakeChallenge(svc, s);
      w.(challenges := w.challenges[challenge.digest := challenge], ledger := w.ledger[challenge.digest := challenge])
  }

  /** `MFALoginService.consume`: one store step, then the client binding. */
  function DoConsume(svc: Service, w: World, c: nat, now: int): World
    requires c < |w.clients| && w.clients[c].phase.Looked?
  {
    var request, epoch := w.clients[c].request, w.clients[c].phase.epoch;
    if !svc.strictAscii(request.challenge) || !svc.strict(request.accountId) || !svc.ValidEpoch(epoch) then
      Move(w, c, Rejected)
    else
      var digest := svc.digest(request.challenge);
      var found := Found(w.challenges, digest, request.accountId, epoch, now);
      var burned := w.(challenges := w.challenges - {digest});
      if found.None? || !svc.ValidClientKey(request.clientKey) || !ClientKeysMatch(found.value.clientKey, request.clientKey)
      then Move(burned, c, Rejected)
      else Move(burned, c, Holding(found.value))
  }

  /** The re-read in `verified_login`. */
  function DoConfirm(w: World, c: nat): World
    requires c < |w.clients| && w.clients[c].phase.Proven?
  {
    var record, id := w.clients[c].phase.record, w.clients[c].request.accountId;
    if id !in w.accounts || !w.accounts[id].active || w.accounts[id].epoch != record.epoch then Move(w, c, Rejected)
    else Move(w, c, Confirmed(record, w.accounts[id]))
  }

  function DoEstablish(w: World, c: nat, succeeded: bool): World
    requires c < |w.clients| && w.clients[c].phase.Confirmed?
  {
    if !succeeded then Move(w, c, Rejected)
    else
      var client := w.clients[c];
      Move(w, c, Established).(issued := w.issued + [
        Issuance(client.phase.record.digest, client.request.accountId, client.phase.account, client.request.clientKey)])
  }

  predicate AtPhase(w: World, c: nat, s: Step) {
    && c < |w.clients|
    && match s
       case ReadAccount(_) => w.clients[c].phase.Started?
       case Consume(_, _) => w.clients[c].phase.Looked?
       case VerifyFactor(_, _) => w.clients[c].phase.Holding?
       case ConfirmAccount(_) => w.clients[c].phase.Proven?
       case Establish(_, _) => w.clients[c].phase.Confirmed?
       case _ => !w.clients[c].phase.Established? && !w.clients[c].phase.Rejected?
  }

  function Next(svc: Service, w: World, s: Step): World {
    match s
    case CreateAccount(id) => if id in w.accounts then w else w.(accounts := w.accounts[id := Account(true, 1)])
    case SetActive(id, active) =>
      if id in w.accounts then w.(accounts := w.accounts[id := w.accounts[id].(active := active)]) else w
    case ChangePassword(id) =>
      if id in w.accounts then w.(accounts := w.accounts[id := w.accounts[id].(epoch := w.accounts[id].epoch + 1)]) else w
    case IssueChallenge(_, _, _, _, _) => DoIssue(svc, w, s)
    case Begin(request) => w.(clients := w.clients + [Client(request, Started)])
    case ReadAccount(c) =>
      if !AtPhase(w, c, s) then w
      else
        var id := w.clients[c].request.accountId;
        if id !in w.accounts || !w.accounts[id].active then Move(w, c, Rejected)
        else Move(w, c, Looked(w.accounts[id].epoch))
    case Consume(c, now) => if AtPhase(w, c, s) then DoConsume(svc, w, c, now) else w
    case VerifyFactor(c, accepted) =>
      if !AtPhase(w, c, s) then w else Move(w, c, if accepted then Proven(w.clients[c].phase.record) else Rejected)
    case ConfirmAccount(c) => if AtPhase(w, c, s) then DoConfirm(w, c) else w
    case Establish(c, succeeded) => if AtPhase(w, c, s) then DoEstablish(w, c, succeeded) else w
    case Abort(c) => if AtPhase(w, c, s) then Move(w, c, Rejected) else w
  }

  function Run(svc: Service, w: World, steps: seq<Step>): World {
    if steps == [] then w else Next(svc, Run(svc, w, steps[..|steps| - 1]), steps[|steps| - 1])
  }

  /** Challenge tokens do not repeat: a new challenge's digest was never stored before. */
  predicate Fresh(svc: Service, w: World, s: Step) {
    s.IssueChallenge? ==> svc.digest(s.token) !in w.ledger
  }

  predicate Admissible(svc: Service, w: World, steps: seq<Step>) {
    steps == [] ||
    (Admissible(svc, w, steps[..|steps| - 1]) && Fresh(svc, Run(svc, w, steps[..|steps| - 1]), steps[|steps| - 1]))
  }

  // -------------------------------------------------------------------- the invariant

  predicate Holds(client: Client, d: Bytes) {
    (client.phase.Holding? || client.phase.Proven? || client.phase.Confirmed?) && client.phase.record.digest == d
  }

  predicate Owns(w: World, client: Client, d: Bytes) {
    && Holds(client, d) && d in w.ledger && d !in w.challenges
    && client.phase.record == w.ledger[d]
    && w.ledger[d].accountId == client.request.accountId
    && ClientKeysMatch(w.ledger[d].clientKey, client.request.clientKey)
    && (client.phase.Confirmed? ==> client.phase.account.active && client.phase.account.epoch == w.ledger[d].epoch)
  }

  ghost predicate StoredInv(w: World) {
    forall d :: d in w.challenges ==> d in w.ledger && w.challenges[d] == w.ledger[d] && w.ledger[d].digest == d
  }

  ghost predicate HoldersInv(w: World) {
    && (forall c, d :: 0 <= c < |w.clients| && Holds(w.clients[c], d) ==> Owns(w, w.clients[c], d))
    && (forall b, c, d :: 0 <= b < c < |w.clients| && Holds(w.clients[b], d) ==> !Holds(w.clients[c], d))
  }

  /** What every issued session or token pair satisfies. */
  predicate Justified(w: World, i: Issuance) {
    && i.digest in w.ledger && i.digest !in w.challenges
    && i.account.active && i.account.epoch == w.ledger[i.digest].epoch
    && i.accountId == w.ledger[i.digest].accountId
    && ClientKeysMatch(w.ledger[i.digest].clientKey, i.clientKey)
  }

  ghost predicate IssuedInv(w: World) {
    && (forall i :: i in w.issued ==> Justified(w, i))
    && (forall i, c :: 0 <= i < |w.issued| && 0 <= c < |w.clients| ==> !Holds(w.clients[c], w.issued[i].digest))
    && (forall i, j :: 0 <= i < j < |w.issued| ==> w.issued[i].digest != w.issued[j].digest)
  }

  ghost predicate Inv(w: World) {
    StoredInv(w) && HoldersInv(w) && IssuedInv(w)
  }

  /** A client that moves on without taking a challenge it did not hold keeps the invariant. */
  lemma MoveKeeps(w: World, c: nat, phase: Phase)
    requires Inv(w) && c < |w.clients|
    requires || phase.Looked? || phase.Rejected? || phase.Established?
             || (w.clients[c].phase.Holding? && phase == Proven(w.clients[c].phase.record))
             || (w.clients[c].phase.Proven? && phase.Confirmed? && phase.record == w.clients[c].phase.record
                 && phase.account.active && phase.account.epoch == phase.record.epoch)
    ensures Inv(Move(w, c, phase))
  {
    var w' := Move(w, c, phase);
    forall b, d | 0 <= b < |w.clients| && Holds(w'.clients[b], d) ensures Holds(w.clients[b], d) && Owns(w', w'.clients[b], d) {
      assert Owns(w, w.clients[b], d);
    }
  }

  lemma IssueKeeps(svc: Service, w: World, s: Step)
    requires Inv(w) && s.IssueChallenge? && Fresh(svc, w, s)
    ensures Inv(DoIssue(svc, w, s))
  {
    var w' := DoIssue(svc, w, s);
    forall c, d | 0 <= c < |w.clients| && Holds(w.clients[c], d) ensures Owns(w', w.clients[c], d) {
      assert Owns(w, w.clients[c], d);
    }
  }

  /** Popping a challenge that no client holds. */
  lemma BurnKeeps(w: World, digest: Bytes)
    requires Inv(w)
    ensures Inv(w.(challenges := w.challenges - {digest}))
  {
    var w' := w.(challenges := w.challenges - {digest});
    forall c, d | 0 <= c < |w.clients| && Holds(w.clients[c], d) ensures Owns(w', w'.clients[c], d) {
      assert Owns(w, w.clients[c], d);
    }
  }

  lemma ConsumeKeeps(svc: Service, w: World, c: nat, now: int)
    requires Inv(w) && c < |w.clients| && w.clients[c].phase.Looked?
    ensures Inv(DoConsume(svc, w, c, now))
  {
    var request := w.clients[c].request;
    var digest := svc.digest(request.challenge);
    var burned := w.(challenges := w.challenges - {digest});
    var w' := DoConsume(svc, w, c, now);
    BurnKeeps(w, digest);
    if w'.clients[c].phase.Rejected? {
      MoveKeeps(w, c, Rejected);
      MoveKeeps(burned, c, Rejected);
    } else {
      assert w.challenges[digest] == w.ledger[digest] && w.ledger[digest].digest == digest;
      forall b, d | 0 <= b < |w'.clients| && Holds(w'.clients[b], d) ensures Owns(w', w'.clients[b], d) && (d == digest <==> b == c) {
        if b != c {
          assert Owns(w, w.clients[b], d);
        }
      }
      forall i | 0 <= i < |w.issued| ensures w.issued[i].digest != digest {
        assert Justified(w, w.issued[i]);
      }
    }
  }

  lemma EstablishKeeps(w: World, c: nat, succeeded: bool)
    requires Inv(w) && c < |w.clients| && w.clients[c].phase.Confirmed?
    ensures Inv(DoEstablish(w, c, succeeded))
  {
    var w', d := DoEstablish(w, c, succeeded), w.clients[c].phase.record.digest;
    if succeeded {
      assert Holds(w.clients[c], d) && Owns(w, w.clients[c], d);
      MoveKeeps(w, c, Established);
      assert forall b, e :: 0 <= b < |w'.clients| && Holds(w'.clients[b], e) ==> Holds(w.clients[b], e) && e != d;
      assert forall i :: 0 <= i < |w.issued| ==> w.issued[i].digest != d;
      assert forall i :: i in w'.issued ==> i in w.issued || i == w'.issued[|w.issued|];
    } else {
      MoveKeeps(w, c, Rejected);
    }
  }

  lemma BeginKeeps(w: World, request: Request)
    requires Inv(w)
    ensures Inv(w.(clients := w.clients + [Client(request, Started)]))
  {
    var w' := w.(clients := w.clients + [Client(request, Started)]);
    forall c, d | 0 <= c < |w'.clients| && Holds(w'.clients[c], d)
      ensures c < |w.clients| && Holds(w.clients[c], d) && Owns(w', w'.clients[c], d)
    {
      assert Owns(w, w.clients[c], d);
    }
  }

  lemma AccountsImmaterial(w: World, accounts: map<string, Account>)
    requires Inv(w)
    ensures Inv(w.(accounts := accounts))
  {
    var w' := w.(accounts := accounts);
    forall c, d | 0 <= c < |w.clients| && Holds(w.clients[c], d) ensures Owns(w', w.clients[c], d) {
      assert Owns(w, w.clients[c], d);
    }
  }

  lemma NextKeeps(svc: Service, w: World, s: Step)
    requires Inv(w) && Fresh(svc, w, s)
    ensures Inv(Next(svc, w, s))
  {
    match s
    case IssueChallenge(_, _, _, _, _) => IssueKeeps(svc, w, s);
    case Begin(request) => BeginKeeps(w, request);
    case Consume(c, now) => if AtPhase(w, c, s) { ConsumeKeeps(svc, w, c, now); }
    case Establish(c, succeeded) => if AtPhase(w, c, s) { EstablishKeeps(w, c, succeeded); }
    case ReadAccount(c) =>
      if AtPhase(w, c, s) {
        MoveKeeps(w, c, Next(svc, w, s).clients[c].phase);
      }
    case VerifyFactor(c, _) =>
      if AtPhase(w, c, s) {
        MoveKeeps(w, c, Next(svc, w, s).clients[c].phase);
      }
    case ConfirmAccount(c) =>
      if AtPhase(w, c, s) {
        MoveKeeps(w, c, Next(svc, w, s).clients[c].phase);
      }
    case Abort(c) =>
      if AtPhase(w, c, s) {
        MoveKeeps(w, c, Rejected);
      }
    case _ => AccountsImmaterial(w, Next(svc, w, s).accounts);
  }

  lemma {:induction false} RunKeeps(svc: Service, w: World, steps: seq<Step>)
    requires Inv(w) && Admissible(svc, w, steps)
    ensures Inv(Run(svc, w, steps))
  {
    if steps != [] {
      RunKeeps(svc, w, steps[..|steps| - 1]);
      NextKeeps(svc, Run(svc, w, steps[..|steps| - 1]), steps[|steps| - 1]);
    }
  }

  // --------------------------------------------------------------------- main theorems

  /**
   Over every interleaving: one challenge leads to at most one issuance, and each issuance
   is for the challenge's account, client key and epoch, from an active account record.
   */
  lemma OneIssuancePerChallenge(svc: Service, steps: seq<Step>, i: nat, j: nat)
    requires Admissible(svc, START, steps)
    ensures var w := Run(svc, START, steps);
      && (i < j < |w.issued| ==> w.issued[i].digest != w.issued[j].digest)
      && (i < |w.issued| ==>
            && w.issued[i].digest in w.ledger
            && var challenge := w.ledger[w.issued[i].digest];
            && w.issued[i].account.active && w.issued[i].account.epoch == challenge.epoch
            && w.issued[i].accountId == challenge.accountId && w.issued[i].clientKey == challenge.clientKey)
  {
    RunKeeps(svc, START, steps);
    var w := Run(svc, START, steps);
    if i < |w.issued| {
      assert Justified(w, w.issued[i]);
    }
  }

  ghost predicate NotIssued(w: World, d: Bytes) {
    forall i :: 0 <= i < |w.issued| ==> w.issued[i].digest != d
  }

  /** Stored once, gone now, and in nobody's hands. */
  ghost predicate Dead(w: World, d: Bytes) {
    && d in w.ledger && d !in w.challenges
    && (forall c :: 0 <= c < |w.clients| ==> !Holds(w.clients[c], d))
  }

  /** A burned challenge is not stored again. */
  lemma LedgerEffect(svc: Service, w: World, s: Step)
    requires Fresh(svc, w, s)
    ensures var w' := Next(svc, w, s);
      && (forall d :: d in w.ledger ==> d in w'.ledger && w'.ledger[d] == w.ledger[d])
      && (forall d :: d in w.ledger && d !in w.challenges ==> d !in w'.challenges)
  {
  }

  lemma HolderByConsume(svc: Service, w: World, b: nat, now: int, c: nat, d: Bytes)
    requires StoredInv(w) && b < |w.clients| && w.clients[b].phase.Looked? && c < |w.clients|
    requires Holds(DoConsume(svc, w, b, now).clients[c], d)
    ensures d in w.challenges || Holds(w.clients[c], d)
  {
    var digest := svc.digest(w.clients[b].request.challenge);
    assert digest in w.challenges ==> w.challenges[digest].digest == digest;
  }

  lemma HolderByOther(svc: Service, w: World, s: Step, c: nat, d: Bytes)
    requires !s.Consume?
    requires c < |Next(svc, w, s).clients| && Holds(Next(svc, w, s).clients[c], d)
    ensures c < |w.clients| && Holds(w.clients[c], d)
  {
  }

  /** Only a stored challenge can come to be held. */
  lemma HolderEffect(svc: Service, w: World, s: Step, c: nat, d: Bytes)
    requires StoredInv(w)
    requires c < |Next(svc, w, s).clients| && Holds(Next(svc, w, s).clients[c], d)
    ensures d in w.challenges || (c < |w.clients| && Holds(w.clients[c], d))
  {
    if !s.Consume? {
      HolderByOther(svc, w, s, c, d);
    } else if AtPhase(w, s.c, s) {
      HolderByConsume(svc, w, s.c, s.now, c, d);
    }
  }

  /** Only a confirmed holder issues. */
  lemma IssueEffect(svc: Service, w: World, s: Step, i: nat) returns (c: nat)
    requires |w.issued| <= i < |Next(svc, w, s).issued|
    ensures c < |w.clients| && w.clients[c].phase.Confirmed?
    ensures w.clients[c].phase.record.digest == Next(svc, w, s).issued[i].digest
  {
    c := s.c;
  }

  lemma DeadStays(svc: Service, w: World, s: Step, d: Bytes)
    requires Inv(w) && Fresh(svc, w, s) && Dead(w, d)
    ensures Dead(Next(svc, w, s), d)
    ensures NotIssued(w, d) ==> NotIssued(Next(svc, w, s), d)
  {
    var w' := Next(svc, w, s);
    LedgerEffect(svc, w, s);
    forall c | 0 <= c < |w'.clients| ensures !Holds(w'.clients[c], d) {
      if Holds(w'.clients[c], d) {
        HolderEffect(svc, w, s, c, d);
      }
    }
    forall i | NotIssued(w, d) && 0 <= i < |w'.issued| ensures w'.issued[i].digest != d {
      if i >= |w.issued| {
        var c := IssueEffect(svc, w, s, i);
        assert !Holds(w.clients[c], d);
      }
    }
  }

  lemma {:induction false} DeadForever(svc: Service, w: World, more: seq<Step>, d: Bytes)
    requires Inv(w) && Admissible(svc, w, more) && Dead(w, d) && NotIssued(w, d)
    ensures Dead(Run(svc, w, more), d) && NotIssued(Run(svc, w, more), d)
  {
    if more != [] {
      var before := more[..|more| - 1];
      DeadForever(svc, w, before, d);
      RunKeeps(svc, w, before);
      DeadStays(svc, Run(svc, w, before), more[|more| - 1], d);
    }
  }

  /** The client's consume step finds the challenge in the store. */
  predicate Pops(svc: Service, w: World, s: Step, c: nat, d: Bytes) {
    && s.Consume? && s.c == c && AtPhase(w, c, s)
    && svc.digest(w.clients[c].request.challenge) == d && d in w.challenges
    && svc.strictAscii(w.clients[c].request.challenge) && svc.strict(w.clients[c].request.accountId)
    && svc.ValidEpoch(w.clients[c].phase.epoch)
  }

  lemma PoppedDies(svc: Service, w: World, s: Step, c: nat, d: Bytes)
    requires Inv(w) && Pops(svc, w, s, c, d) && Next(svc, w, s).clients[c].phase.Rejected?
    ensures Dead(Next(svc, w, s), d) && NotIssued(Next(svc, w, s), d)
  {
    var w' := Next(svc, w, s);
    forall b | 0 <= b < |w'.clients| ensures !Holds(w'.clients[b], d) {
      assert Holds(w.clients[b], d) ==> Owns(w, w.clients[b], d);
    }
    forall i | 0 <= i < |w.issued| ensures w.issued[i].digest != d {
      assert Justified(w, w.issued[i]);
    }
  }

  /** The step that rejects a client issues nothing. */
  lemma RejectingIssuesNothing(svc: Service, w: World, s: Step, c: nat)
    requires c < |w.clients| && !w.clients[c].phase.Rejected? && Next(svc, w, s).clients[c].phase.Rejected?
    ensures Next(svc, w, s).issued == w.issued
  {
  }

  /** The challenge has one holder, and the store no longer has it. */
  lemma HeldDies(svc: Service, w: World, s: Step, c: nat, d: Bytes)
    requires Inv(w) && Fresh(svc, w, s)
    requires c < |w.clients| && Holds(w.clients[c], d) && Next(svc, w, s).clients[c].phase.Rejected?
    ensures Dead(Next(svc, w, s), d) && NotIssued(Next(svc, w, s), d)
  {
    var w' := Next(svc, w, s);
    assert Owns(w, w.clients[c], d);
    LedgerEffect(svc, w, s);
    forall b | 0 <= b < |w'.clients| ensures !Holds(w'.clients[b], d) {
      if Holds(w'.clients[b], d) {
        HolderEffect(svc, w, s, b, d);
      }
    }
    RejectingIssuesNothing(svc, w, s, c);
  }

  /**
   One challenge is worth one attempt. Whoever has taken it, or takes it with this step, and
   is then rejected, be it for a wrong factor code, a stale account record, a failed
   establishment, a broken binding or an abort, burns it: no continuation issues from it.
   */
  lemma FailedAttemptBurns(svc: Service, steps: seq<Step>, s: Step, c: nat, d: Bytes, more: seq<Step>)
    requires Admissible(svc, START, steps) && Fresh(svc, Run(svc, START, steps), s)
    requires var w := Run(svc, START, steps);
      && c < |w.clients| && (Holds(w.clients[c], d) || Pops(svc, w, s, c, d))
      && Next(svc, w, s).clients[c].phase.Rejected?
    requires Admissible(svc, Next(svc, Run(svc, START, steps), s), more)
    ensures var after := Run(svc, Next(svc, Run(svc, START, steps), s), more);
      d !in after.challenges && NotIssued(after, d)
  {
    var w := Run(svc, START, steps);
    RunKeeps(svc, START, steps);
    NextKeeps(svc, w, s);
    if Holds(w.clients[c], d) {
      HeldDies(svc, w, s, c, d);
    } else {
      PoppedDies(svc, w, s, c, d);
    }
    DeadForever(svc, Next(svc, w, s), more, d);
  }

  /** A factor that is refused keeps its client out for good: nothing is ever issued from the challenge it holds. */
  lemma RefusedFactorBurns(svc: Service, steps: seq<Step>, c: nat, more: seq<Step>)
    requires Admissible(svc, START, steps)
    requires var w := Run(svc, START, steps); c < |w.clients| && w.clients[c].phase.Holding?
    requires Admissible(svc, Next(svc, Run(svc, START, steps), VerifyFactor(c, false)), more)
    ensures var w := Run(svc, START, steps);
      var after := Run(svc, Next(svc, w, VerifyFactor(c, false)), more);
      var d := w.clients[c].phase.record.digest;
      d !in after.challenges && NotIssued(after, d)
  {
    FailedAttemptBurns(svc, steps, VerifyFactor(c, false), c, Run(svc, START, steps).clients[c].phase.record.digest, more);
  }

  /** The account has moved past the challenge's epoch. */
  ghost predicate Passed(w: World, d: Bytes) {
    && d in w.ledger && w.ledger[d].accountId in w.accounts
    && w.accounts[w.ledger[d].accountId].epoch > w.ledger[d].epoch
  }

  /** No completion has re-read the account for the challenge. */
  ghost predicate NoneConfirmed(w: World, d: Bytes) {
    forall c :: 0 <= c < |w.clients| && w.clients[c].phase.Confirmed? ==> w.clients[c].phase.record.digest != d
  }

  ghost predicate Outdated(w: World, d: Bytes) {
    Passed(w, d) && NoneConfirmed(w, d)
  }

  lemma EpochsGrow(svc: Service, w: World, s: Step)
    ensures var w' := Next(svc, w, s);
      forall a :: a in w.accounts ==> a in w'.accounts && w.accounts[a].epoch <= w'.accounts[a].epoch
  {
  }

  lemma ConfirmedByOther(svc: Service, w: World, s: Step, c: nat)
    requires !s.ConfirmAccount?
    requires c < |Next(svc, w, s).clients| && Next(svc, w, s).clients[c].phase.Confirmed?
    ensures c < |w.clients| && w.clients[c].phase.Confirmed?
    ensures w.clients[c].phase.record == Next(svc, w, s).clients[c].phase.record
  {
  }

  /** Only an account read at the challenge's own epoch is confirmed. */
  lemma ConfirmEffect(svc: Service, w: World, s: Step, c: nat)
    requires forall d :: c < |w.clients| && Holds(w.clients[c], d) ==> Owns(w, w.clients[c], d)
    requires c < |Next(svc, w, s).clients| && Next(svc, w, s).clients[c].phase.Confirmed?
    ensures c < |w.clients|
    ensures var d := Next(svc, w, s).clients[c].phase.record.digest;
      || (w.clients[c].phase.Confirmed? && w.clients[c].phase.record.digest == d)
      || (d in w.ledger && w.ledger[d].accountId in w.accounts
          && w.accounts[w.ledger[d].accountId].epoch == w.ledger[d].epoch)
  {
    if !s.ConfirmAccount? {
      ConfirmedByOther(svc, w, s, c);
    } else if s.c == c && AtPhase(w, c, s) {
      var record := w.clients[c].phase.record;
      assert Holds(w.clients[c], record.digest) && Owns(w, w.clients[c], record.digest);
    }
  }

  lemma OutdatedStays(svc: Service, w: World, s: Step, d: Bytes)
    requires Inv(w) && Fresh(svc, w, s) && Outdated(w, d)
    ensures Outdated(Next(svc, w, s), d)
    ensures NotIssued(w, d) ==> NotIssued(Next(svc, w, s), d)
  {
    var w' := Next(svc, w, s);
    LedgerEffect(svc, w, s);
    EpochsGrow(svc, w, s);
    forall c | 0 <= c < |w'.clients| && w'.clients[c].phase.Confirmed? ensures w'.clients[c].phase.record.digest != d {
      ConfirmEffect(svc, w, s, c);
    }
    forall i | NotIssued(w, d) && 0 <= i < |w'.issued| ensures w'.issued[i].digest != d {
      if i >= |w.issued| {
        var c := IssueEffect(svc, w, s, i);
      }
    }
  }

  lemma {:induction false} OutdatedForever(svc: Service, w: World, more: seq<Step>, d: Bytes)
    requires Inv(w) && Admissible(svc, w, more) && Outdated(w, d) && NotIssued(w, d)
    ensures Outdated(Run(svc, w, more), d) && NotIssued(Run(svc, w, more), d)
  {
    if more != [] {
      var before := more[..|more| - 1];
      OutdatedForever(svc, w, before, d);
      RunKeeps(svc, w, before);
      OutdatedStays(svc, Run(svc, w, before), more[|more| - 1], d);
    }
  }

  lemma RunSnoc(svc: Service, w: World, steps: seq<Step>, s: Step)
    ensures Run(svc, w, steps + [s]) == Next(svc, Run(svc, w, steps), s)
    ensures Admissible(svc, w, steps + [s]) <==> Admissible(svc, w, steps) && Fresh(svc, Run(svc, w, steps), s)
  {
    SnocSplit(steps, s);
  }

  /** A confirmed holder can issue, whatever has happened to the account since. */
  lemma ConfirmedIssues(svc: Service, w: World, c: nat)
    requires c < |w.clients| && w.clients[c].phase.Confirmed?
    ensures Admissible(svc, w, [Establish(c, true)])
    ensures !NotIssued(Run(svc, w, [Establish(c, true)]), w.clients[c].phase.record.digest)
  {
    RunSnoc(svc, w, [], Establish(c, true));
    assert [] + [Establish(c, true)] == [Establish(c, true)];
    var w' := Next(svc, w, Establish(c, true));
    assert w'.issued[|w.issued|].digest == w.clients[c].phase.record.digest;
  }

  /**
   A password change kills the pending logins, save those that have already re-read the
   account: in any reachable state where the account is past the challenge's epoch, no
   continuation issues from the challenge exactly when no completion is confirmed with it.
   */
  lemma PasswordChangeKillsChallenges(svc: Service, steps: seq<Step>, d: Bytes)
    requires Admissible(svc, START, steps)
    requires Passed(Run(svc, START, steps), d) && NotIssued(Run(svc, START, steps), d)
    ensures var w := Run(svc, START, steps);
      (forall more :: Admissible(svc, w, more) ==> NotIssued(Run(svc, w, more), d)) <==> NoneConfirmed(w, d)
  {
    var w := Run(svc, START, steps);
    RunKeeps(svc, START, steps);
    if NoneConfirmed(w, d) {
      forall more | Admissible(svc, w, more) ensures NotIssued(Run(svc, w, more), d) {
        OutdatedForever(svc, w, more, d);
      }
    } else {
      var c :| 0 <= c < |w.clients| && w.clients[c].phase.Confirmed? && w.clients[c].phase.record.digest == d;
      ConfirmedIssues(svc, w, c);
    }
  }

  /** The steps of a new account's first login, up to the re-read of the account. */
  function LoginSteps(id: string, token: string): seq<Step> {
    [CreateAccount(id), IssueChallenge(id, 1, None, token, 0), Begin(Request(token, id, None))]
    + [ReadAccount(0)] + [Consume(0, 0)] + [VerifyFactor(0, true)] + [ConfirmAccount(0)]
  }

  function FirstChallenge(svc: Service, id: string, token: string): Challenge {
    Challenge(svc.digest(token), id, 1, None, 0, svc.ttl)
  }

  /** One account, one challenge, which the store may still have, and one completion. */
  function Alone(svc: Service, id: string, token: string, stored: bool, phase: Phase): World {
    var challenge := FirstChallenge(svc, id, token);
    World(map[id := Account(true, 1)], if stored then map[challenge.digest := challenge] else map[],
          map[challenge.digest := challenge], [Client(Request(token, id, None), phase)], [])
  }

  lemma LoginBegins(svc: Service, id: string, token: string)
    requires svc.strict(id)
    ensures var steps := [CreateAccount(id), IssueChallenge(id, 1, None, token, 0), Begin(Request(token, id, None))];
      Admissible(svc, START, steps) && Run(svc, START, steps) == Alone(svc, id, token, true, Started)
  {
    var create, issue, begin := CreateAccount(id), IssueChallenge(id, 1, None, token, 0), Begin(Request(token, id, None));
    RunSnoc(svc, START, [], create);
    RunSnoc(svc, START, [create], issue);
    RunSnoc(svc, START, [create, issue], begin);
    assert [] + [create] == [create] && [create] + [issue] == [create, issue] && [create, issue] + [begin] == [create, issue, begin];
  }

  lemma LoginProceeds(svc: Service, id: string, token: string)
    requires svc.strict(id) && svc.strictAscii(token) && svc.ttl > 0
    ensures var challenge := FirstChallenge(svc, id, token);
      && Next(svc, Alone(svc, id, token, true, Started), ReadAccount(0)) == Alone(svc, id, token, true, Looked(1))
      && Next(svc, Alone(svc, id, token, true, Looked(1)), Consume(0, 0)) == Alone(svc, id, token, false, Holding(challenge))
      && Next(svc, Alone(svc, id, token, false, Holding(challenge)), VerifyFactor(0, true))
         == Alone(svc, id, token, false, Proven(challenge))
      && Next(svc, Alone(svc, id, token, false, Proven(challenge)), ConfirmAccount(0))
         == Alone(svc, id, token, false, Confirmed(challenge, Account(true, 1)))
  {
  }

  lemma LoginConfirms(svc: Service, id: string, token: string)
    requires svc.strict(id) && svc.strictAscii(token) && svc.ttl > 0
    ensures Admissible(svc, START, LoginSteps(id, token))
    ensures Run(svc, START, LoginSteps(id, token))
      == Alone(svc, id, token, false, Confirmed(FirstChallenge(svc, id, token), Account(true, 1)))
  {
    var steps := [CreateAccount(id), IssueChallenge(id, 1, None, token, 0), Begin(Request(token, id, None))];
    LoginBegins(svc, id, token);
    LoginProceeds(svc, id, token);
    RunSnoc(svc, START, steps, ReadAccount(0));
    RunSnoc(svc, START, steps + [ReadAccount(0)], Consume(0, 0));
    RunSnoc(svc, START, steps + [ReadAccount(0)] + [Consume(0, 0)], VerifyFactor(0, true));
    RunSnoc(svc, START, steps + [ReadAccount(0)] + [Consume(0, 0)] + [VerifyFactor(0, true)], ConfirmAccount(0));
  }

  /**
   Logins do issue. Establishment takes the account record re-read before it, so a login can
   still issue after a password change; what it issues carries the epoch the account has left.
   */
  lemma ConfirmedLoginOutlivesPasswordChange(svc: Service, id: string, token: string)
    requires svc.strict(id) && svc.strictAscii(token) && svc.ttl > 0
    ensures var steps := LoginSteps(id, token) + [ChangePassword(id)] + [Establish(0, true)];
      var w := Run(svc, START, steps);
      && Admissible(svc, START, steps)
      && |w.issued| == 1 && w.issued[0].accountId == id && id in w.accounts
      && w.issued[0].account.epoch < w.accounts[id].epoch
  {
    var steps := LoginSteps(id, token);
    LoginConfirms(svc, id, token);
    RunSnoc(svc, START, steps, ChangePassword(id));
    RunSnoc(svc, START, steps + [ChangePassword(id)], Establish(0, true));
  }
}
