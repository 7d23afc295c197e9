/**
 What it takes to be issued a session or a token pair by a second-factor login: every
 issuance of every run goes back to a complete ceremony, and an undisturbed ceremony issues.
 */
module MfaCeremony {
  import opened Prelude
  import opened MfaLogin

  /** Where in a run a completion's steps happened. */
  datatype Ceremony = Ceremony(client: nat, issue: nat, read: nat, take: nat, prove: nat, confirm: nat)

  /** A 63-bit number. */
  predicate EpochInRange(epoch: int) {
    0 <= epoch <= 9_223_372_036_854_775_807
  }

  /** The step stored this challenge, on the values it was given. */
  predicate IssuedAt(svc: Service, steps: seq<Step>, i: nat, r: Challenge) {
    && i < |steps| && steps[i].IssueChallenge?
    && var IssueChallenge(id, epoch, clientKey, token, now) := steps[i];
    && svc.strict(id) && EpochInRange(epoch) && (clientKey.Some? ==> svc.strict(clientKey.value))
    && r.digest == svc.digest(token) && r.accountId == id && r.epoch == epoch && r.clientKey == clientKey
    && r.issuedAt == now && r.expiresAt == now + svc.ttl
  }

  /** The account record a step of the run found. */
  predicate FoundAt(svc: Service, steps: seq<Step>, i: nat, id: string, account: Account)
    requires i <= |steps|
  {
    var w := Run(svc, START, steps[..i]);
    id in w.accounts && w.accounts[id] == account
  }

  ghost predicate ReadAt(svc: Service, steps: seq<Step>, request: Request, epoch: int, t: Ceremony) {
    && t.read < |steps| && steps[t.read] == ReadAccount(t.client)
    && FoundAt(svc, steps, t.read, request.accountId, Account(true, epoch))
  }

  /** The client read its account at the challenge's epoch, then presented the challenge before its deadline. */
  ghost predicate TookAt(svc: Service, steps: seq<Step>, request: Request, r: Challenge, t: Ceremony) {
    && t.issue < t.take && t.read < t.take < |steps|
    && IssuedAt(svc, steps, t.issue, r) && ReadAt(svc, steps, request, r.epoch, t)
    && steps[t.take].Consume? && steps[t.take].c == t.client && steps[t.take].now < r.expiresAt
    && svc.strictAscii(request.challenge) && svc.digest(request.challenge) == r.digest
    && request.accountId == r.accountId && request.clientKey == r.clientKey
  }

  /** And then gave a factor that was accepted. */
  ghost predicate ProvedAt(svc: Service, steps: seq<Step>, request: Request, r: Challenge, t: Ceremony) {
    TookAt(svc, steps, request, r, t) && t.take < t.prove < |steps| && steps[t.prove] == VerifyFactor(t.client, true)
  }

  /** And then found the account still active at the challenge's epoch. */
  ghost predicate ConfirmedAt(svc: Service, steps: seq<Step>, request: Request, r: Challenge, account: Account, t: Ceremony) {
    && ProvedAt(svc, steps, request, r, t) && t.prove < t.confirm < |steps| && steps[t.confirm] == ConfirmAccount(t.client)
    && FoundAt(svc, steps, t.confirm, request.accountId, account) && account == Account(true, r.epoch)
  }

  /** How the client came to where it is. */
  ghost predicate Earned(svc: Service, steps: seq<Step>, c: nat, client: Client) {
    match client.phase
    case Looked(epoch) => exists t: Ceremony :: t.client == c && ReadAt(svc, steps, client.request, epoch, t)
    case Holding(r) => exists t: Ceremony :: t.client == c && TookAt(svc, steps, client.request, r, t)
    case Proven(r) => exists t: Ceremony :: t.client == c && ProvedAt(svc, steps, client.request, r, t)
    case Confirmed(r, account) => exists t: Ceremony :: t.client == c && ConfirmedAt(svc, steps, client.request, r, account, t)
    case _ => true
  }

  /** The whole ceremony of an issuance, up to the establishment at step `n`. */
  ghost predicate Underwent(svc: Service, steps: seq<Step>, x: Issuance, request: Request, r: Challenge, t: Ceremony, n: nat) {
    && ConfirmedAt(svc, steps, request, r, x.account, t)
    && t.confirm < n < |steps| && steps[n] == Establish(t.client, true)
    && x.digest == r.digest && x.accountId == r.accountId && x.clientKey == r.clientKey
  }

  ghost predicate Deserved(svc: Service, steps: seq<Step>, x: Issuance) {
    exists request, r, t, n :: Underwent(svc, steps, x, request, r, t, n)
  }

  ghost predicate Story(svc: Service, steps: seq<Step>, w: World) {
    && (forall d :: d in w.challenges ==> w.challenges[d].digest == d && exists i :: IssuedAt(svc, steps, i, w.challenges[d]))
    && (forall c :: 0 <= c < |w.clients| ==> Earned(svc, steps, c, w.clients[c]))
    && (forall x :: x in w.issued ==> Deserved(svc, steps, x))
  }

  /** A longer run tells the same about its beginning. */
  lemma FoundLonger(svc: Service, steps: seq<Step>, s: Step, i: nat, id: string, account: Account)
    requires i <= |steps|
    ensures FoundAt(svc, steps + [s], i, id, account) == FoundAt(svc, steps, i, id, account)
  {
    assert (steps + [s])[..i] == steps[..i];
  }

  lemma TookLonger(svc: Service, steps: seq<Step>, s: Step, request: Request, r: Challenge, t: Ceremony)
    requires TookAt(svc, steps, request, r, t)
    ensures TookAt(svc, steps + [s], request, r, t)
  {
    FoundLonger(svc, steps, s, t.read, request.accountId, Account(true, r.epoch));
  }

  lemma ConfirmedLonger(svc: Service, steps: seq<Step>, s: Step, request: Request, r: Challenge, account: Account, t: Ceremony)
    requires ConfirmedAt(svc, steps, request, r, account, t)
    ensures ConfirmedAt(svc, steps + [s], request, r, account, t)
  {
    TookLonger(svc, steps, s, request, r, t);
    FoundLonger(svc, steps, s, t.confirm, request.accountId, account);
  }

  lemma EarnedLonger(svc: Service, steps: seq<Step>, s: Step, c: nat, client: Client)
    requires Earned(svc, steps, c, client)
    ensures Earned(svc, steps + [s], c, client)
  {
    match client.phase
    case Looked(epoch) =>
      var t: Ceremony :| t.client == c && ReadAt(svc, steps, client.request, epoch, t);
      FoundLonger(svc, steps, s, t.read, client.request.accountId, Account(true, epoch));
      assert ReadAt(svc, steps + [s], client.request, epoch, t);
    case Holding(r) =>
      var t: Ceremony :| t.client == c && TookAt(svc, steps, client.request, r, t);
      TookLonger(svc, steps, s, client.request, r, t);
    case Proven(r) =>
      var t: Ceremony :| t.client == c && ProvedAt(svc, steps, client.request, r, t);
      TookLonger(svc, steps, s, client.request, r, t);
      assert ProvedAt(svc, steps + [s], client.request, r, t);
    case Confirmed(r, account) =>
      var t: Ceremony :| t.client == c && ConfirmedAt(svc, steps, client.request, r, account, t);
      ConfirmedLonger(svc, steps, s, client.request, r, account, t);
    case _ =>
  }

  lemma DeservedLonger(svc: Service, steps: seq<Step>, s: Step, x: Issuance)
    requires Deserved(svc, steps, x)
    ensures Deserved(svc, steps + [s], x)
  {
    var request, r, t, n :| Underwent(svc, steps, x, request, r, t, n);
    ConfirmedLonger(svc, steps, s, request, r, x.account, t);
    assert Underwent(svc, steps + [s], x, request, r, t, n);
  }

  /** The step leaves the client where it was, or takes it one phase further. */
  lemma ClientEarns(svc: Service, steps: seq<Step>, s: Step, c: nat)
    requires Story(svc, steps, Run(svc, START, steps))
    requires c < |Next(svc, Run(svc, START, steps), s).clients|
    ensures Earned(svc, steps + [s], c, Next(svc, Run(svc, START, steps), s).clients[c])
  {
    var w := Run(svc, START, steps);
    var w' := Next(svc, w, s);
    if c < |w.clients| {
      assert Earned(svc, steps, c, w.clients[c]);
      if w'.clients[c] == w.clients[c] {
        EarnedLonger(svc, steps, s, c, w.clients[c]);
      } else {
        ClientAdvances(svc, steps, s, c);
      }
    }
  }

  lemma ClientAdvances(svc: Service, steps: seq<Step>, s: Step, c: nat)
    requires Story(svc, steps, Run(svc, START, steps)) && c < |Run(svc, START, steps).clients|
    requires Next(svc, Run(svc, START, steps), s).clients[c] != Run(svc, START, steps).clients[c]
    ensures Earned(svc, steps + [s], c, Next(svc, Run(svc, START, steps), s).clients[c])
  {
    var w := Run(svc, START, steps);
    match s
    case ReadAccount(_) => ReadEarns(svc, steps, s, c);
    case Consume(_, _) => TakeEarns(svc, steps, s, c);
    case VerifyFactor(_, _) => ProofEarns(svc, steps, s, c);
    case ConfirmAccount(_) => ConfirmationEarns(svc, steps, s, c);
    case _ =>
  }

  lemma ReadEarns(svc: Service, steps: seq<Step>, s: Step, c: nat)
    requires s.ReadAccount? && c < |Run(svc, START, steps).clients|
    requires Next(svc, Run(svc, START, steps), s).clients[c] != Run(svc, START, steps).clients[c]
    ensures Earned(svc, steps + [s], c, Next(svc, Run(svc, START, steps), s).clients[c])
  {
    var w, n, more := Run(svc, START, steps), |steps|, steps + [s];
    var client := Next(svc, w, s).clients[c];
    assert more[n] == s && more[..n] == steps;
    if client.phase.Looked? {
      assert w.accounts[client.request.accountId] == Account(true, client.phase.epoch);
      assert ReadAt(svc, more, client.request, client.phase.epoch, Ceremony(c, 0, n, 0, 0, 0));
    }
  }

  lemma TakeEarns(svc: Service, steps: seq<Step>, s: Step, c: nat)
    requires s.Consume? && c < |Run(svc, START, steps).clients| && Story(svc, steps, Run(svc, START, steps))
    requires Next(svc, Run(svc, START, steps), s).clients[c] != Run(svc, START, steps).clients[c]
    ensures Earned(svc, steps + [s], c, Next(svc, Run(svc, START, steps), s).clients[c])
  {
    var w, n, more := Run(svc, START, steps), |steps|, steps + [s];
    var before, client := w.clients[c], Next(svc, w, s).clients[c];
    assert more[n] == s;
    assert Earned(svc, steps, c, before);
    if client.phase.Holding? {
      var r := client.phase.record;
      var i: nat :| IssuedAt(svc, steps, i, r);
      var t: Ceremony :| t.client == c && ReadAt(svc, steps, client.request, r.epoch, t);
      FoundLonger(svc, steps, s, t.read, client.request.accountId, Account(true, r.epoch));
      assert TookAt(svc, more, client.request, r, t.(issue := i, take := n));
    }
  }

  lemma ProofEarns(svc: Service, steps: seq<Step>, s: Step, c: nat)
    requires s.VerifyFactor? && c < |Run(svc, START, steps).clients| && Story(svc, steps, Run(svc, START, steps))
    requires Next(svc, Run(svc, START, steps), s).clients[c] != Run(svc, START, steps).clients[c]
    ensures Earned(svc, steps + [s], c, Next(svc, Run(svc, START, steps), s).clients[c])
  {
    var w, n, more := Run(svc, START, steps), |steps|, steps + [s];
    var before, client := w.clients[c], Next(svc, w, s).clients[c];
    assert more[n] == s;
    assert Earned(svc, steps, c, before);
    if client.phase.Proven? {
      var r := client.phase.record;
      var t: Ceremony :| t.client == c && TookAt(svc, steps, client.request, r, t);
      TookLonger(svc, steps, s, client.request, r, t);
      assert TookAt(svc, more, client.request, r, t.(prove := n));
      assert ProvedAt(svc, more, client.request, r, t.(prove := n));
    }
  }

  lemma ConfirmationEarns(svc: Service, steps: seq<Step>, s: Step, c: nat)
    requires s.ConfirmAccount? && c < |Run(svc, START, steps).clients| && Story(svc, steps, Run(svc, START, steps))
    requires Next(svc, Run(svc, START, steps), s).clients[c] != Run(svc, START, steps).clients[c]
    ensures Earned(svc, steps + [s], c, Next(svc, Run(svc, START, steps), s).clients[c])
  {
    var w, n, more := Run(svc, START, steps), |steps|, steps + [s];
    var before, client := w.clients[c], Next(svc, w, s).clients[c];
    assert more[n] == s && more[..n] == steps;
    assert Earned(svc, steps, c, before);
    if client.phase.Confirmed? {
      var r := client.phase.record;
      var t: Ceremony :| t.client == c && ProvedAt(svc, steps, client.request, r, t);
      TookLonger(svc, steps, s, client.request, r, t);
      assert TookAt(svc, more, client.request, r, t.(confirm := n));
      assert ProvedAt(svc, more, client.request, r, t.(confirm := n));
      assert ConfirmedAt(svc, more, client.request, r, client.phase.account, t.(confirm := n));
    }
  }

  lemma IssuanceDeserved(svc: Service, steps: seq<Step>, s: Step, x: Issuance)
    requires Story(svc, steps, Run(svc, START, steps)) && x in Next(svc, Run(svc, START, steps), s).issued
    ensures Deserved(svc, steps + [s], x)
  {
    var w, n, more := Run(svc, START, steps), |steps|, steps + [s];
    if x in w.issued {
      DeservedLonger(svc, steps, s, x);
    } else {
      var client := w.clients[s.c];
      assert Earned(svc, steps, s.c, client);
      var r, account := client.phase.record, client.phase.account;
      var t: Ceremony :| t.client == s.c && ConfirmedAt(svc, steps, client.request, r, account, t);
      ConfirmedLonger(svc, steps, s, client.request, r, account, t);
      assert more[n] == s;
      assert Underwent(svc, more, x, client.request, r, t, n);
    }
  }

  /** Challenges come from the issuing step only. */
  lemma ChallengesEffect(svc: Service, w: World, s: Step, d: Bytes)
    requires d in Next(svc, w, s).challenges
    ensures var r := Next(svc, w, s).challenges[d];
      || (d in w.challenges && w.challenges[d] == r)
      || (s.IssueChallenge? && svc.strict(s.id) && svc.ValidEpoch(s.epoch) && svc.ValidClientKey(s.clientKey)
          && r == MakeChallenge(svc, s) && d == r.digest)
  {
  }

  lemma StoredIssued(svc: Service, steps: seq<Step>, s: Step, d: Bytes)
    requires Story(svc, steps, Run(svc, START, steps)) && d in Next(svc, Run(svc, START, steps), s).challenges
    ensures var r := Next(svc, Run(svc, START, steps), s).challenges[d];
      r.digest == d && exists i :: IssuedAt(svc, steps + [s], i, r)
  {
    var w, n := Run(svc, START, steps), |steps|;
    var r := Next(svc, w, s).challenges[d];
    ChallengesEffect(svc, w, s, d);
    if d in w.challenges && w.challenges[d] == r {
      var i: nat :| IssuedAt(svc, steps, i, r);
      assert IssuedAt(svc, steps + [s], i, r);
    } else {
      assert (steps + [s])[n] == s;
      assert IssuedAt(svc, steps + [s], n, r);
    }
  }

  lemma {:induction false} StoryOf(svc: Service, steps: seq<Step>)
    ensures Story(svc, steps, Run(svc, START, steps))
  {
    if steps != [] {
      var before, s := steps[..|steps| - 1], steps[|steps| - 1];
      StoryOf(svc, before);
      assert steps == before + [s];
      var w' := Run(svc, START, steps);
      forall d | d in w'.challenges ensures w'.challenges[d].digest == d && exists i :: IssuedAt(svc, steps, i, w'.challenges[d]) {
        StoredIssued(svc, before, s, d);
      }
      forall c | 0 <= c < |w'.clients| ensures Earned(svc, steps, c, w'.clients[c]) {
        ClientEarns(svc, before, s, c);
      }
      forall x | x in w'.issued ensures Deserved(svc, steps, x) {
        IssuanceDeserved(svc, before, s, x);
      }
    }
  }

  /**
   No session or token pair without the whole ceremony, in this order and by one client: its
   account was active at the epoch of a challenge issued for the account and the client key,
   it presented that challenge before the deadline, its factor was accepted, its account was
   still active at that epoch, and the establishment went through.
   */
  lemma EveryIssuanceIsEarned(svc: Service, steps: seq<Step>, i: nat)
    requires i < |Run(svc, START, steps).issued|
    ensures Deserved(svc, steps, Run(svc, START, steps).issued[i])
  {
    StoryOf(svc, steps);
  }

  // ------------------------------------------------------------------------- and conversely

  /** A completion nothing interleaves with, by the client that begins here. */
  function Completion(c: nat, request: Request, now: int, accepted: bool): seq<Step> {
    [] + [Begin(request)] + [ReadAccount(c)] + [Consume(c, now)] + [VerifyFactor(c, accepted)] + [ConfirmAccount(c)]
    + [Establish(c, true)]
  }

  /** The challenge is there to be taken for the request. */
  predicate Takeable(svc: Service, w: World, request: Request, now: int) {
    && svc.strictAscii(request.challenge) && svc.strict(request.accountId)
    && (request.clientKey.Some? ==> svc.strict(request.clientKey.value))
    && request.accountId in w.accounts && EpochInRange(w.accounts[request.accountId].epoch)
    && var d := svc.digest(request.challenge);
    && d in w.challenges && w.challenges[d].accountId == request.accountId
    && w.challenges[d].epoch == w.accounts[request.accountId].epoch && w.challenges[d].clientKey == request.clientKey
    && now < w.challenges[d].expiresAt
  }

  lemma CompletionTakes(svc: Service, w: World, request: Request, now: int)
    ensures var c := |w.clients|;
      var w' := Next(svc, Next(svc, Next(svc, w, Begin(request)), ReadAccount(c)), Consume(c, now));
      && |w'.clients| == c + 1 && w'.clients[c].request == request && w'.accounts == w.accounts && w'.issued == w.issued
      && (w'.clients[c].phase.Holding? || w'.clients[c].phase.Rejected?)
      && (w'.clients[c].phase.Holding? <==>
            Takeable(svc, w, request, now) && w.accounts[request.accountId].active)
      && (w'.clients[c].phase.Holding? ==> w'.clients[c].phase.record == w.challenges[svc.digest(request.challenge)])
  {
  }

  lemma CompletionEnds(svc: Service, w: World, c: nat, accepted: bool)
    requires c < |w.clients| && (w.clients[c].phase.Holding? || w.clients[c].phase.Rejected?)
    ensures var w' := Next(svc, Next(svc, Next(svc, w, VerifyFactor(c, accepted)), ConfirmAccount(c)), Establish(c, true));
      var client := w.clients[c];
      if client.phase.Holding? && accepted && client.request.accountId in w.accounts
         && w.accounts[client.request.accountId] == Account(true, client.phase.record.epoch)
      then w'.issued == w.issued + [Issuance(client.phase.record.digest, client.request.accountId,
                                             w.accounts[client.request.accountId], client.request.clientKey)]
      else w'.issued == w.issued
  {
  }

  /**
   In any state, a completion that nothing interleaves with issues, once, for its request's
   account and client key, exactly when the account is active, its challenge is stored for
   that account, epoch and client key and has not expired, and the factor is accepted.
   */
  lemma UndisturbedCompletionIssues(svc: Service, w: World, request: Request, now: int, accepted: bool)
    requires StoredInv(w)
    ensures var after := Run(svc, w, Completion(|w.clients|, request, now, accepted));
      if Takeable(svc, w, request, now) && w.accounts[request.accountId].active && accepted
      then after.issued == w.issued + [Issuance(svc.digest(request.challenge), request.accountId,
                                                w.accounts[request.accountId], request.clientKey)]
      else after.issued == w.issued
  {
    var c := |w.clients|;
    var s0 := [] + [Begin(request)];
    var s1 := s0 + [ReadAccount(c)];
    var s2 := s1 + [Consume(c, now)];
    var s3 := s2 + [VerifyFactor(c, accepted)];
    var s4 := s3 + [ConfirmAccount(c)];
    RunSnoc(svc, w, [], Begin(request));
    RunSnoc(svc, w, s0, ReadAccount(c));
    RunSnoc(svc, w, s1, Consume(c, now));
    RunSnoc(svc, w, s2, VerifyFactor(c, accepted));
    RunSnoc(svc, w, s3, ConfirmAccount(c));
    RunSnoc(svc, w, s4, Establish(c, true));
    CompletionTakes(svc, w, request, now);
    CompletionEnds(svc, Run(svc, w, s2), c, accepted);
  }
}
