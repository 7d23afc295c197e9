/**
 One-time tokens over every run: each succeeds at most once, is burned for good by
 success or by exhausting its attempts, and its counter is the number of wrong proofs.
 */
module PurposeTokens {
  import opened Prelude
  import opened AccountSpec

  // ------------------------------------------------------------ history of a token

  /** The token this event put into the store, if any. */
  function IssueOf(e: Event): Option<Issue> {
    if e.op.IssueToken? && e.outcome.Done? then Some(e.op.issue)
    else if e.op.Register? && e.outcome.Created? && e.op.verification.Some?
    then
      var p := e.op.verification.value;
      Some(Issue(p.tokenId, p.digest, p.purpose, e.outcome.account.accountId, p.expiresAt, p.maximumAttempts, None))
    else None
  }

  predicate Issues(e: Event, id: string) {
    IssueOf(e).Some? && IssueOf(e).value.tokenId == id
  }

  /** A consume call under the token's own purpose with the wrong digest. */
  predicate WrongProof(e: Event, issue: Issue) {
    || (e.op.Verify? && issue.purpose.Verification? && e.op.tokenId == issue.tokenId && e.op.digest != issue.digest)
    || (e.op.Reset? && issue.purpose.Recovery? && e.op.tokenId == issue.tokenId && e.op.digest != issue.digest)
  }

  predicate Succeeds(e: Event, id: string) {
    || (e.op.Verify? && e.outcome.Verified? && e.op.tokenId == id)
    || (e.op.Reset? && e.outcome.WasReset? && e.op.tokenId == id)
    || (e.op.Register? && e.outcome.Created? && e.outcome.invitationId == Some(id))
  }

  function Issued(log: seq<Event>, id: string): Option<Issue> {
    if log == [] then None
    else if Issues(log[|log| - 1], id) then IssueOf(log[|log| - 1])
    else Issued(log[..|log| - 1], id)
  }

  /** Wrong proofs since the token was issued. */
  function Wrong(log: seq<Event>, id: string): nat {
    if log == [] || Issues(log[|log| - 1], id) then 0 else
      var before := log[..|log| - 1];
      Wrong(before, id)
      + if Issued(before, id).Some? && WrongProof(log[|log| - 1], Issued(before, id).value) then 1 else 0
  }

  function Successes(log: seq<Event>, id: string): nat {
    if log == [] then 0
    else Successes(log[..|log| - 1], id) + if Succeeds(log[|log| - 1], id) then 1 else 0
  }

  lemma TokenUnfold(log: seq<Event>, e: Event, id: string)
    ensures Issued(log + [e], id) == if Issues(e, id) then IssueOf(e) else Issued(log, id)
    ensures Successes(log + [e], id) == Successes(log, id) + if Succeeds(e, id) then 1 else 0
    ensures Wrong(log + [e], id) ==
            if Issues(e, id) then 0
            else Wrong(log, id) + if Issued(log, id).Some? && WrongProof(e, Issued(log, id).value) then 1 else 0
  {
    SnocSplit(log, e);
  }

  // --------------------------------------------------------------------- invariant

  function Attempts(s: State, id: string): int {
    if id in s.attempts then s.attempts[id] else 0
  }

  /** A live token has not succeeded and still has attempts left. */
  ghost predicate LiveOk(s: State, log: seq<Event>, id: string)
    requires id in s.tokens
  {
    && id !in s.used
    && s.tokens[id].tokenId == id && s.tokens[id].WellFormed()
    && Issued(log, id) == Some(s.tokens[id])
    && Successes(log, id) == 0
    && Attempts(s, id) == Wrong(log, id) < s.tokens[id].maximumAttempts
  }

  /** A burned token succeeded once or ran out of attempts. */
  ghost predicate UsedOk(log: seq<Event>, id: string) {
    && Issued(log, id).Some? && Successes(log, id) <= 1
    && (Successes(log, id) == 1 || Issued(log, id).value.maximumAttempts <= Wrong(log, id))
  }

  ghost predicate TokenOk(s: State, log: seq<Event>, id: string) {
    && (id in s.tokens ==> LiveOk(s, log, id))
    && (id in s.used ==> UsedOk(log, id))
    && (!TokenIdKnown(s, id) ==> Issued(log, id).None? && Successes(log, id) == 0)
    && (id in s.attempts ==> id in s.tokens && 1 <= s.attempts[id] && !s.tokens[id].purpose.Invitation?)
    && (id in s.tokenOrder <==> id in s.tokens)
  }

  ghost predicate TokensInv(w: World) {
    forall id :: TokenOk(w.state, w.log, id)
  }

  /** What one step does to one token id. */
  datatype Fate = Untouched | New(issue: Issue) | Failed | Spent

  ghost predicate Follows(s: State, s': State, id: string, fate: Fate) {
    match fate
    case Untouched =>
      && (id in s'.tokens <==> id in s.tokens) && (id in s.tokens ==> s'.tokens[id] == s.tokens[id])
      && (id in s'.used <==> id in s.used) && (id in s'.tokenOrder <==> id in s.tokenOrder)
      && (id in s'.attempts <==> id in s.attempts) && (id in s.attempts ==> s'.attempts[id] == s.attempts[id])
    case New(issue) =>
      && !TokenIdKnown(s, id) && id in s'.tokens && s'.tokens[id] == issue && id !in s'.used
      && id in s'.tokenOrder && (id in s'.attempts <==> id in s.attempts)
    case Failed =>
      && id in s.tokens && !s.tokens[id].purpose.Invitation?
      && if Attempts(s, id) + 1 < s.tokens[id].maximumAttempts
         then
           && id in s'.tokens && s'.tokens[id] == s.tokens[id] && (id in s'.used <==> id in s.used)
           && id in s'.attempts && s'.attempts[id] == Attempts(s, id) + 1
           && (id in s'.tokenOrder <==> id in s.tokenOrder)
         else id !in s'.tokens && id in s'.used && id !in s'.attempts && id !in s'.tokenOrder
    case Spent =>
      && id in s.tokens
      && id !in s'.tokens && id in s'.used && id !in s'.tokenOrder
      && (id in s'.attempts ==> id in s.attempts && s.tokens[id].purpose.Invitation?)
  }

  ghost function FateOf(s: State, op: Op, id: string): Fate {
    var e := Event(op, Apply(s, op).1);
    if Issues(e, id) then New(IssueOf(e).value)
    else if Succeeds(e, id) then Spent
    else if id in s.tokens && WrongProof(e, s.tokens[id]) then Failed
    else Untouched
  }

  /** Tables are keyed by the token's own id, and ids in the order list are live. */
  ghost predicate Keyed(s: State) {
    forall id :: id in s.tokens ==> s.tokens[id].tokenId == id
  }

  /** Adding an unknown token, and deleting a live one, as seen by token `id`. */
  lemma {:induction false} AddedToken(s: State, issue: Issue, id: string)
    requires !TokenIdKnown(s, issue.tokenId)
    ensures Follows(s, AddToken(s, issue), id, if id == issue.tokenId then New(issue) else Untouched)
  {
  }

  lemma {:induction false} BurnedToken(s: State, burned: string, id: string)
    requires burned in s.tokens
    ensures Follows(s, Burn(s, burned), id, if id == burned then Spent else Untouched)
    ensures burned !in Burn(s, burned).attempts
  {
  }

  lemma {:induction false} FailedToken(s: State, failed: string, id: string)
    requires failed in s.tokens && s.tokens[failed].tokenId == failed && !s.tokens[failed].purpose.Invitation?
    ensures Follows(s, FailedProof(s, s.tokens[failed]), id, if id == failed then Failed else Untouched)
  {
    BurnedToken(s, failed, id);
  }

  /** The token tables are all that matters. */
  lemma {:induction false} FollowsTables(s: State, s1: State, s2: State, id: string, fate: Fate)
    requires Follows(s, s1, id, fate)
    requires s2.tokens == s1.tokens && s2.used == s1.used && s2.attempts == s1.attempts && s2.tokenOrder == s1.tokenOrder
    ensures Follows(s, s2, id, fate)
  {
  }

  lemma {:induction false} RegistrationFates(s: State, op: Op, id: string)
    requires Keyed(s) && op.Register?
    ensures Follows(s, Apply(s, op).0, id, FateOf(s, op, id))
  {
    var (s', outcome) := Apply(s, op);
    if outcome.Created? {
      var s1 := if op.verification.Some? then AddToken(s, Bind(op.verification.value, op.freshId)) else s;
      if op.verification.Some? {
        AddedToken(s, Bind(op.verification.value, op.freshId), id);
      }
      if outcome.invitationId.Some? {
        var invitation := outcome.invitationId.value;
        assert invitation in s.tokens;
        assert s'.tokens == s1.tokens - {invitation} && s'.used == s1.used + {invitation};
        assert s'.tokenOrder == Without(s1.tokenOrder, invitation) && s'.attempts == s1.attempts;
      } else {
        FollowsTables(s, s1, s', id, FateOf(s, op, id));
      }
    }
  }

  lemma {:induction false} ConsumeFates(s: State, op: Op, id: string)
    requires Keyed(s) && (op.Verify? || op.Reset?)
    ensures Follows(s, Apply(s, op).0, id, FateOf(s, op, id))
  {
    var (s', outcome) := Apply(s, op);
    if outcome.Verified? || outcome.WasReset? {
      BurnedToken(s, op.tokenId, id);
      FollowsTables(s, Burn(s, op.tokenId), s', id, FateOf(s, op, id));
    } else if op.tokenId in s.tokens && WrongProof(Event(op, outcome), s.tokens[op.tokenId]) {
      FailedToken(s, op.tokenId, id);
    }
  }

  lemma {:induction false} OtherFates(s: State, op: Op, id: string)
    requires Keyed(s) && !op.Register? && !op.IssueToken? && !op.Verify? && !op.Reset?
    ensures Follows(s, Apply(s, op).0, id, FateOf(s, op, id))
  {
  }

  lemma {:induction false} IssueFates(s: State, op: Op, id: string)
    requires Keyed(s) && op.IssueToken?
    ensures Follows(s, Apply(s, op).0, id, FateOf(s, op, id))
  {
    if !TokenIdKnown(s, op.issue.tokenId) {
      AddedToken(s, op.issue, id);
    }
  }

  lemma {:induction false} FatesFollow(s: State, op: Op, id: string)
    requires Keyed(s)
    ensures Follows(s, Apply(s, op).0, id, FateOf(s, op, id))
  {
    if op.Register? {
      RegistrationFates(s, op, id);
    } else if op.Verify? || op.Reset? {
      ConsumeFates(s, op, id);
    } else if op.IssueToken? {
      IssueFates(s, op, id);
    } else {
      OtherFates(s, op, id);
    }
  }

  lemma {:induction false} TokenOkKept(w: World, op: Op, id: string)
    requires TokensInv(w) && op.WellFormed()
    ensures TokenOk(Step(w, op).state, Step(w, op).log, id)
  {
    assert TokenOk(w.state, w.log, id);
    assert Keyed(w.state) by {
      forall t | t in w.state.tokens ensures w.state.tokens[t].tokenId == t {
        assert TokenOk(w.state, w.log, t);
      }
    }
    var e := Event(op, Apply(w.state, op).1);
    TokenUnfold(w.log, e, id);
    FatesFollow(w.state, op, id);
  }

  lemma {:induction false} TokensInvKept(w: World, op: Op)
    requires TokensInv(w) && op.WellFormed()
    ensures TokensInv(Step(w, op))
  {
    forall id ensures TokenOk(Step(w, op).state, Step(w, op).log, id) {
      TokenOkKept(w, op, id);
    }
  }

  lemma {:induction false} TokensInvRun(w: World, ops: seq<Op>)
    requires TokensInv(w) && Admissible(ops)
    ensures TokensInv(Run(w, ops))
    decreases |ops|
  {
    if ops != [] {
      assert ops[0].WellFormed();
      TokensInvKept(w, ops[0]);
      TokensInvRun(Step(w, ops[0]), ops[1..]);
    }
  }

  // ------------------------------------------------------------------ main results

  /**
   After any run: live and used ids are disjoint, every token succeeded at most once,
   a counter exists only for a live non-invitation token, equals its wrong proofs since
   issue and is below its maximum, and a used token either succeeded or ran out.
   */
  lemma TokensAreOneShot(ops: seq<Op>, id: string)
    requires Admissible(ops)
    ensures var w := Run(START, ops);
            var s := w.state;
            && !(id in s.tokens && id in s.used)
            && Successes(w.log, id) <= 1
            && (id in s.attempts ==>
                  && id in s.tokens && !s.tokens[id].purpose.Invitation?
                  && 1 <= s.attempts[id] == Wrong(w.log, id) < s.tokens[id].maximumAttempts)
            && (id in s.tokens ==> Successes(w.log, id) == 0)
            && (id in s.used ==>
                  && Issued(w.log, id).Some?
                  && (Successes(w.log, id) == 1 || Issued(w.log, id).value.maximumAttempts <= Wrong(w.log, id)))
  {
    TokensInvRun(START, ops);
    assert TokenOk(Run(START, ops).state, Run(START, ops).log, id);
  }

  lemma {:induction false} UsedForever(w: World, ops: seq<Op>, id: string)
    requires TokensInv(w) && Admissible(ops) && id in w.state.used
    ensures var w' := Run(w, ops);
            && id in w'.state.used && w.log <= w'.log
            && (forall k :: |w.log| <= k < |w'.log| ==> !Succeeds(w'.log[k], id) && !Issues(w'.log[k], id))
    decreases |ops|
  {
    if ops != [] {
      var op := ops[0];
      assert op.WellFormed();
      assert TokenOk(w.state, w.log, id);
      TokensInvKept(w, op);
      assert Keyed(w.state) by {
        forall t | t in w.state.tokens ensures w.state.tokens[t].tokenId == t {
          assert TokenOk(w.state, w.log, t);
        }
      }
      FatesFollow(w.state, op, id);
      UsedForever(Step(w, op), ops[1..], id);
    }
  }

  /** Used ids never become live again and never succeed or are issued again. */
  lemma UsedIsFinal(before: seq<Op>, after: seq<Op>, id: string)
    requires Admissible(before) && Admissible(after) && id in Run(START, before).state.used
    ensures var w := Run(START, before);
            var w' := Run(w, after);
            id in w'.state.used && id !in w'.state.tokens
            && forall k :: |w.log| <= k < |w'.log| ==> !Succeeds(w'.log[k], id) && !Issues(w'.log[k], id)
  {
    TokensInvRun(START, before);
    UsedForever(Run(START, before), after, id);
    TokensInvRun(Run(START, before), after);
    assert TokenOk(Run(Run(START, before), after).state, Run(Run(START, before), after).log, id);
  }

  /** A token that collected its maximum of wrong proofs never succeeds afterwards. */
  lemma ExhaustedNeverSucceeds(before: seq<Op>, after: seq<Op>, id: string)
    requires Admissible(before) && Admissible(after)
    requires var log := Run(START, before).log;
             Issued(log, id).Some? && Issued(log, id).value.maximumAttempts <= Wrong(log, id)
    ensures var w := Run(START, before);
            var w' := Run(w, after);
            forall k :: |w.log| <= k < |w'.log| ==> !Succeeds(w'.log[k], id)
  {
    TokensInvRun(START, before);
    var w := Run(START, before);
    assert TokenOk(w.state, w.log, id);
    UsedForever(w, after, id);
  }

  lemma {:induction false} FindsFirst(tokens: map<string, Issue>, order: seq<string>, digest: Bytes)
    ensures var found := FindInvitation(tokens, order, digest);
            if found.None? then
              forall i :: 0 <= i < |order| && order[i] in tokens && tokens[order[i]].purpose.Invitation? ==>
                tokens[order[i]].digest != digest
            else
              exists k :: 0 <= k < |order| && order[k] == found.value &&
                forall i :: 0 <= i < k && order[i] in tokens && tokens[order[i]].purpose.Invitation? ==>
                  tokens[order[i]].digest != digest
  {
    if order != [] && FindInvitation(tokens, order, digest) != Some(order[0]) {
      FindsFirst(tokens, order[1..], digest);
      var found := FindInvitation(tokens, order, digest);
      if found.Some? {
        var k :| 0 <= k < |order[1..]| && order[1..][k] == found.value &&
          forall i :: 0 <= i < k && order[1..][i] in tokens && tokens[order[1..][i]].purpose.Invitation? ==>
            tokens[order[1..][i]].digest != digest;
        assert order[k + 1] == found.value;
        forall i | 0 <= i < k + 1 && order[i] in tokens && tokens[order[i]].purpose.Invitation?
          ensures tokens[order[i]].digest != digest
        {
          if i > 0 { assert order[i] == order[1..][i - 1]; }
        }
      } else {
        forall i | 0 <= i < |order| && order[i] in tokens && tokens[order[i]].purpose.Invitation?
          ensures tokens[order[i]].digest != digest
        {
          if i > 0 { assert order[i] == order[1..][i - 1]; }
        }
      }
    }
  }

  /**
   An invited registration goes through only on a live, unexpired invitation with the
   presented digest, takes the oldest one, and burns it: the same registration under
   another identifier cannot be repeated on it.
   */
  lemma InvitationIsSpent(ops: seq<Op>, op: Op)
    requires Admissible(ops) && op.Register? && op.invitation.Some?
    requires Apply(Run(START, ops).state, op).1.Created?
    ensures var s := Run(START, ops).state;
            var (s', outcome) := Apply(s, op);
            && outcome.invitationId.Some?
            && var id := outcome.invitationId.value;
            && id in s.tokens && s.tokens[id].purpose.Invitation? && s.tokens[id].digest == op.invitation.value
            && op.now < s.tokens[id].expiresAt
            && id !in s'.tokens && id in s'.used
            && exists k :: 0 <= k < |s.tokenOrder| && s.tokenOrder[k] == id &&
                 forall i :: 0 <= i < k && s.tokenOrder[i] in s.tokens && s.tokens[s.tokenOrder[i]].purpose.Invitation? ==>
                   s.tokens[s.tokenOrder[i]].digest != op.invitation.value
  {
    var s := Run(START, ops).state;
    FindsFirst(s.tokens, s.tokenOrder, op.invitation.value);
    TokensInvRun(START, ops);
    var id := Apply(s, op).1.invitationId.value;
    assert TokenOk(s, Run(START, ops).log, id);
  }
}
