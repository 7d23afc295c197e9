/**
 Refresh-token rotation over every run of the store: a family is one linear chain
 of tokens, revocation is final, and an epoch bump ends every older token.
 */
module RefreshFamilies {
  import opened Prelude
  import opened AccountSpec

  // --------------------------------------------------------- history of a family

  predicate IsCreation(e: Event, f: string) {
    e.op.NewFamily? && e.outcome == Flag(true) && e.op.create.familyId == f
  }

  predicate IsRotation(e: Event, f: string) {
    e.op.Rotate? && e.outcome.Rotated? && e.op.command.familyId == f
  }

  /** The tokens handed out for a family, oldest first. */
  function Chain(log: seq<Event>, f: string): seq<string> {
    if log == [] then [] else
      var before := Chain(log[..|log| - 1], f);
      var e := log[|log| - 1];
      if IsCreation(e, f) then before + [e.op.create.tokenId]
      else if IsRotation(e, f) then before + [e.op.command.successorId]
      else before
  }

  /** The commands whose outcome was ROTATED, oldest first. */
  function Rotations(log: seq<Event>, f: string): seq<RotateCommand> {
    if log == [] then [] else
      var before := Rotations(log[..|log| - 1], f);
      var e := log[|log| - 1];
      if IsRotation(e, f) then before + [e.op.command] else before
  }

  lemma Unfold(log: seq<Event>, e: Event, f: string)
    ensures Chain(log + [e], f) ==
            if IsCreation(e, f) then Chain(log, f) + [e.op.create.tokenId]
            else if IsRotation(e, f) then Chain(log, f) + [e.op.command.successorId]
            else Chain(log, f)
    ensures Rotations(log + [e], f) ==
            if IsRotation(e, f) then Rotations(log, f) + [e.op.command] else Rotations(log, f)
  {
    SnocSplit(log, e);
  }

  // -------------------------------------------------------------------- invariant

  ghost predicate Listed(refresh: map<string, Refresh>, f: string, c: seq<string>) {
    && (forall i :: 0 <= i < |c| ==> c[i] in refresh && refresh[c[i]].familyId == f)
    && (forall t :: t in refresh && refresh[t].familyId == f ==> t in c)
    && (forall i, j :: 0 <= i < j < |c| ==> c[i] != c[j])
  }

  /** All tokens agree with the oldest one on account, epoch and revocation. */
  ghost predicate Uniform(refresh: map<string, Refresh>, c: seq<string>)
    requires forall i :: 0 <= i < |c| ==> c[i] in refresh
  {
    forall i :: 0 <= i < |c| ==>
      && refresh[c[i]].accountId == refresh[c[0]].accountId
      && refresh[c[i]].securityEpoch == refresh[c[0]].securityEpoch
      && refresh[c[i]].revoked == refresh[c[0]].revoked
  }

  /** The rotation consumed `spent`, left its receipt there and issued `next` on the terms it named. */
  predicate Link(spent: Refresh, cmd: RotateCommand, next: Refresh) {
    && spent.tokenDigest == cmd.tokenDigest && spent.accountId == cmd.accountId
    && spent.securityEpoch == cmd.securityEpoch
    && spent.receipt == Some(cmd.receipt) && spent.idempotency == cmd.idempotency
    && next.familyExpiresAt == cmd.familyExpiresAt && next.scopes == cmd.scopes
  }

  ghost predicate Linked(refresh: map<string, Refresh>, c: seq<string>, links: seq<RotateCommand>)
    requires forall i :: 0 <= i < |c| ==> c[i] in refresh
  {
    && |links| == (if c == [] then 0 else |c| - 1)
    && (forall i :: 0 <= i < |c| ==> refresh[c[i]].consumed == (i < |c| - 1))
    && (forall i :: 0 <= i < |links| ==>
          && links[i].tokenId == c[i] && links[i].successorId == c[i + 1]
          && Link(refresh[c[i]], links[i], refresh[c[i + 1]]))
  }

  ghost predicate ChainOk(refresh: map<string, Refresh>, f: string, c: seq<string>, links: seq<RotateCommand>) {
    Listed(refresh, f, c) && Uniform(refresh, c) && Linked(refresh, c, links)
  }

  ghost predicate FamilyOk(refresh: map<string, Refresh>, log: seq<Event>, f: string) {
    ChainOk(refresh, f, Chain(log, f), Rotations(log, f))
  }

  ghost predicate RefreshInv(w: World) {
    forall f :: FamilyOk(w.state.refresh, w.log, f)
  }

  lemma {:induction false} ChainsHaveTokens(refresh: map<string, Refresh>, f: string, c: seq<string>)
    requires Listed(refresh, f, c)
    ensures c != [] ==> FamilyExists(refresh, f)
  {
    if c != [] {
      assert c[0] in refresh;
    }
  }

  lemma {:induction false} ChainStarted(refresh: map<string, Refresh>, f: string, id: string, r: Refresh)
    requires !FamilyExists(refresh, f) && r.familyId == f && !r.consumed
    ensures ChainOk(refresh[id := r], f, [id], [])
  {
  }

  /** Adding or changing tokens of another family does not matter. */
  lemma {:induction false} ChainFramed(refresh: map<string, Refresh>, refresh': map<string, Refresh>, f: string,
                                       c: seq<string>, links: seq<RotateCommand>)
    requires ChainOk(refresh, f, c, links)
    requires forall t :: t in refresh && refresh[t].familyId == f ==> t in refresh' && refresh'[t] == refresh[t]
    requires forall t :: t in refresh' && refresh'[t].familyId == f ==> t in refresh
    requires forall t :: t in refresh && t in refresh' ==> refresh'[t].familyId == refresh[t].familyId
    ensures ChainOk(refresh', f, c, links)
  {
  }

  /** An unconsumed token of a family can only be its newest one. */
  lemma {:induction false} UnconsumedIsNewest(refresh: map<string, Refresh>, f: string, c: seq<string>,
                                              links: seq<RotateCommand>, id: string)
    requires ChainOk(refresh, f, c, links)
    requires id in refresh && refresh[id].familyId == f && !refresh[id].consumed
    ensures c != [] && c[|c| - 1] == id
  {
    var k :| 0 <= k < |c| && c[k] == id;
    assert k == |c| - 1;
  }

  lemma {:induction false} ListExtended(refresh: map<string, Refresh>, f: string, c: seq<string>, id: string,
                                        spent: Refresh, next: string, issued: Refresh)
    requires Listed(refresh, f, c) && c != [] && c[|c| - 1] == id && next !in refresh
    requires spent.familyId == f && issued.familyId == f
    ensures Listed(refresh[id := spent][next := issued], f, c + [next])
  {
    var r', c' := refresh[id := spent][next := issued], c + [next];
    forall t | t in r' && r'[t].familyId == f ensures t in c' {
      if t != next {
        assert t in refresh && t in c;
      }
    }
  }

  /** The records of an extended chain: the old ones, the spent one and the issued one. */
  lemma RecordsExtended(refresh: map<string, Refresh>, f: string, c: seq<string>, spent: Refresh, next: string,
                        issued: Refresh)
    requires Listed(refresh, f, c) && c != [] && next !in refresh
    ensures var r', c' := refresh[c[|c| - 1] := spent][next := issued], c + [next];
      && (forall i :: 0 <= i < |c| - 1 ==> c'[i] == c[i] && r'[c'[i]] == refresh[c[i]])
      && c'[|c| - 1] == c[|c| - 1] && r'[c'[|c| - 1]] == spent && c'[|c|] == next && r'[c'[|c|]] == issued
  {
  }

  lemma {:induction false} ChainExtended(refresh: map<string, Refresh>, f: string, c: seq<string>,
                                         links: seq<RotateCommand>, cmd: RotateCommand, spent: Refresh, issued: Refresh)
    requires ChainOk(refresh, f, c, links) && c != [] && c[|c| - 1] == cmd.tokenId && cmd.successorId !in refresh
    requires var r := refresh[cmd.tokenId];
             spent == r.(consumed := true, idempotency := cmd.idempotency, receipt := Some(cmd.receipt))
             && r.tokenDigest == cmd.tokenDigest && r.accountId == cmd.accountId && r.securityEpoch == cmd.securityEpoch
             && issued.accountId == r.accountId && issued.securityEpoch == r.securityEpoch && issued.revoked == r.revoked
    requires issued.familyId == f && !issued.consumed
    requires issued.familyExpiresAt == cmd.familyExpiresAt && issued.scopes == cmd.scopes
    ensures ChainOk(refresh[cmd.tokenId := spent][cmd.successorId := issued], f, c + [cmd.successorId], links + [cmd])
  {
    var r', c', links' := refresh[cmd.tokenId := spent][cmd.successorId := issued], c + [cmd.successorId], links + [cmd];
    var n := |c|;
    ListExtended(refresh, f, c, cmd.tokenId, spent, cmd.successorId, issued);
    RecordsExtended(refresh, f, c, spent, cmd.successorId, issued);
    assert Uniform(r', c');
    assert Link(spent, cmd, issued);
    forall i | 0 <= i < n
      ensures links'[i].tokenId == c'[i] && links'[i].successorId == c'[i + 1]
      ensures Link(r'[c'[i]], links'[i], r'[c'[i + 1]])
    {
      if i < n - 1 {
        assert links'[i] == links[i] && Link(refresh[c[i]], links[i], refresh[c[i + 1]]);
      }
    }
  }

  lemma {:induction false} FamilyKeptByCreation(w: World, op: Op, f: string)
    requires op.NewFamily? && Apply(w.state, op).1 == Flag(true)
    requires FamilyOk(w.state.refresh, w.log, f)
    ensures FamilyOk(Step(w, op).state.refresh, Step(w, op).log, f)
  {
    Unfold(w.log, Event(op, Flag(true)), f);
    var s := w.state;
    var s' := DoNewFamily(s, op.create).0;
    if op.create.familyId == f {
      ChainsHaveTokens(s.refresh, f, Chain(w.log, f));
      ChainStarted(s.refresh, f, op.create.tokenId, s'.refresh[op.create.tokenId]);
      assert Chain(w.log, f) + [op.create.tokenId] == [op.create.tokenId];
    } else {
      ChainFramed(s.refresh, s'.refresh, f, Chain(w.log, f), Rotations(w.log, f));
    }
  }

  /** What a rotation that went through found and wrote. */
  lemma RotationWrites(s: State, cmd: RotateCommand, now: Time)
    requires DoRotate(s, cmd, now).1.Rotated?
    ensures cmd.tokenId in s.refresh && cmd.successorId !in s.refresh
    ensures var r, refresh' := s.refresh[cmd.tokenId], DoRotate(s, cmd, now).0.refresh;
            && r.familyId == cmd.familyId && !r.consumed && !r.revoked && r.tokenDigest == cmd.tokenDigest
            && r.accountId == cmd.accountId && r.securityEpoch == cmd.securityEpoch
            && refresh' == s.refresh
                 [cmd.tokenId := r.(consumed := true, idempotency := cmd.idempotency, receipt := Some(cmd.receipt))]
                 [cmd.successorId := Refresh(cmd.successorDigest, cmd.accountId, cmd.familyId, cmd.securityEpoch,
                                             cmd.successorExpiresAt, cmd.familyExpiresAt, cmd.scopes, false, false, None, None)]
  {
  }

  lemma {:induction false} FamilyKeptByRotation(w: World, op: Op, f: string)
    requires op.Rotate? && Apply(w.state, op).1.Rotated?
    requires FamilyOk(w.state.refresh, w.log, f)
    ensures FamilyOk(Step(w, op).state.refresh, Step(w, op).log, f)
  {
    Unfold(w.log, Event(op, Apply(w.state, op).1), f);
    RotationWrites(w.state, op.command, op.now);
    var refresh, refresh' := w.state.refresh, DoRotate(w.state, op.command, op.now).0.refresh;
    var cmd := op.command;
    if cmd.familyId == f {
      UnconsumedIsNewest(refresh, f, Chain(w.log, f), Rotations(w.log, f), cmd.tokenId);
      ChainExtended(refresh, f, Chain(w.log, f), Rotations(w.log, f), cmd,
                    refresh'[cmd.tokenId], refresh'[cmd.successorId]);
    } else {
      ChainFramed(refresh, refresh', f, Chain(w.log, f), Rotations(w.log, f));
    }
  }

  lemma {:induction false} FamilyKeptByRevocation(refresh: map<string, Refresh>, families: set<string>,
                                                  log: seq<Event>, f: string)
    requires FamilyOk(refresh, log, f)
    ensures FamilyOk(RevokeFamilies(refresh, families), log, f)
  {
    var r := RevokeFamilies(refresh, families);
    assert forall t :: t in refresh ==> t in r;
  }

  /** Steps that neither create nor rotate only ever set revocation flags. */
  lemma {:induction false} OtherStepsOnlyRevoke(s: State, op: Op)
    requires !(op.NewFamily? && Apply(s, op).1 == Flag(true)) && !(op.Rotate? && Apply(s, op).1.Rotated?)
    ensures exists families :: Apply(s, op).0.refresh == RevokeFamilies(s.refresh, families)
  {
    assert RevokeFamilies(s.refresh, {}) == s.refresh;
    if op.RevokeAll? {
      var families := RevocableFamilies(s.refresh, op.accountId);
      assert Apply(s, op).0.refresh == RevokeFamilies(s.refresh, families);
    }
  }

  lemma {:induction false} RefreshInvKept(w: World, op: Op)
    requires RefreshInv(w)
    ensures RefreshInv(Step(w, op))
  {
    var outcome := Apply(w.state, op).1;
    forall f ensures FamilyOk(Step(w, op).state.refresh, Step(w, op).log, f) {
      if op.NewFamily? && outcome == Flag(true) {
        FamilyKeptByCreation(w, op, f);
      } else if op.Rotate? && outcome.Rotated? {
        FamilyKeptByRotation(w, op, f);
      } else {
        OtherStepsOnlyRevoke(w.state, op);
        var families :| Apply(w.state, op).0.refresh == RevokeFamilies(w.state.refresh, families);
        Unfold(w.log, Event(op, outcome), f);
        FamilyKeptByRevocation(w.state.refresh, families, w.log, f);
      }
    }
  }

  lemma {:induction false} RefreshInvRun(w: World, ops: seq<Op>)
    requires RefreshInv(w)
    ensures RefreshInv(Run(w, ops))
    decreases |ops|
  {
    if ops != [] {
      RefreshInvKept(w, ops[0]);
      RefreshInvRun(Step(w, ops[0]), ops[1..]);
    }
  }

  // ------------------------------------------------------------------ main results

  function TokensOf(refresh: map<string, Refresh>, f: string): set<string> {
    set t | t in refresh && refresh[t].familyId == f
  }

  lemma {:induction false} DistinctCount(c: seq<string>)
    requires forall i, j :: 0 <= i < j < |c| ==> c[i] != c[j]
    ensures |set x | x in c| == |c|
  {
    if c != [] {
      var n := |c| - 1;
      DistinctCount(c[..n]);
      assert (set x | x in c) == (set x | x in c[..n]) + {c[n]};
    }
  }

  /** Exactly one token of the family is unconsumed. */
  ghost predicate OneUnconsumed(refresh: map<string, Refresh>, f: string) {
    exists live ::
      && live in refresh && refresh[live].familyId == f && !refresh[live].consumed
      && forall t :: t in refresh && refresh[t].familyId == f && t != live ==> refresh[t].consumed
  }

  /** The consumed tokens of a chain are exactly those its rotations started from. */
  lemma ConsumedAreLinked(refresh: map<string, Refresh>, f: string, c: seq<string>, links: seq<RotateCommand>)
    requires ChainOk(refresh, f, c, links) && c != []
    ensures forall i :: 0 <= i < |links| ==> links[i].tokenId == c[i]
    ensures forall t :: t in c ==> (refresh[t].consumed <==> exists i :: 0 <= i < |links| && links[i].tokenId == t)
  {
    forall t | t in c ensures refresh[t].consumed <==> exists i :: 0 <= i < |links| && links[i].tokenId == t {
      var k :| 0 <= k < |c| && c[k] == t;
      if k < |links| {
        assert links[k].tokenId == t;
      }
    }
  }

  /**
   The family is one successor chain with a single live end, its tokens agree on account,
   epoch and revocation, its consumed tokens are exactly those the rotations `links`
   started from, each once, and it has one more token than rotations.
   */
  ghost predicate OneChain(refresh: map<string, Refresh>, f: string, links: seq<RotateCommand>) {
    && OneUnconsumed(refresh, f)
    && |TokensOf(refresh, f)| == |links| + 1
    && (forall t, u :: t in TokensOf(refresh, f) && u in TokensOf(refresh, f) ==>
          && refresh[t].accountId == refresh[u].accountId
          && refresh[t].securityEpoch == refresh[u].securityEpoch
          && refresh[t].revoked == refresh[u].revoked)
    && (forall i :: 0 <= i < |links| - 1 ==> links[i].successorId == links[i + 1].tokenId)
    && (forall i, j :: 0 <= i < j < |links| ==> links[i].tokenId != links[j].tokenId)
    && (forall i :: 0 <= i < |links| ==> links[i].tokenId in TokensOf(refresh, f))
    && (forall t :: t in TokensOf(refresh, f) ==>
          (refresh[t].consumed <==> exists i :: 0 <= i < |links| && links[i].tokenId == t))
    && (links != [] ==> var last := links[|links| - 1].successorId;
                        last in TokensOf(refresh, f) && !refresh[last].consumed)
  }

  lemma ChainIsOne(refresh: map<string, Refresh>, f: string, c: seq<string>, links: seq<RotateCommand>)
    requires ChainOk(refresh, f, c, links) && c != []
    ensures OneChain(refresh, f, links)
  {
    DistinctCount(c);
    assert TokensOf(refresh, f) == set x | x in c;
    ConsumedAreLinked(refresh, f, c, links);
    var live := c[|c| - 1];
    forall t | t in refresh && refresh[t].familyId == f && t != live ensures refresh[t].consumed {
      var k :| 0 <= k < |c| && c[k] == t;
    }
  }

  /**
   Whatever order clients' prepare, rotate and revoke calls interleave in, every family
   that exists is one chain of exactly the rotations whose outcome was ROTATED.
   */
  lemma FamilyIsOneChain(ops: seq<Op>, f: string)
    requires FamilyExists(Run(START, ops).state.refresh, f)
    ensures OneChain(Run(START, ops).state.refresh, f, Rotations(Run(START, ops).log, f))
  {
    RefreshInvRun(START, ops);
    var w := Run(START, ops);
    assert FamilyOk(w.state.refresh, w.log, f);
    ChainIsOne(w.state.refresh, f, Chain(w.log, f), Rotations(w.log, f));
  }

  ghost predicate FamilyRevoked(refresh: map<string, Refresh>, f: string) {
    FamilyExists(refresh, f) && !Revocable(refresh, f)
  }

  /** The event hands out something usable for the family: a context, a receipt or a successor. */
  predicate Grants(e: Event, f: string) {
    || IsRotation(e, f)
    || (e.outcome.Context? && e.outcome.context.familyId == f)
    || (e.outcome.Replayed? && e.outcome.context.familyId == f)
  }

  /** The step revokes the family, by an explicit call or by detecting a replay. */
  ghost predicate Revokes(s: State, op: Op, f: string) {
    var outcome := Apply(s, op).1;
    match op
    case RevokeFamily(g) => g == f && outcome == Flag(true)
    case RevokeToken(id, _) => outcome == Flag(true) && s.refresh[id].familyId == f
    case RevokeTokenFor(_, id, _) => outcome == Flag(true) && s.refresh[id].familyId == f
    case RevokeAll(a) => f in RevocableFamilies(s.refresh, a)
    case Prepare(id, _, _, _) => outcome == ReplayDetected && s.refresh[id].familyId == f
    case _ => false
  }

  lemma {:induction false} RevokedGrantsNothing(s: State, op: Op, f: string)
    requires FamilyRevoked(s.refresh, f)
    ensures !Grants(Event(op, Apply(s, op).1), f)
    ensures !(op.NewFamily? && Apply(s, op).1 == Flag(true) && op.create.familyId == f)
  {
    if op.Rotate? && op.command.tokenId in s.refresh {
      assert s.refresh[op.command.tokenId].familyId == f ==> s.refresh[op.command.tokenId].revoked;
    }
  }

  lemma {:induction false} RevokedStaysRevoked(s: State, op: Op, f: string)
    requires FamilyRevoked(s.refresh, f)
    ensures FamilyRevoked(Apply(s, op).0.refresh, f)
    ensures !Grants(Event(op, Apply(s, op).1), f)
  {
    RevokedGrantsNothing(s, op, f);
    var t :| t in s.refresh && s.refresh[t].familyId == f;
    var r' := Apply(s, op).0.refresh;
    if (op.NewFamily? && Apply(s, op).1 == Flag(true)) || (op.Rotate? && Apply(s, op).1.Rotated?) {
      assert t in r' && r'[t].familyId == f;
    } else {
      OtherStepsOnlyRevoke(s, op);
      assert t in r' && r'[t].familyId == f;
    }
  }

  lemma {:induction false} NoGrantsOnceRevoked(w: World, ops: seq<Op>, f: string)
    requires FamilyRevoked(w.state.refresh, f)
    ensures var w' := Run(w, ops);
            |w'.log| == |w.log| + |ops| && w.log <= w'.log
            && forall k :: |w.log| <= k < |w'.log| ==> !Grants(w'.log[k], f)
    decreases |ops|
  {
    if ops != [] {
      RevokedStaysRevoked(w.state, ops[0], f);
      NoGrantsOnceRevoked(Step(w, ops[0]), ops[1..], f);
    }
  }

  lemma RevokedByName(refresh: map<string, Refresh>, families: set<string>, f: string)
    requires f in families && FamilyExists(refresh, f)
    ensures FamilyRevoked(RevokeFamilies(refresh, families), f)
  {
    var t :| t in refresh && refresh[t].familyId == f;
    assert t in RevokeFamilies(refresh, families) && RevokeFamilies(refresh, families)[t].familyId == f;
  }

  lemma {:induction false} RevokingStepRevokes(s: State, op: Op, f: string)
    requires Revokes(s, op, f)
    ensures FamilyRevoked(Apply(s, op).0.refresh, f)
  {
    if op.RevokeAll? {
      RevokedByName(s.refresh, RevocableFamilies(s.refresh, op.accountId), f);
    } else {
      RevokedByName(s.refresh, {f}, f);
    }
  }

  /** After a revoking step of any run, no continuation ever grants anything for the family. */
  lemma RevocationIsFinal(before: seq<Op>, op: Op, after: seq<Op>, f: string)
    requires Revokes(Run(START, before).state, op, f)
    ensures var w := Step(Run(START, before), op);
            var w' := Run(w, after);
            FamilyRevoked(w'.state.refresh, f)
            && forall k :: |w.log| <= k < |w'.log| ==> !Grants(w'.log[k], f)
  {
    var w := Step(Run(START, before), op);
    RevokingStepRevokes(Run(START, before).state, op, f);
    NoGrantsOnceRevoked(w, after, f);
    RevokedRun(w, after, f);
  }

  lemma {:induction false} RevokedRun(w: World, ops: seq<Op>, f: string)
    requires FamilyRevoked(w.state.refresh, f)
    ensures FamilyRevoked(Run(w, ops).state.refresh, f)
    decreases |ops|
  {
    if ops != [] {
      RevokedStaysRevoked(w.state, ops[0], f);
      RevokedRun(Step(w, ops[0]), ops[1..], f);
    }
  }

  /** What presenting the token of the i-th rotation of a family does. */
  lemma PresentedAgain(w: World, f: string, i: nat, key: Option<Bytes>, now: Time)
    requires FamilyOk(w.state.refresh, w.log, f) && i < |Rotations(w.log, f)|
    ensures var cmd := Rotations(w.log, f)[i];
            var (s', outcome) := DoPrepare(w.state, cmd.tokenId, cmd.tokenDigest, key, now);
            if FamilyRevoked(w.state.refresh, f) then s' == w.state && outcome == AlreadyRevoked
            else if key == cmd.idempotency then
              && s' == w.state && outcome.Replayed? && outcome.receipt == cmd.receipt
              && outcome.context.familyId == f && outcome.context.accountId == cmd.accountId
            else outcome == ReplayDetected && FamilyRevoked(s'.refresh, f)
  {
    var cmd, c, refresh := Rotations(w.log, f)[i], Chain(w.log, f), w.state.refresh;
    assert c[i] == cmd.tokenId && refresh[c[i]].consumed && Link(refresh[c[i]], cmd, refresh[c[i + 1]]);
    assert refresh[c[i]].revoked ==> FamilyRevoked(refresh, f);
    var s' := DoPrepare(w.state, cmd.tokenId, cmd.tokenDigest, key, now).0;
    if !refresh[c[i]].revoked && key != cmd.idempotency {
      assert c[i] in s'.refresh && s'.refresh[c[i]].familyId == f;
    }
  }

  /**
   Presenting a token again after it was rotated: the same idempotency key gets the
   very receipt that rotation committed and changes nothing, at any time and any epoch;
   any other key revokes the whole family.
   */
  lemma SecondPresentation(ops: seq<Op>, f: string, i: nat, key: Option<Bytes>, now: Time)
    requires i < |Rotations(Run(START, ops).log, f)|
    ensures var w := Run(START, ops);
            var cmd := Rotations(w.log, f)[i];
            var (s', outcome) := DoPrepare(w.state, cmd.tokenId, cmd.tokenDigest, key, now);
            if FamilyRevoked(w.state.refresh, f) then s' == w.state && outcome == AlreadyRevoked
            else if key == cmd.idempotency then
              && s' == w.state && outcome.Replayed? && outcome.receipt == cmd.receipt
              && outcome.context.familyId == f && outcome.context.accountId == cmd.accountId
            else outcome == ReplayDetected && FamilyRevoked(s'.refresh, f)
  {
    RefreshInvRun(START, ops);
    PresentedAgain(Run(START, ops), f, i, key, now);
  }

  predicate SameTerms(r: Refresh, familyExpiresAt: Time, scopes: set<string>) {
    r.familyExpiresAt == familyExpiresAt && r.scopes == scopes
  }

  /**
   The store copies a successor's family expiry and scopes from the command. So a
   family keeps the deadline and scopes it was created with exactly when every rotation
   that went through repeated its predecessor's.
   */
  lemma FamilyTermsKept(ops: seq<Op>, f: string)
    requires FamilyExists(Run(START, ops).state.refresh, f)
    ensures var w := Run(START, ops);
            var refresh, links := w.state.refresh, Rotations(w.log, f);
            (forall i :: 0 <= i < |links| ==> links[i].tokenId in refresh) &&
            ((forall t, u :: t in TokensOf(refresh, f) && u in TokensOf(refresh, f) ==>
                SameTerms(refresh[t], refresh[u].familyExpiresAt, refresh[u].scopes))
             <==>
             (forall i :: 0 <= i < |links| ==>
                SameTerms(refresh[links[i].tokenId], links[i].familyExpiresAt, links[i].scopes)))
  {
    RefreshInvRun(START, ops);
    var w := Run(START, ops);
    var refresh, links, c := w.state.refresh, Rotations(w.log, f), Chain(w.log, f);
    assert FamilyOk(refresh, w.log, f);
    forall i | 0 <= i < |c| ensures c[i] in TokensOf(refresh, f) {}
    if forall i :: 0 <= i < |links| ==> SameTerms(refresh[links[i].tokenId], links[i].familyExpiresAt, links[i].scopes) {
      forall t | t in TokensOf(refresh, f) ensures SameTerms(refresh[t], refresh[c[0]].familyExpiresAt, refresh[c[0]].scopes) {
        var i :| 0 <= i < |c| && c[i] == t;
        TermsAlongChain(refresh, c, links, i);
      }
    } else {
      var i :| 0 <= i < |links| && !SameTerms(refresh[links[i].tokenId], links[i].familyExpiresAt, links[i].scopes);
      assert Link(refresh[c[i]], links[i], refresh[c[i + 1]]);
      assert c[i] in TokensOf(refresh, f) && c[i + 1] in TokensOf(refresh, f);
    }
  }

  lemma {:induction false} TermsAlongChain(refresh: map<string, Refresh>, c: seq<string>, links: seq<RotateCommand>, i: nat)
    requires i < |c| && forall k :: 0 <= k < |c| ==> c[k] in refresh
    requires Linked(refresh, c, links)
    requires forall k :: 0 <= k < |links| ==> SameTerms(refresh[c[k]], links[k].familyExpiresAt, links[k].scopes)
    ensures SameTerms(refresh[c[i]], refresh[c[0]].familyExpiresAt, refresh[c[0]].scopes)
  {
    if i > 0 {
      TermsAlongChain(refresh, c, links, i - 1);
      assert Link(refresh[c[i - 1]], links[i - 1], refresh[c[i]]);
    }
  }
}
