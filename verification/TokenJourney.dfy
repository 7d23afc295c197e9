/**
 A one-time token's whole way: printed by the codec, its digest stored, carried around as
 text, parsed and redeemed.
 */
module TokenJourney {
  import opened Prelude
  import opened AccountSpec
  import opened AccountHistory
  import opened PurposeTokens
  import Codecs = PurposeCodec

  function Stored(p: Codecs.Purpose): Purpose {
    match p
    case Invitation => Invitation
    case Verification => Verification
    case Recovery => Recovery
  }

  /** What the store is given of a printed token. */
  function IssueOf(r: Codecs.IssueResult, accountId: string, epoch: Option<int>): Issue
    requires r.Issue?
  {
    Issue(r.tokenId, r.digest, Stored(r.purpose), accountId, r.expiresAt, r.maximumAttempts, epoch)
  }

  /** An issue is never replaced. */
  lemma IssuedStays(w: World, op: Op, id: string)
    requires TokensInv(w) && Issued(w.log, id).Some?
    ensures Issued(Step(w, op).log, id) == Issued(w.log, id)
  {
    assert TokenOk(w.state, w.log, id);
    TokenUnfold(w.log, Event(op, Apply(w.state, op).1), id);
    OrderSteps(w.state, op);
  }

  lemma {:induction false} IssuedForGood(w: World, ops: seq<Op>, id: string)
    requires History(w) && Admissible(ops) && Issued(w.log, id).Some?
    ensures History(Run(w, ops)) && Issued(Run(w, ops).log, id) == Issued(w.log, id)
    decreases |ops|
  {
    if ops != [] {
      assert ops[0].WellFormed();
      HistoryKept(w, ops[0]);
      IssuedStays(w, ops[0], id);
      IssuedForGood(Step(w, ops[0]), ops[1..], id);
    }
  }

  /** The state after a token was stored and other calls came. */
  ghost function Later(before: seq<Op>, issue: Issue, between: seq<Op>): World {
    Run(Step(Run(START, before), IssueToken(issue)), between)
  }

  lemma StoredStays(before: seq<Op>, issue: Issue, between: seq<Op>)
    requires Admissible(before) && Admissible(between) && issue.WellFormed()
    requires Apply(Run(START, before).state, IssueToken(issue)).1.Done?
    ensures History(Later(before, issue, between))
    ensures Issued(Later(before, issue, between).log, issue.tokenId) == Some(issue)
  {
    StartHistory();
    HistoryRun(START, before);
    var w := Run(START, before);
    HistoryKept(w, IssueToken(issue));
    TokenUnfold(w.log, Event(IssueToken(issue), Done), issue.tokenId);
    IssuedForGood(Step(w, IssueToken(issue)), between, issue.tokenId);
  }

  /** Two texts with one digest are one text, unless the hash collides on distinct inputs. */
  ghost predicate Collides(codec: Codecs.Codec) {
    exists x: Bytes, y: Bytes :: x != y && codec.hmac(codec.pepper, x) == codec.hmac(codec.pepper, y)
  }

  /** The result is that of printing a token with this lifetime, at this time, on some entropy. */
  ghost predicate PrintedBy(codec: Codecs.Codec, r: Codecs.IssueResult, purpose: Codecs.Purpose, now: Time, lifetime: int) {
    exists attempts, lookup, secret :: r == codec.IssueToken(purpose, now, lifetime, attempts, lookup, secret)
  }

  /** Only the printed text has the printed token's id and digest. */
  lemma TextIsToken(codec: Codecs.Codec, r: Codecs.IssueResult, purpose: Codecs.Purpose, now: Time, lifetime: int, text: string)
    requires PrintedBy(codec, r, purpose, now, lifetime) && r.Issue? && codec.Prove(text, purpose).Proved?
    ensures var proof := codec.Prove(text, purpose);
            && r.expiresAt == now + lifetime && r.purpose == purpose && 1 <= r.maximumAttempts <= 100
            && (text == r.token ==> proof.tokenId == r.tokenId && proof.digest == r.digest)
            && (proof.digest == r.digest ==> text == r.token || Collides(codec))
  {
    var attempts, lookup, secret :| r == codec.IssueToken(purpose, now, lifetime, attempts, lookup, secret);
    Codecs.IssuesExactly(codec, purpose, now, lifetime, attempts, lookup, secret);
    Codecs.IssuedIsProved(codec, purpose, now, lifetime, attempts, lookup, secret, purpose);
    if codec.Prove(text, purpose).digest == r.digest {
      Codecs.DigestIdentifiesToken(codec, text, purpose, r.token, purpose);
    }
  }

  lemma StoreVerifies(w: World, issue: Issue, digest: Bytes, later: Time)
    requires History(w) && Issued(w.log, issue.tokenId) == Some(issue) && issue.purpose.Verification?
    requires Live(w.log, issue.tokenId) && Registered(w.log, issue.accountId).Some?
    ensures Apply(w.state, Verify(issue.tokenId, digest, later)).1.Verified? <==>
            digest == issue.digest && later < issue.expiresAt
  {
    VerifyAnswers(w, Verify(issue.tokenId, digest, later));
  }

  lemma LogRedeems(log: seq<Event>, issue: Issue, digest: Bytes, later: Time)
    requires Issued(log, issue.tokenId) == Some(issue) && Live(log, issue.tokenId)
    ensures Redeemed(log, issue.tokenId, issue.purpose, digest, later).Done? <==> digest == issue.digest && later < issue.expiresAt
  {
  }

  /**
   A token of any purpose, printed and stored: while it is live its text is good for that
   purpose exactly before `now + lifetime`, and no other text under its id ever is, unless the
   keyed hash collides.
   */
  lemma PrintedTokenRedeems(codec: Codecs.Codec, r: Codecs.IssueResult, purpose: Codecs.Purpose, now: Time, lifetime: int,
                            before: seq<Op>, issue: Issue, between: seq<Op>, text: string, later: Time)
    requires PrintedBy(codec, r, purpose, now, lifetime) && r.Issue? && Admissible(before) && Admissible(between)
    requires issue == IssueOf(r, issue.accountId, issue.issuedEpoch) && issue.WellFormed()
    requires Apply(Run(START, before).state, IssueToken(issue)).1.Done?
    requires Live(Later(before, issue, between).log, issue.tokenId) && codec.Prove(text, purpose).Proved?
    ensures var proof := codec.Prove(text, purpose);
            var answer := Redeemed(Later(before, issue, between).log, issue.tokenId, issue.purpose, proof.digest, later);
            && (text == r.token ==> proof.tokenId == issue.tokenId && (answer.Done? <==> later < now + lifetime))
            && (answer.Done? ==> text == r.token || Collides(codec))
  {
    TextIsToken(codec, r, purpose, now, lifetime, text);
    StoredStays(before, issue, between);
    LogRedeems(Later(before, issue, between).log, issue, codec.Prove(text, purpose).digest, later);
  }

  /**
   A verification token printed and stored for an account verifies it when its text is
   presented later, as long as it is live, exactly before `now + lifetime`; and no other text
   under its id does, unless the keyed hash collides.
   */
  lemma PrintedTokenVerifies(codec: Codecs.Codec, r: Codecs.IssueResult, now: Time, lifetime: int, before: seq<Op>, a: string,
                             between: seq<Op>, text: string, later: Time)
    requires PrintedBy(codec, r, Codecs.Verification, now, lifetime) && r.Issue? && Admissible(before) && Admissible(between)
    requires Apply(Run(START, before).state, IssueToken(IssueOf(r, a, None))).1.Done?
    requires var w := Later(before, IssueOf(r, a, None), between); Live(w.log, r.tokenId) && Registered(w.log, a).Some?
    requires codec.Prove(text, Codecs.Verification).Proved?
    ensures var proof := codec.Prove(text, Codecs.Verification);
            var answer := Apply(Later(before, IssueOf(r, a, None), between).state, Verify(r.tokenId, proof.digest, later)).1;
            && (text == r.token ==> proof.tokenId == r.tokenId && (answer.Verified? <==> later < now + lifetime))
            && (answer.Verified? ==> text == r.token || Collides(codec))
  {
    var issue := IssueOf(r, a, None);
    TextIsToken(codec, r, Codecs.Verification, now, lifetime, text);
    StoredStays(before, issue, between);
    StoreVerifies(Later(before, issue, between), issue, codec.Prove(text, Codecs.Verification).digest, later);
  }
}
