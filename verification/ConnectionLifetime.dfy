/**
 One WebSocket connection's authorization over its whole life: evaluation, the merge of a
 connect token, then any number of refreshes.
 */
module ConnectionLifetime {
  import opened Prelude
  import opened Authorization
  import opened Evaluator
  import PolicySpec

  datatype Context = Context(principal: Option<string>, authorization: Snapshot, restrictions: seq<Restrictions>)

  const ANONYMOUS := Context(None, NO_AUTHORIZATION, [])

  datatype ConnectToken = ConnectToken(subject: string, restrictions: Restrictions)

  datatype MergeOutcome = Merged(context: Context) | NotAuthorized | ServiceUnavailable

  predicate LetsThrough(v: Verdict) {
    v.Admitted? || v.AnonymousAccess?
  }

  /** The context an evaluated request starts its connection with. */
  function ContextOf(v: Verdict): Context
    requires LetsThrough(v)
  {
    if v.AnonymousAccess? then ANONYMOUS else Context(Some(v.id), v.context, AllRestrictions(v.successes))
  }

  /** The application snapshot that evaluation narrowed. */
  function SourceOf(v: Verdict, resolver: Resolver): Snapshot
    requires LetsThrough(v)
  {
    if v.Admitted? && AnswerFor(v.id, v.successes, resolver).Loaded? then AnswerFor(v.id, v.successes, resolver).snapshot
    else NO_AUTHORIZATION
  }

  /** `resolver` is None when the application configured no authorization resolver. */
  function MergeConnectToken(token: ConnectToken, context: Context, resolver: Option<Answer>): MergeOutcome {
    if context.principal.Some? then
      if context.principal.value != token.subject then NotAuthorized
      else Merged(Context(context.principal, Resolve(context.authorization, [token.restrictions]),
                          context.restrictions + [token.restrictions]))
    else
      var base := if resolver.None? then Loaded(NO_AUTHORIZATION) else resolver.value;
      match base
      case Trouble => ServiceUnavailable
      case Refused => NotAuthorized
      case Loaded(snapshot) =>
        Merged(Context(Some(token.subject), Resolve(snapshot, [token.restrictions]), context.restrictions + [token.restrictions]))
  }

  /** The source snapshot a successful merge leaves in force. */
  function MergeSource(token: ConnectToken, context: Context, resolver: Option<Answer>, source: Snapshot): Snapshot {
    if context.principal.Some? then source
    else if resolver.Some? && resolver.value.Loaded? then resolver.value.snapshot
    else NO_AUTHORIZATION
  }

  /** The authorization in force is `source` narrowed by every restriction of the context. */
  ghost predicate Governed(context: Context, source: Snapshot) {
    && context.authorization == Resolve(source, context.restrictions)
    && (context.principal.None? ==> context.restrictions == [])
  }

  lemma EvaluateGoverned(plan: PolicySpec.Plan, participants: set<string>, slots: seq<Slot>, resolver: Resolver)
    requires LetsThrough(Evaluate(plan, participants, slots, resolver))
    ensures var v := Evaluate(plan, participants, slots, resolver);
            Governed(ContextOf(v), SourceOf(v, resolver))
  {
  }

  lemma MergeGoverned(token: ConnectToken, context: Context, resolver: Option<Answer>, source: Snapshot)
    requires Governed(context, source) && MergeConnectToken(token, context, resolver).Merged?
    ensures Governed(MergeConnectToken(token, context, resolver).context, MergeSource(token, context, resolver, source))
    ensures MergeConnectToken(token, context, resolver).context.principal == Some(token.subject)
  {
    if context.principal.Some? {
      ResolveInBatches(source, context.restrictions, [token.restrictions]);
    } else {
      assert [] + [token.restrictions] == [token.restrictions];
    }
  }

  datatype Event = Merging(token: ConnectToken, resolver: Option<Answer>) | Refreshing(answer: Answer)

  datatype Connection = Connection(context: Context, source: Snapshot, open: bool)

  /** Trouble during a merge or a refresh closes the connection. */
  function React(c: Connection, e: Event): Connection {
    if !c.open then c else
      match e
      case Merging(token, resolver) =>
        (match MergeConnectToken(token, c.context, resolver)
         case Merged(context) => Connection(context, MergeSource(token, c.context, resolver, c.source), true)
         case _ => c.(open := false))
      case Refreshing(answer) =>
        if !answer.Loaded? then c.(open := false)
        else c.(context := c.context.(authorization := Resolve(answer.snapshot, c.context.restrictions)), source := answer.snapshot)
  }

  function Live(c: Connection, events: seq<Event>): Connection {
    if events == [] then c else React(Live(c, events[..|events| - 1]), events[|events| - 1])
  }

  /** A connection whose handshake was evaluated to the verdict. */
  function Opened(v: Verdict, resolver: Resolver): Connection
    requires LetsThrough(v)
  {
    Connection(ContextOf(v), SourceOf(v, resolver), true)
  }

  lemma {:induction false} LifetimeGoverned(c: Connection, events: seq<Event>)
    requires Governed(c.context, c.source)
    ensures Governed(Live(c, events).context, Live(c, events).source)
    ensures |c.context.restrictions| <= |Live(c, events).context.restrictions|
    ensures c.context.restrictions == Live(c, events).context.restrictions[..|c.context.restrictions|]
    decreases |events|
  {
    if events != [] {
      var before, e := Live(c, events[..|events| - 1]), events[|events| - 1];
      LifetimeGoverned(c, events[..|events| - 1]);
      if before.open && e.Merging? && MergeConnectToken(e.token, before.context, e.resolver).Merged? {
        MergeGoverned(e.token, before.context, e.resolver, before.source);
      }
    }
  }

  /** The snapshot the latest loading event supplied, or the one evaluation started from. */
  ghost predicate LatestSource(c: Connection, events: seq<Event>, source: Snapshot)
    decreases |events|
  {
    if events == [] then source == c.source
    else
      var e := events[|events| - 1];
      if e.Refreshing? then e.answer == Loaded(source)
      else
        var before := Live(c, events[..|events| - 1]).context;
        if before.principal.None?
        then source == (if e.resolver.Some? && e.resolver.value.Loaded? then e.resolver.value.snapshot else NO_AUTHORIZATION)
        else LatestSource(c, events[..|events| - 1], source)
  }

  /**
   At every moment of every lifetime of a connection the evaluator let through, the
   authorization in force is the latest application snapshot narrowed by all restrictions
   the connection ever took on, including those of every credential it opened with, so no
   refresh escapes a credential bound.
   */
  lemma NoRefreshEscapesABound(plan: PolicySpec.Plan, participants: set<string>, slots: seq<Slot>, resolver: Resolver,
                               events: seq<Event>, k: nat)
    requires LetsThrough(Evaluate(plan, participants, slots, resolver))
    requires k < |Live(Opened(Evaluate(plan, participants, slots, resolver), resolver), events).context.restrictions|
    ensures var v := Evaluate(plan, participants, slots, resolver);
            var c := Live(Opened(v, resolver), events);
            && c.context.authorization == Resolve(c.source, c.context.restrictions)
            && Within(c.context.authorization, c.context.restrictions[k])
            && NoMoreThan(c.context.authorization, c.source)
            && (v.Admitted? && k < |v.successes| ==> c.context.restrictions[k] == v.successes[k].restrictions)
  {
    var v := Evaluate(plan, participants, slots, resolver);
    var c0 := Opened(v, resolver);
    EvaluateGoverned(plan, participants, slots, resolver);
    LifetimeGoverned(c0, events);
    var c := Live(c0, events);
    ResolveNeverExpands(c.source, c.context.restrictions, k);
    if v.Admitted? && k < |v.successes| {
      assert c0.context.restrictions == c.context.restrictions[..|v.successes|];
    }
  }

  /** While the connection is open, its source is the latest snapshot it was given. */
  lemma {:induction false} SourceIsLatest(c: Connection, events: seq<Event>)
    requires Live(c, events).open && c.open
    ensures LatestSource(c, events, Live(c, events).source)
    decreases |events|
  {
    if events != [] {
      var before := Live(c, events[..|events| - 1]);
      assert before.open;
      SourceIsLatest(c, events[..|events| - 1]);
    }
  }

  /** Whom the connection speaks for: the principal it opened with, or else the first connect token's subject. */
  function Speaker(c: Connection, events: seq<Event>): Option<string> {
    if events == [] then c.context.principal
    else
      var before, e := Speaker(c, events[..|events| - 1]), events[|events| - 1];
      if before.None? && e.Merging? then Some(e.token.subject) else before
  }

  /** The restrictions of the connect tokens, in order. */
  function TokenBounds(events: seq<Event>): seq<Restrictions> {
    if events == [] then []
    else
      var before, e := TokenBounds(events[..|events| - 1]), events[|events| - 1];
      if e.Merging? then before + [e.token.restrictions] else before
  }

  /** The event leaves a connection that speaks for `speaker` open. */
  predicate Welcome(speaker: Option<string>, e: Event) {
    match e
    case Merging(token, resolver) =>
      if speaker.Some? then token.subject == speaker.value else resolver.None? || resolver.value.Loaded?
    case Refreshing(answer) => answer.Loaded?
  }

  lemma ReactWelcomes(c: Connection, e: Event)
    requires c.open
    ensures var c' := React(c, e);
            && (c'.open <==> Welcome(c.context.principal, e))
            && (c'.open ==>
                  && c'.context.principal == (if c.context.principal.None? && e.Merging? then Some(e.token.subject)
                                              else c.context.principal)
                  && c'.context.restrictions == c.context.restrictions + if e.Merging? then [e.token.restrictions] else [])
  {
  }

  /**
   While it is open, a connection speaks for one principal throughout and is bound by the
   restrictions it opened with and those of every connect token, in order.
   */
  lemma {:induction false} OpenSpeaksForOne(c: Connection, events: seq<Event>)
    requires c.open && Live(c, events).open
    ensures Live(c, events).context.principal == Speaker(c, events)
    ensures Live(c, events).context.restrictions == c.context.restrictions + TokenBounds(events)
    decreases |events|
  {
    if events != [] {
      var n := |events| - 1;
      var before := events[..n];
      assert Live(c, before).open;
      OpenSpeaksForOne(c, before);
      ReactWelcomes(Live(c, before), events[n]);
      var bound := if events[n].Merging? then [events[n].token.restrictions] else [];
      Associates(c.context.restrictions, TokenBounds(before), bound);
      assert TokenBounds(events) == TokenBounds(before) + bound;
    }
  }

  ghost predicate AllWelcome(c: Connection, events: seq<Event>) {
    forall k :: 0 <= k < |events| ==> Welcome(Speaker(c, events[..k]), events[k])
  }

  lemma WelcomeUnfold(c: Connection, events: seq<Event>)
    requires events != []
    ensures var n := |events| - 1;
            AllWelcome(c, events) <==> AllWelcome(c, events[..n]) && Welcome(Speaker(c, events[..n]), events[n])
  {
    var n := |events| - 1;
    forall k | 0 <= k < n ensures events[..n][..k] == events[..k] && events[..n][k] == events[k] {}
  }

  /**
   A connection stays open exactly while every connect token is for whom it speaks and every
   answer it needs loads.
   */
  lemma {:induction false} OpenExactlyWhileWelcome(c: Connection, events: seq<Event>)
    requires c.open
    ensures Live(c, events).open <==> AllWelcome(c, events)
    decreases |events|
  {
    if events != [] {
      var n := |events| - 1;
      OpenExactlyWhileWelcome(c, events[..n]);
      WelcomeUnfold(c, events);
      if Live(c, events[..n]).open {
        OpenSpeaksForOne(c, events[..n]);
        ReactWelcomes(Live(c, events[..n]), events[n]);
      }
    }
  }

  /** The middleware's own state for one connection. */
  class WebSocketConnection {
    var current: Context
    ghost var source: Snapshot

    ghost predicate Valid()
      reads this
    {
      Governed(current, source)
    }

    constructor (v: Verdict, ghost resolver: Resolver)
      requires LetsThrough(v) && Governed(ContextOf(v), SourceOf(v, resolver))
      ensures Valid() && current == ContextOf(v) && source == SourceOf(v, resolver)
    {
      current := ContextOf(v);
      source := SourceOf(v, resolver);
    }

    method Merge(token: ConnectToken, resolver: Option<Answer>) returns (outcome: MergeOutcome)
      requires Valid()
      modifies this
      ensures Valid() && outcome == MergeConnectToken(token, old(current), resolver)
      ensures outcome.NotAuthorized? <==>
              || (old(current).principal.Some? && old(current).principal.value != token.subject)
              || (old(current).principal.None? && resolver == Some(Refused))
      ensures outcome.ServiceUnavailable? <==> old(current).principal.None? && resolver == Some(Trouble)
      ensures current == if outcome.Merged? then outcome.context else old(current)
      ensures source == if outcome.Merged? then MergeSource(token, old(current), resolver, old(source)) else old(source)
    {
      var authorization: Snapshot;
      if current.principal.Some? {
        if current.principal.value != token.subject {
          return NotAuthorized;
        }
        authorization := ResolveAuthorization(current.authorization, [token.restrictions]);
      } else {
        var snapshot := NO_AUTHORIZATION;
        if resolver.Some? {
          if resolver.value.Trouble? {
            return ServiceUnavailable;
          }
          if resolver.value.Refused? {
            return NotAuthorized;
          }
          snapshot := resolver.value.snapshot;
        }
        authorization := ResolveAuthorization(snapshot, [token.restrictions]);
      }
      MergeGoverned(token, current, resolver, source);
      source := MergeSource(token, current, resolver, source);
      current := Context(Some(token.subject), authorization, current.restrictions + [token.restrictions]);
      outcome := Merged(current);
    }

    method Refresh(answer: Answer) returns (ok: bool)
      requires Valid()
      modifies this
      ensures Valid() && ok == answer.Loaded?
      ensures ok ==> source == answer.snapshot
                     && current == old(current).(authorization := Resolve(answer.snapshot, old(current).restrictions))
      ensures !ok ==> source == old(source) && current == old(current)
    {
      if !answer.Loaded? {
        return false;
      }
      var authorization := ResolveAuthorization(answer.snapshot, current.restrictions);
      current := current.(authorization := authorization);
      source := answer.snapshot;
      ok := true;
    }
  }
}
