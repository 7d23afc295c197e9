/**
 Runtime evaluation of one request against a compiled plan: verify every presented
 credential, resolve identities, then test the plan and narrow the authorization.
 */
module Evaluator {
  import opened Prelude
  import opened PolicySpec
  import opened Authorization

  datatype Resolution = ResolverRaised | UnknownIdentity | IdentityUnavailable | Identity(id: Option<string>)

  /** What the slot's authenticator and its identity resolver answer for a presented credential. */
  datatype Verification =
    | VerifierRaised
    | VerifierNone
    | VerifierInvalid
    | VerifierUnavailable
    | Verified(resolution: Resolution, grants: Snapshot, restrictions: Restrictions)

  datatype Extraction = SlotRaised | Absent | Malformed | Presented(verification: Verification)

  /** One credential slot; `owner` is the mechanism that owns it, if any. */
  datatype Slot = Slot(owner: Option<string>, extraction: Extraction)

  datatype Success = Success(name: string, id: string, grants: Snapshot, restrictions: Restrictions)

  datatype Verdict = Unavailable | Unauthorized | AnonymousAccess | Admitted(id: string, successes: seq<Success>, context: Snapshot)

  // --------------------------------------------------------------- what can go wrong

  predicate Troubled(s: Slot) {
    || s.extraction.SlotRaised?
    || (s.owner.Some? && s.extraction.Presented?
        && (s.extraction.verification.VerifierRaised? || s.extraction.verification.VerifierUnavailable?))
  }

  predicate Rejected(s: Slot) {
    || s.extraction.Malformed?
    || (s.extraction.Presented? &&
          (s.owner.None? || s.extraction.verification.VerifierNone? || s.extraction.verification.VerifierInvalid?))
  }

  predicate ResolutionTroubled(s: Slot) {
    && s.owner.Some? && s.extraction.Presented? && s.extraction.verification.Verified?
    && (s.extraction.verification.resolution.ResolverRaised? || s.extraction.verification.resolution.IdentityUnavailable?)
  }

  predicate Unidentified(s: Slot) {
    && s.owner.Some? && s.extraction.Presented? && s.extraction.verification.Verified?
    && (s.extraction.verification.resolution.UnknownIdentity? || s.extraction.verification.resolution == Identity(None))
  }

  predicate Succeeded(s: Slot) {
    && s.owner.Some? && s.extraction.Presented? && s.extraction.verification.Verified?
    && s.extraction.verification.resolution.Identity? && s.extraction.verification.resolution.id.Some?
  }

  function SuccessOf(s: Slot): Success
    requires Succeeded(s)
  {
    var v := s.extraction.verification;
    Success(s.owner.value, v.resolution.id.value, v.grants, v.restrictions)
  }

  function Successes(slots: seq<Slot>): seq<Success> {
    if slots == [] then []
    else
      var last := slots[|slots| - 1];
      Successes(slots[..|slots| - 1]) + if Succeeded(last) then [SuccessOf(last)] else []
  }

  function SuccessNames(successes: seq<Success>): set<string> {
    set i | 0 <= i < |successes| :: successes[i].name
  }

  // ----------------------------------------------------------- merging credential grants

  function MergeTenants(a: map<string, set<string>>, b: map<string, set<string>>): map<string, set<string>> {
    map t | t in a.Keys + b.Keys :: (if t in a then a[t] else {}) + (if t in b then b[t] else {})
  }

  function MergeGrants(a: Snapshot, b: Snapshot): Snapshot {
    Snapshot(a.scopes + b.scopes, a.roles + b.roles, a.capabilities + b.capabilities,
             MergeTenants(a.tenantRoles, b.tenantRoles), a.tenantIds + b.tenantIds, a.resources + b.resources,
             a.attributes + b.attributes)
  }

  function Grants(successes: seq<Success>): Snapshot {
    if successes == [] then NO_AUTHORIZATION
    else MergeGrants(Grants(successes[..|successes| - 1]), successes[|successes| - 1].grants)
  }

  function AllRestrictions(successes: seq<Success>): seq<Restrictions> {
    seq(|successes|, i requires 0 <= i < |successes| => successes[i].restrictions)
  }

  // ------------------------------------------------------------------------ evaluation

  datatype Answer = Loaded(snapshot: Snapshot) | Refused | Trouble

  /** `resolver` is None without an application authorization resolver; it is asked about one principal. */
  type Resolver = Option<string -> Answer>

  /** The application's answer about a principal; without a resolver the credentials' own grants stand. */
  function AnswerFor(id: string, successes: seq<Success>, resolver: Resolver): Answer {
    if resolver.None? then Loaded(Grants(successes)) else resolver.value(id)
  }

  function Authorize(id: string, successes: seq<Success>, resolver: Resolver): Verdict {
    match AnswerFor(id, successes, resolver)
    case Trouble => Unavailable
    case Refused => Unauthorized
    case Loaded(snapshot) => Admitted(id, successes, Resolve(snapshot, AllRestrictions(successes)))
  }

  ghost predicate SamePrincipal(successes: seq<Success>) {
    forall i :: 0 <= i < |successes| ==> successes[i].id == successes[0].id
  }

  /** The plan's final test; plans without alternatives ask for one of `participants`. */
  ghost predicate Passes(plan: Plan, participants: set<string>, succeeded: set<string>) {
    if plan.alternatives != [] then Satisfied(plan.alternatives, succeeded)
    else plan.required ==> participants * succeeded != {}
  }

  /** What one request comes to, by the phases' order of precedence. */
  ghost function Evaluate(plan: Plan, participants: set<string>, slots: seq<Slot>, resolver: Resolver): Verdict {
    if !plan.authenticate then AnonymousAccess
    else if exists s :: s in slots && Troubled(s) then Unavailable
    else if exists s :: s in slots && Rejected(s) then Unauthorized
    else if exists s :: s in slots && ResolutionTroubled(s) then Unavailable
    else if exists s :: s in slots && Unidentified(s) then Unauthorized
    else
      var successes := Successes(slots);
      if !SamePrincipal(successes) then Unauthorized
      else if !Passes(plan, participants, SuccessNames(successes)) then
        if plan.alternatives != [] && plan.allowAnonymous && successes == [] then AnonymousAccess else Unauthorized
      else if successes == [] then AnonymousAccess
      else Authorize(successes[0].id, successes, resolver)
  }

  // ------------------------------------------------------------------------ main results

  /** No credential was offered in any slot. */
  ghost predicate NothingPresented(slots: seq<Slot>) {
    forall i :: 0 <= i < |slots| ==> slots[i].extraction.Absent?
  }

  /** Every offered credential was verified and resolved to a real principal. */
  ghost predicate AllSucceed(slots: seq<Slot>) {
    forall i :: 0 <= i < |slots| ==> slots[i].extraction.Absent? || Succeeded(slots[i])
  }

  lemma {:induction false} SuccessesCover(slots: seq<Slot>)
    ensures forall s :: s in Successes(slots) <==> exists i :: 0 <= i < |slots| && Succeeded(slots[i]) && SuccessOf(slots[i]) == s
  {
    if slots != [] {
      var before, last := slots[..|slots| - 1], slots[|slots| - 1];
      SuccessesCover(before);
      assert slots == before + [last];
      forall s | s in Successes(slots)
        ensures exists i :: 0 <= i < |slots| && Succeeded(slots[i]) && SuccessOf(slots[i]) == s
      {
        if s in Successes(before) {
          var i :| 0 <= i < |before| && Succeeded(before[i]) && SuccessOf(before[i]) == s;
          assert slots[i] == before[i];
        } else {
          assert slots[|slots| - 1] == last;
        }
      }
      forall i | 0 <= i < |slots| && Succeeded(slots[i]) ensures SuccessOf(slots[i]) in Successes(slots) {
        if i < |before| {
          assert slots[i] == before[i];
          assert SuccessOf(before[i]) in Successes(before);
        }
      }
    }
  }

  lemma {:induction false} NothingSucceedsFromNothing(slots: seq<Slot>)
    requires AllSucceed(slots)
    ensures Successes(slots) == [] <==> NothingPresented(slots)
  {
    SuccessesCover(slots);
    if Successes(slots) != [] {
      assert Successes(slots)[0] in Successes(slots);
    }
    if i :| 0 <= i < |slots| && !slots[i].extraction.Absent? {
      assert SuccessOf(slots[i]) in Successes(slots);
    }
  }

  /** The plan lets the successes through, or nobody, if it is optional. */
  ghost predicate Acceptable(plan: Plan, participants: set<string>, successes: seq<Success>) {
    || Passes(plan, participants, SuccessNames(successes))
    || (plan.alternatives != [] && plan.allowAnonymous && successes == [])
  }

  /**
   Each of the four verdicts exactly: trouble with a credential goes first, then a bad
   credential, then trouble resolving an identity, then a missing identity, then the plan,
   and last what the application answers about the principal.
   */
  lemma {:induction false} VerdictByOutcomes(plan: Plan, participants: set<string>, slots: seq<Slot>, resolver: Resolver)
    requires plan.authenticate
    ensures var successes := Successes(slots);
            var verdict := Evaluate(plan, participants, slots, resolver);
            var troubled, rejected := (exists s :: s in slots && Troubled(s)), exists s :: s in slots && Rejected(s);
            var unresolved := exists s :: s in slots && ResolutionTroubled(s);
            var settled := AllSucceed(slots) && SamePrincipal(successes) && Acceptable(plan, participants, successes);
            && (verdict.Admitted? <==>
                  settled && successes != [] && AnswerFor(successes[0].id, successes, resolver).Loaded?)
            && (verdict.AnonymousAccess? <==> settled && successes == [])
            && (verdict.Unavailable? <==>
                  || troubled || (!rejected && unresolved)
                  || (settled && successes != [] && AnswerFor(successes[0].id, successes, resolver).Trouble?))
            && (verdict.Unauthorized? <==>
                  && !troubled && (rejected || !unresolved)
                  && (!settled || (successes != [] && AnswerFor(successes[0].id, successes, resolver).Refused?)))
  {
    if !AllSucceed(slots) {
      var i :| 0 <= i < |slots| && !slots[i].extraction.Absent? && !Succeeded(slots[i]);
      assert slots[i] in slots;
      assert Troubled(slots[i]) || Rejected(slots[i]) || ResolutionTroubled(slots[i]) || Unidentified(slots[i]);
    }
  }

  /**
   A request is let through under a policy exactly when every credential it presents
   succeeds, all for one principal the application loads an authorization for, and either
   the succeeded mechanisms satisfy the policy as written or the policy is optional and
   nothing was presented at all.
   */
  lemma AdmissionFollowsPolicy(registry: Registry, cap: int, p: Policy, csrf: Option<bool>, slots: seq<Slot>,
                               resolver: Resolver)
    requires registry.Valid() && WellFormed(p) && (p.Mechanisms? || p.Optional?)
    requires Compile(registry, cap, p, csrf).Ok?
    ensures var plan := Compile(registry, cap, p, csrf).value;
            var successes := Successes(slots);
            var verdict := Evaluate(plan, {}, slots, resolver);
            && Expression(p).Mechanisms?
            && (verdict.Admitted? <==>
                  && AllSucceed(slots) && SamePrincipal(successes) && !NothingPresented(slots)
                  && Holds(registry, Expression(p), SuccessNames(successes))
                  && successes != [] && AnswerFor(successes[0].id, successes, resolver).Loaded?)
            && (verdict.AnonymousAccess? <==> p.Optional? && NothingPresented(slots))
  {
    var plan := Compile(registry, cap, p, csrf).value;
    var successes := Successes(slots);
    CompilePreservesMeaning(registry, cap, p, csrf, SuccessNames(successes));
    VerdictByOutcomes(plan, {}, slots, resolver);
    ParticipantsExist(registry, cap, p, csrf);
    if AllSucceed(slots) {
      NothingSucceedsFromNothing(slots);
      assert successes == [] ==> SuccessNames(successes) == {};
    }
  }

  /** A public or excluded route lets every request through, whatever it presents; no other policy does. */
  lemma OpenExactlyIfPublic(registry: Registry, cap: int, p: Policy, csrf: Option<bool>, resolver: Resolver)
    requires registry.Valid() && WellFormed(p) && Compile(registry, cap, p, csrf).Ok?
    ensures var plan := Compile(registry, cap, p, csrf).value;
            (forall slots :: Evaluate(plan, {}, slots, resolver).AnonymousAccess?) <==> p.Public? || p.Exclude?
  {
    PlanFlagsExactly(registry, cap, p, csrf);
    var bad := Slot(None, Malformed);
    assert bad in [bad] && Rejected(bad);
    assert !Troubled(bad) && forall s :: s in [bad] ==> s == bad;
    var plan := Compile(registry, cap, p, csrf).value;
    assert Evaluate(plan, {}, [bad], resolver).AnonymousAccess? <==> !plan.authenticate;
  }

  /** The plan used for routes that declare no policy. */
  function DefaultPlan(registry: Registry): Plan {
    Plan(registry.defaults != [], false, registry.defaults != [], [], false, None)
  }

  /** It treats every request like the compiled implicit `required()` policy. */
  lemma DefaultPlanIsImplicitRequired(registry: Registry, cap: int, slots: seq<Slot>, resolver: Resolver)
    requires registry.Valid() && registry.defaults != []
    ensures var compiled := Compile(registry, cap, RequiredPolicy([]).value, None);
            && compiled.Ok?
            && Evaluate(DefaultPlan(registry), Elements(registry.defaults), slots, resolver)
               == Evaluate(compiled.value, {}, slots, resolver)
  {
    var p := RequiredPolicy([]).value;
    CompilePreservesMeaning(registry, cap, p, None, SuccessNames(Successes(slots)));
    if Successes(slots) == [] {
      assert SuccessNames([]) == {};
      ParticipantsExist(registry, cap, p, None);
    }
  }

  lemma ParticipantsExist(registry: Registry, cap: int, p: Policy, csrf: Option<bool>)
    requires registry.Valid() && WellFormed(p) && (p.Mechanisms? || p.Optional?)
    requires Compile(registry, cap, p, csrf).Ok?
    ensures Expression(p).Mechanisms? && !Holds(registry, Expression(p), {})
  {
    var q := Expression(p);
    RequirementsMeanParticipants(registry, q);
    var rs := Requirements(registry, q).value;
    assert Names(rs)[0] in Elements(Names(rs));
    assert Participants(registry, q) * {} == {};
  }

  /** Whoever is admitted stays within the bounds of every credential that succeeded. */
  lemma AdmittedWithinEveryBound(plan: Plan, participants: set<string>, slots: seq<Slot>, resolver: Resolver, k: nat)
    requires var v := Evaluate(plan, participants, slots, resolver);
             v.Admitted? && k < |v.successes|
    ensures var v := Evaluate(plan, participants, slots, resolver);
            Within(v.context, v.successes[k].restrictions) && v.successes[k].id == v.id
  {
    var v := Evaluate(plan, participants, slots, resolver);
    ResolveNeverExpands(AnswerFor(v.id, v.successes, resolver).snapshot, AllRestrictions(v.successes), k);
  }

  // -------------------------------------------------------------------- the phases as code

  /** Extract every slot once; a raising slot is the immediate failure. */
  method ExtractPhase(slots: seq<Slot>) returns (raised: bool)
    ensures raised <==> exists s :: s in slots && s.extraction.SlotRaised?
  {
    for i := 0 to |slots|
      invariant forall s :: s in slots[..i] ==> !s.extraction.SlotRaised?
    {
      if slots[i].extraction.SlotRaised? {
        assert slots[i] in slots;
        return true;
      }
      assert slots[..i + 1] == slots[..i] + [slots[i]];
    }
    assert slots[..|slots|] == slots;
    return false;
  }

  /** Verify presented credentials slot by slot; `raised` is the immediate failure. */
  method AuthenticatePhase(slots: seq<Slot>) returns (raised: bool, outcomes: seq<Slot>, invalid: bool)
    ensures raised <==> exists s :: s in slots && RaisedBy(s)
    ensures !raised ==> outcomes == Answered(slots)
    ensures !raised ==> (invalid <==> exists s :: s in slots && Rejected(s) && !AnsweredInvalid(s))
  {
    raised, outcomes := false, [];
    invalid := exists s | s in slots :: s.extraction.Malformed?;
    for i := 0 to |slots|
      invariant !raised && outcomes == Answered(slots[..i])
      invariant forall s :: s in slots[..i] ==> !RaisedBy(s)
      invariant invalid <==>
        || (exists s :: s in slots && s.extraction.Malformed?)
        || (exists s :: s in slots[..i] && Rejected(s) && !AnsweredInvalid(s))
    {
      var s := slots[i];
      assert slots[..i + 1][..i] == slots[..i] && slots[..i + 1] == slots[..i] + [s];
      assert s in slots[..i + 1] && s in slots;
      if s.extraction.Presented? {
        if s.owner.None? {
          invalid := true;
        } else if s.extraction.verification.VerifierRaised? {
          raised := true;
          return;
        } else if s.extraction.verification.VerifierNone? {
          invalid := true;
        } else {
          outcomes := outcomes + [s];
        }
      }
    }
    assert slots[..|slots|] == slots;
  }

  predicate RaisedBy(s: Slot) {
    s.owner.Some? && s.extraction.Presented? && s.extraction.verification.VerifierRaised?
  }

  /** Slots whose authenticator gave an outcome worth keeping. */
  predicate Kept(s: Slot) {
    && s.owner.Some? && s.extraction.Presented?
    && !s.extraction.verification.VerifierRaised? && !s.extraction.verification.VerifierNone?
  }

  predicate AnsweredInvalid(s: Slot) {
    Kept(s) && s.extraction.verification.VerifierInvalid?
  }

  function Answered(slots: seq<Slot>): seq<Slot> {
    if slots == [] then []
    else
      var last := slots[|slots| - 1];
      Answered(slots[..|slots| - 1]) + if Kept(last) then [last] else []
  }

  lemma {:induction false} AnsweredCovers(slots: seq<Slot>)
    ensures forall s :: s in Answered(slots) <==> s in slots && Kept(s)
    ensures Successes(Answered(slots)) == Successes(slots)
  {
    if slots != [] {
      var before, last := slots[..|slots| - 1], slots[|slots| - 1];
      AnsweredCovers(before);
      assert slots == before + [last];
      if Kept(last) {
        SnocSplit(Answered(before), last);
        assert Successes(Answered(before) + [last]) == Successes(Answered(before)) + if Succeeded(last) then [SuccessOf(last)] else [];
      } else {
        assert Answered(slots) == Answered(before) && Successes(slots) == Successes(before);
      }
    }
  }

  /** Resolve the kept outcomes in order; `raised` is the immediate failure. */
  method ResolvePhase(outcomes: seq<Slot>) returns (raised: bool, resolved: seq<Success>, failure: Option<Verdict>)
    requires forall s :: s in outcomes ==> Kept(s) && s.extraction.verification.Verified?
    ensures (raised || failure == Some(Unavailable)) <==> exists s :: s in outcomes && ResolutionTroubled(s)
    ensures !raised && failure == Some(Unauthorized) ==> exists s :: s in outcomes && Unidentified(s)
    ensures !raised && failure.None? ==> (forall s :: s in outcomes ==> Succeeded(s)) && resolved == Successes(outcomes)
    ensures !raised && failure.Some? ==> failure.value.Unavailable? || failure.value.Unauthorized?
  {
    raised, resolved, failure := false, [], None;
    for i := 0 to |outcomes|
      invariant forall j :: 0 <= j < i ==> !outcomes[j].extraction.verification.resolution.ResolverRaised?
    {
      if outcomes[i].extraction.verification.resolution.ResolverRaised? {
        raised := true;
        assert outcomes[i] in outcomes;
        return;
      }
    }
    if exists i :: 0 <= i < |outcomes| && outcomes[i].extraction.verification.resolution.IdentityUnavailable? {
      var i :| 0 <= i < |outcomes| && outcomes[i].extraction.verification.resolution.IdentityUnavailable?;
      assert outcomes[i] in outcomes;
      failure := Some(Unavailable);
      return;
    }
    if exists i :: 0 <= i < |outcomes| && outcomes[i].extraction.verification.resolution.UnknownIdentity? {
      var i :| 0 <= i < |outcomes| && outcomes[i].extraction.verification.resolution.UnknownIdentity?;
      assert outcomes[i] in outcomes;
      failure := Some(Unauthorized);
      return;
    }
    for i := 0 to |outcomes|
      invariant resolved == Successes(outcomes[..i]) && forall j :: 0 <= j < i ==> Succeeded(outcomes[j])
    {
      assert outcomes[i] in outcomes;
      assert outcomes[..i + 1][..i] == outcomes[..i];
      if outcomes[i].extraction.verification.resolution.id.None? {
        failure := Some(Unauthorized);
        return;
      }
      resolved := resolved + [SuccessOf(outcomes[i])];
    }
    assert outcomes[..|outcomes|] == outcomes;
  }

  /** The kept outcomes tell everything the later phases ask about the slots. */
  lemma {:induction false} OutcomesTellAll(slots: seq<Slot>)
    requires forall s :: s in slots ==> !RaisedBy(s) && !s.extraction.SlotRaised?
    ensures var outcomes := Answered(slots);
            && (forall s :: s in outcomes ==> Kept(s))
            && ((exists s :: s in slots && Troubled(s)) <==>
                  exists s :: s in outcomes && Kept(s) && s.extraction.verification.VerifierUnavailable?)
            && ((exists s :: s in slots && Rejected(s)) <==>
                  (exists s :: s in slots && Rejected(s) && !AnsweredInvalid(s)) || exists s :: s in outcomes && AnsweredInvalid(s))
            && ((exists s :: s in slots && ResolutionTroubled(s)) <==> exists s :: s in outcomes && ResolutionTroubled(s))
            && ((exists s :: s in slots && Unidentified(s)) <==> exists s :: s in outcomes && Unidentified(s))
            && Successes(outcomes) == Successes(slots)
  {
    AnsweredCovers(slots);
    forall s | s in slots && (Troubled(s) || ResolutionTroubled(s) || Unidentified(s) || AnsweredInvalid(s)) ensures s in Answered(slots) {
    }
  }

  /** The union of what the credentials grant, one accumulator per axis. */
  method MergeAuthorization(successes: seq<Success>) returns (merged: Snapshot)
    ensures merged == Grants(successes)
  {
    var scopes, roles, capabilities: set<string> := {}, {}, {};
    var tenantRoles: map<string, set<string>> := map[];
    var tenantIds: set<string> := {};
    var resources: set<Permission> := {};
    var attributes: map<string, string> := map[];
    for i := 0 to |successes|
      invariant Snapshot(scopes, roles, capabilities, tenantRoles, tenantIds, resources, attributes) == Grants(successes[..i])
    {
      var grants := successes[i].grants;
      assert successes[..i + 1][..i] == successes[..i];
      scopes := scopes + grants.scopes;
      roles := roles + grants.roles;
      capabilities := capabilities + grants.capabilities;
      tenantRoles := MergeTenants(tenantRoles, grants.tenantRoles);
      tenantIds := tenantIds + grants.tenantIds;
      resources := resources + grants.resources;
      attributes := attributes + grants.attributes;
    }
    assert successes[..|successes|] == successes;
    merged := Snapshot(scopes, roles, capabilities, tenantRoles, tenantIds, resources, attributes);
  }

  /** The application's answer, or the merged grants, narrowed by every credential's bounds. */
  method AuthorizePhase(id: string, successes: seq<Success>, resolver: Resolver) returns (verdict: Verdict)
    ensures verdict == Authorize(id, successes, resolver)
  {
    var snapshot: Snapshot;
    if resolver.None? {
      snapshot := MergeAuthorization(successes);
    } else {
      var answer := resolver.value(id);
      if answer.Trouble? {
        return Unavailable;
      }
      if answer.Refused? {
        return Unauthorized;
      }
      snapshot := answer.snapshot;
    }
    var authorization := ResolveAuthorization(snapshot, AllRestrictions(successes));
    verdict := Admitted(id, successes, authorization);
  }

  /** Test the plan and resolve the authorization of what succeeded. */
  method Settle(plan: Plan, participants: set<string>, resolved: seq<Success>, resolver: Resolver) returns (verdict: Verdict)
    requires SamePrincipal(resolved)
    ensures verdict ==
            if !Passes(plan, participants, SuccessNames(resolved)) then
              if plan.alternatives != [] && plan.allowAnonymous && resolved == [] then AnonymousAccess else Unauthorized
            else if resolved == [] then AnonymousAccess
            else Authorize(resolved[0].id, resolved, resolver)
  {
    var successful := SuccessNames(resolved);
    if plan.alternatives != [] {
      if !Satisfied(plan.alternatives, successful) {
        return if plan.allowAnonymous && resolved == [] then AnonymousAccess else Unauthorized;
      }
    } else if plan.required && participants * successful == {} {
      return Unauthorized;
    }
    if resolved == [] {
      return AnonymousAccess;
    }
    verdict := AuthorizePhase(resolved[0].id, resolved, resolver);
  }

  /** The whole evaluator. */
  method EvaluateRequest(plan: Plan, participants: set<string>, slots: seq<Slot>,
                         resolver: Resolver) returns (verdict: Verdict)
    ensures verdict == Evaluate(plan, participants, slots, resolver)
  {
    if !plan.authenticate {
      return AnonymousAccess;
    }
    var lost := ExtractPhase(slots);
    if lost {
      var s :| s in slots && s.extraction.SlotRaised?;
      assert Troubled(s);
      return Unavailable;
    }
    var raised, outcomes, invalid := AuthenticatePhase(slots);
    if raised {
      var s :| s in slots && RaisedBy(s);
      assert Troubled(s);
      return Unavailable;
    }
    OutcomesTellAll(slots);
    if exists s | s in outcomes :: s.extraction.verification.VerifierUnavailable? {
      return Unavailable;
    }
    if invalid || exists s | s in outcomes :: AnsweredInvalid(s) {
      return Unauthorized;
    }
    forall s | s in outcomes ensures s.extraction.verification.Verified? {}
    var failed, resolved, failure := ResolvePhase(outcomes);
    if failed {
      return Unavailable;
    }
    if failure.Some? {
      return failure.value;
    }
    if exists i :: 0 <= i < |resolved| && resolved[i].id != resolved[0].id {
      return Unauthorized;
    }
    verdict := Settle(plan, participants, resolved, resolver);
  }
}
