/**
 What an admitted caller may do, entry by entry: what its credentials, or the application,
 grant and what every one of its credentials allows.
 */
module AdmittedGrants {
  import opened Prelude
  import opened PolicySpec
  import opened Authorization
  import opened Evaluator

  /** The axes of an authorization that are plain sets of names. */
  datatype Axis = Scopes | Roles | Capabilities | TenantIds

  function Listed(axis: Axis, s: Snapshot): set<string> {
    match axis
    case Scopes => s.scopes
    case Roles => s.roles
    case Capabilities => s.capabilities
    case TenantIds => s.tenantIds
  }

  function BoundOn(axis: Axis, r: Restrictions): Option<set<string>> {
    match axis
    case Scopes => r.scopes
    case Roles => r.roles
    case Capabilities => r.capabilities
    case TenantIds => r.tenantIds
  }

  // ------------------------------------------------------------------ the merged grants

  lemma {:induction false} ListedExactly(ss: seq<Success>, axis: Axis, x: string)
    ensures x in Listed(axis, Grants(ss)) <==> exists i :: 0 <= i < |ss| && x in Listed(axis, ss[i].grants)
  {
    if ss != [] {
      var n := |ss| - 1;
      ListedExactly(ss[..n], axis, x);
      assert forall i :: 0 <= i < n ==> ss[..n][i] == ss[i];
      assert x in Listed(axis, Grants(ss)) <==> x in Listed(axis, Grants(ss[..n])) || x in Listed(axis, ss[n].grants);
    }
  }

  /** The credential grants the role in the tenant. */
  predicate GivesRole(grants: Snapshot, tenant: string, role: string) {
    tenant in grants.tenantRoles && role in grants.tenantRoles[tenant]
  }

  lemma {:induction false} TenantsExactly(ss: seq<Success>, tenant: string)
    ensures tenant in Grants(ss).tenantRoles <==> exists i :: 0 <= i < |ss| && tenant in ss[i].grants.tenantRoles
  {
    if ss != [] {
      var n := |ss| - 1;
      TenantsExactly(ss[..n], tenant);
      assert forall i :: 0 <= i < n ==> ss[..n][i] == ss[i];
    }
  }

  lemma MergedRoles(a: Snapshot, b: Snapshot, tenant: string, role: string)
    ensures GivesRole(MergeGrants(a, b), tenant, role) <==> GivesRole(a, tenant, role) || GivesRole(b, tenant, role)
  {
  }

  lemma {:induction false} TenantRolesExactly(ss: seq<Success>, tenant: string, role: string)
    ensures GivesRole(Grants(ss), tenant, role) <==> exists i :: 0 <= i < |ss| && GivesRole(ss[i].grants, tenant, role)
  {
    if ss != [] {
      var n := |ss| - 1;
      TenantRolesExactly(ss[..n], tenant, role);
      assert forall i :: 0 <= i < n ==> ss[..n][i] == ss[i];
      MergedRoles(Grants(ss[..n]), ss[n].grants, tenant, role);
    }
  }

  lemma {:induction false} ResourcesExactly(ss: seq<Success>, p: Permission)
    ensures p in Grants(ss).resources <==> exists i :: 0 <= i < |ss| && p in ss[i].grants.resources
  {
    if ss != [] {
      var n := |ss| - 1;
      ResourcesExactly(ss[..n], p);
      assert forall i :: 0 <= i < n ==> ss[..n][i] == ss[i];
      assert p in Grants(ss).resources <==> p in Grants(ss[..n]).resources || p in ss[n].grants.resources;
    }
  }

  /** The last credential that sets the attribute sets it to this value. */
  ghost predicate LastSets(ss: seq<Success>, key: string, value: string) {
    exists i :: 0 <= i < |ss| && key in ss[i].grants.attributes && ss[i].grants.attributes[key] == value
                && forall j :: i < j < |ss| ==> key !in ss[j].grants.attributes
  }

  lemma {:induction false} AttributesExactly(ss: seq<Success>, key: string, value: string)
    ensures key in Grants(ss).attributes && Grants(ss).attributes[key] == value <==> LastSets(ss, key, value)
  {
    if ss != [] {
      var n := |ss| - 1;
      var before := ss[..n];
      AttributesExactly(before, key, value);
      assert forall i :: 0 <= i < n ==> before[i] == ss[i];
      if key in ss[n].grants.attributes {
        assert LastSets(ss, key, value) <==> ss[n].grants.attributes[key] == value;
      } else {
        assert LastSets(before, key, value) ==> LastSets(ss, key, value);
        assert LastSets(ss, key, value) ==> LastSets(before, key, value);
      }
    }
  }

  /**
   Without an application resolver the credentials' grants are united, axis by axis and
   tenant by tenant; of attributes the last credential that sets one decides.
   */
  lemma GrantsAreUnited(ss: seq<Success>)
    ensures forall axis, x :: x in Listed(axis, Grants(ss)) <==> exists i :: 0 <= i < |ss| && x in Listed(axis, ss[i].grants)
    ensures forall t :: t in Grants(ss).tenantRoles <==> exists i :: 0 <= i < |ss| && t in ss[i].grants.tenantRoles
    ensures forall t, x :: GivesRole(Grants(ss), t, x) <==> exists i :: 0 <= i < |ss| && GivesRole(ss[i].grants, t, x)
    ensures forall p :: p in Grants(ss).resources <==> exists i :: 0 <= i < |ss| && p in ss[i].grants.resources
    ensures forall k, v :: k in Grants(ss).attributes && Grants(ss).attributes[k] == v <==> LastSets(ss, k, v)
  {
    forall axis, x ensures x in Listed(axis, Grants(ss)) <==> exists i :: 0 <= i < |ss| && x in Listed(axis, ss[i].grants) {
      ListedExactly(ss, axis, x);
    }
    forall t ensures t in Grants(ss).tenantRoles <==> exists i :: 0 <= i < |ss| && t in ss[i].grants.tenantRoles {
      TenantsExactly(ss, t);
    }
    forall t, x ensures GivesRole(Grants(ss), t, x) <==> exists i :: 0 <= i < |ss| && GivesRole(ss[i].grants, t, x) {
      TenantRolesExactly(ss, t, x);
    }
    forall p ensures p in Grants(ss).resources <==> exists i :: 0 <= i < |ss| && p in ss[i].grants.resources {
      ResourcesExactly(ss, p);
    }
    forall k, v ensures k in Grants(ss).attributes && Grants(ss).attributes[k] == v <==> LastSets(ss, k, v) {
      AttributesExactly(ss, k, v);
    }
  }

  // ------------------------------------------------------------- the admitted authorization

  /** What a slot's credential grants, and how it is bounded. */
  function GrantsOf(s: Slot): Snapshot
    requires Succeeded(s)
  {
    s.extraction.verification.grants
  }

  function BoundsOf(s: Slot): Restrictions
    requires Succeeded(s)
  {
    s.extraction.verification.restrictions
  }

  /** Some credential grants it; or the application does, when it has a resolver. */
  ghost predicate Gives(slots: seq<Slot>, resolver: Resolver, id: string, axis: Axis, x: string) {
    if resolver.None? then exists s :: s in slots && Succeeded(s) && x in Listed(axis, GrantsOf(s))
    else resolver.value(id).Loaded? && x in Listed(axis, resolver.value(id).snapshot)
  }

  /** Every credential that is bounded on the axis lists it. */
  ghost predicate Allows(slots: seq<Slot>, axis: Axis, x: string) {
    forall s :: s in slots && Succeeded(s) && BoundOn(axis, BoundsOf(s)).Some? ==> x in BoundOn(axis, BoundsOf(s)).value
  }

  ghost predicate GivesTenantRole(slots: seq<Slot>, resolver: Resolver, id: string, tenant: string, role: string) {
    if resolver.None? then exists s :: s in slots && Succeeded(s) && GivesRole(GrantsOf(s), tenant, role)
    else resolver.value(id).Loaded? && GivesRole(resolver.value(id).snapshot, tenant, role)
  }

  lemma SlotBehind(slots: seq<Slot>, i: nat) returns (s: Slot)
    requires i < |Successes(slots)|
    ensures s in slots && Succeeded(s) && SuccessOf(s) == Successes(slots)[i]
  {
    SuccessesCover(slots);
    assert Successes(slots)[i] in Successes(slots);
    var k :| 0 <= k < |slots| && Succeeded(slots[k]) && SuccessOf(slots[k]) == Successes(slots)[i];
    s := slots[k];
  }

  lemma SuccessBehind(slots: seq<Slot>, s: Slot) returns (i: nat)
    requires s in slots && Succeeded(s)
    ensures i < |Successes(slots)| && SuccessOf(s) == Successes(slots)[i]
  {
    SuccessesCover(slots);
    var k :| 0 <= k < |slots| && slots[k] == s;
    assert SuccessOf(slots[k]) in Successes(slots);
    i :| 0 <= i < |Successes(slots)| && Successes(slots)[i] == SuccessOf(s);
  }

  lemma SlotsGive(slots: seq<Slot>, axis: Axis, x: string)
    ensures (exists i :: 0 <= i < |Successes(slots)| && x in Listed(axis, Successes(slots)[i].grants))
            <==> exists s :: s in slots && Succeeded(s) && x in Listed(axis, GrantsOf(s))
  {
    var ss := Successes(slots);
    if given: nat :| given < |ss| && x in Listed(axis, ss[given].grants) {
      var s := SlotBehind(slots, given);
      assert x in Listed(axis, GrantsOf(s));
    }
    if s :| s in slots && Succeeded(s) && x in Listed(axis, GrantsOf(s)) {
      var i := SuccessBehind(slots, s);
      assert x in Listed(axis, ss[i].grants);
    }
  }

  lemma SlotsGiveRole(slots: seq<Slot>, tenant: string, role: string)
    ensures (exists i :: 0 <= i < |Successes(slots)| && GivesRole(Successes(slots)[i].grants, tenant, role))
            <==> exists s :: s in slots && Succeeded(s) && GivesRole(GrantsOf(s), tenant, role)
  {
    var ss := Successes(slots);
    if given: nat :| given < |ss| && GivesRole(ss[given].grants, tenant, role) {
      var s := SlotBehind(slots, given);
      assert GivesRole(GrantsOf(s), tenant, role);
    }
    if s :| s in slots && Succeeded(s) && GivesRole(GrantsOf(s), tenant, role) {
      var i := SuccessBehind(slots, s);
      assert GivesRole(ss[i].grants, tenant, role);
    }
  }

  ghost predicate AllowedOn(axis: Axis, rs: seq<Restrictions>, x: string) {
    forall i :: 0 <= i < |rs| && BoundOn(axis, rs[i]).Some? ==> x in BoundOn(axis, rs[i]).value
  }

  lemma SlotsAllow(slots: seq<Slot>, axis: Axis, x: string)
    ensures AllowedOn(axis, AllRestrictions(Successes(slots)), x) <==> Allows(slots, axis, x)
  {
    var ss := Successes(slots);
    if Allows(slots, axis, x) {
      forall i | 0 <= i < |ss| && BoundOn(axis, AllRestrictions(ss)[i]).Some? ensures x in BoundOn(axis, AllRestrictions(ss)[i]).value {
        var s := SlotBehind(slots, i);
        assert AllRestrictions(ss)[i] == BoundsOf(s);
      }
    } else {
      var s :| s in slots && Succeeded(s) && BoundOn(axis, BoundsOf(s)).Some? && x !in BoundOn(axis, BoundsOf(s)).value;
      var i := SuccessBehind(slots, s);
      assert AllRestrictions(ss)[i] == BoundsOf(s);
    }
  }

  /** The closed form of resolution on the plain axes. */
  lemma ResolvedOn(axis: Axis, s: Snapshot, rs: seq<Restrictions>, x: string)
    ensures x in Listed(axis, Resolve(s, rs)) <==> x in Listed(axis, s) && AllowedOn(axis, rs, x)
  {
    ResolveIsClosedForm(s, rs);
  }

  lemma ResolvedRole(s: Snapshot, rs: seq<Restrictions>, tenant: string, role: string)
    ensures GivesRole(Resolve(s, rs), tenant, role)
            <==> GivesRole(s, tenant, role) && AllowedOn(TenantIds, rs, tenant) && AllowedOn(Roles, rs, role)
  {
    ResolveIsClosedForm(s, rs);
    if GivesRole(s, tenant, role) && RoleAllowed(rs, role) {
      assert role in AllowedRoles(rs, s.tenantRoles[tenant]);
    }
  }

  /** An admitted verdict holds the principal of its credentials and the narrowed answer about it. */
  lemma AdmittedIsResolved(plan: Plan, participants: set<string>, slots: seq<Slot>, resolver: Resolver)
    requires Evaluate(plan, participants, slots, resolver).Admitted?
    ensures var v := Evaluate(plan, participants, slots, resolver);
            && v.successes == Successes(slots) && AnswerFor(v.id, v.successes, resolver).Loaded?
            && v.context == Resolve(AnswerFor(v.id, v.successes, resolver).snapshot, AllRestrictions(v.successes))
  {
  }

  /**
   Whoever is admitted holds a scope, a role, a capability or a tenant exactly if some
   credential grants it, or the application does when it resolves authorization itself, and
   every credential bounded there lists it; and a role in a tenant exactly if it is granted
   there, every tenant bound lists the tenant and every role bound the role.
   */
  lemma AdmittedHoldsExactly(plan: Plan, participants: set<string>, slots: seq<Slot>, resolver: Resolver)
    requires Evaluate(plan, participants, slots, resolver).Admitted?
    ensures var v := Evaluate(plan, participants, slots, resolver);
            && (forall axis, x :: x in Listed(axis, v.context) <==> Gives(slots, resolver, v.id, axis, x) && Allows(slots, axis, x))
            && (forall tenant, role :: GivesRole(v.context, tenant, role) <==>
                  && GivesTenantRole(slots, resolver, v.id, tenant, role)
                  && Allows(slots, TenantIds, tenant) && Allows(slots, Roles, role))
  {
    var v := Evaluate(plan, participants, slots, resolver);
    AdmittedIsResolved(plan, participants, slots, resolver);
    var source, rs := AnswerFor(v.id, v.successes, resolver).snapshot, AllRestrictions(v.successes);
    forall axis, x
      ensures x in Listed(axis, v.context) <==> Gives(slots, resolver, v.id, axis, x) && Allows(slots, axis, x)
    {
      ResolvedOn(axis, source, rs, x);
      SlotsAllow(slots, axis, x);
      SlotsGive(slots, axis, x);
      ListedExactly(v.successes, axis, x);
    }
    forall tenant, role
      ensures GivesRole(v.context, tenant, role) <==>
              GivesTenantRole(slots, resolver, v.id, tenant, role) && Allows(slots, TenantIds, tenant) && Allows(slots, Roles, role)
    {
      ResolvedRole(source, rs, tenant, role);
      SlotsAllow(slots, TenantIds, tenant);
      SlotsAllow(slots, Roles, role);
      SlotsGiveRole(slots, tenant, role);
      TenantRolesExactly(v.successes, tenant, role);
    }
  }

  /**
   It holds a resource permission exactly if one is given for the resource, every resource
   bound knows the resource, and the scopes are those every such bound lists; and it holds
   the attributes it is given.
   */
  lemma AdmittedResourcesExactly(plan: Plan, participants: set<string>, slots: seq<Slot>, resolver: Resolver)
    requires Evaluate(plan, participants, slots, resolver).Admitted?
    ensures var v := Evaluate(plan, participants, slots, resolver);
            var source, rs := AnswerFor(v.id, v.successes, resolver), AllRestrictions(v.successes);
            && source.Loaded? && v.context.attributes == source.snapshot.attributes
            && (forall q :: q in v.context.resources <==>
                  exists p :: p in source.snapshot.resources && ResourceAllowed(rs, p.resource)
                              && q == Permission(p.resource, AllowedScopes(rs, p)))
            && (resolver.None? ==>
                  && (forall p :: p in source.snapshot.resources <==>
                        exists i :: 0 <= i < |v.successes| && p in v.successes[i].grants.resources)
                  && (forall k, x :: k in source.snapshot.attributes && source.snapshot.attributes[k] == x <==>
                        LastSets(v.successes, k, x)))
  {
    var v := Evaluate(plan, participants, slots, resolver);
    AdmittedIsResolved(plan, participants, slots, resolver);
    ResolveIsClosedForm(AnswerFor(v.id, v.successes, resolver).snapshot, AllRestrictions(v.successes));
    GrantsAreUnited(v.successes);
  }

  // ------------------------------------------------------------ admission, told by the slots

  /** The mechanisms that own a slot whose credential succeeded. */
  function Owners(slots: seq<Slot>): set<string> {
    set s | s in slots && Succeeded(s) :: s.owner.value
  }

  /** The principal a slot's credential was resolved to. */
  function PrincipalOf(s: Slot): string
    requires Succeeded(s)
  {
    s.extraction.verification.resolution.id.value
  }

  ghost predicate OnePrincipal(slots: seq<Slot>) {
    forall s, t :: s in slots && t in slots && Succeeded(s) && Succeeded(t) ==> PrincipalOf(s) == PrincipalOf(t)
  }

  lemma SuccessesTold(slots: seq<Slot>)
    ensures SuccessNames(Successes(slots)) == Owners(slots)
    ensures SamePrincipal(Successes(slots)) <==> OnePrincipal(slots)
  {
    var ss := Successes(slots);
    forall n | n in SuccessNames(ss) ensures n in Owners(slots) {
      var i: nat :| i < |ss| && ss[i].name == n;
      var s := SlotBehind(slots, i);
    }
    forall n | n in Owners(slots) ensures n in SuccessNames(ss) {
      var s :| s in slots && Succeeded(s) && s.owner.value == n;
      var i := SuccessBehind(slots, s);
    }
    if SamePrincipal(ss) {
      forall s, t | s in slots && t in slots && Succeeded(s) && Succeeded(t) ensures PrincipalOf(s) == PrincipalOf(t) {
        var i := SuccessBehind(slots, s);
        var j := SuccessBehind(slots, t);
        assert ss[i].id == ss[0].id && ss[j].id == ss[0].id;
      }
    }
    if OnePrincipal(slots) {
      forall i: nat | i < |ss| ensures ss[i].id == ss[0].id {
        var s := SlotBehind(slots, i);
        var t := SlotBehind(slots, 0);
      }
    }
  }

  /** Every offered credential succeeded. */
  ghost predicate AllGood(slots: seq<Slot>) {
    forall s :: s in slots ==> s.extraction.Absent? || Succeeded(s)
  }

  ghost predicate NothingOffered(slots: seq<Slot>) {
    forall s :: s in slots ==> s.extraction.Absent?
  }

  lemma OffersTold(slots: seq<Slot>)
    ensures AllSucceed(slots) <==> AllGood(slots)
    ensures NothingPresented(slots) <==> NothingOffered(slots)
    ensures AllGood(slots) ==> (Successes(slots) == [] <==> NothingOffered(slots))
  {
    forall i | 0 <= i < |slots| ensures slots[i] in slots {}
    if AllSucceed(slots) {
      NothingSucceedsFromNothing(slots);
    }
  }

  /** Some credential succeeded, and the application, if it resolves authorization, loads one for its principal. */
  ghost predicate SomeLoaded(slots: seq<Slot>, resolver: Resolver) {
    exists s :: s in slots && Succeeded(s) && (resolver.Some? ==> resolver.value(PrincipalOf(s)).Loaded?)
  }

  lemma LoadedTold(slots: seq<Slot>, resolver: Resolver)
    requires OnePrincipal(slots)
    ensures var ss := Successes(slots);
            && (ss != [] && AnswerFor(ss[0].id, ss, resolver).Loaded? <==> SomeLoaded(slots, resolver))
            && forall s :: s in slots && Succeeded(s) ==> ss != [] && ss[0].id == PrincipalOf(s)
  {
    var ss := Successes(slots);
    if ss != [] {
      var s := SlotBehind(slots, 0);
      assert ss[0].id == PrincipalOf(s);
    }
    forall s | s in slots && Succeeded(s) ensures ss != [] && ss[0].id == PrincipalOf(s) {
      var i := SuccessBehind(slots, s);
      var t := SlotBehind(slots, 0);
    }
  }

  /**
   A request is admitted under a policy exactly if some credential is offered, all that are
   succeed, for one principal, the mechanisms that own them satisfy the policy as written,
   and the application, if it resolves authorization, loads one for that principal; the
   verdict then names that principal.
   */
  lemma AdmittedBySlots(registry: Registry, cap: int, p: Policy, csrf: Option<bool>, slots: seq<Slot>, resolver: Resolver)
    requires registry.Valid() && WellFormed(p) && (p.Mechanisms? || p.Optional?)
    requires Compile(registry, cap, p, csrf).Ok?
    ensures var v := Evaluate(Compile(registry, cap, p, csrf).value, {}, slots, resolver);
            && Expression(p).Mechanisms?
            && (v.Admitted? <==>
                  && AllGood(slots) && OnePrincipal(slots) && Holds(registry, Expression(p), Owners(slots))
                  && SomeLoaded(slots, resolver))
            && (v.Admitted? ==> forall s :: s in slots && Succeeded(s) ==> v.id == PrincipalOf(s))
  {
    AdmissionFollowsPolicy(registry, cap, p, csrf, slots, resolver);
    SuccessesTold(slots);
    OffersTold(slots);
    if OnePrincipal(slots) {
      LoadedTold(slots, resolver);
    }
  }

  /**
   The same for a request evaluated against a list of participants rather than a compiled
   policy: some owner must be a participant if authentication is required, and a request that
   offers nothing passes anonymously if it is not.
   */
  lemma AdmittedByParticipants(required: bool, participants: set<string>, slots: seq<Slot>, resolver: Resolver)
    ensures var v := Evaluate(Plan(true, false, required, [], false, None), participants, slots, resolver);
            && (v.Admitted? <==>
                  && AllGood(slots) && OnePrincipal(slots) && (required ==> participants * Owners(slots) != {})
                  && SomeLoaded(slots, resolver))
            && (v.AnonymousAccess? <==> !required && NothingOffered(slots))
  {
    VerdictByOutcomes(Plan(true, false, required, [], false, None), participants, slots, resolver);
    SuccessesTold(slots);
    OffersTold(slots);
    assert Successes(slots) == [] ==> SuccessNames(Successes(slots)) == {};
    if OnePrincipal(slots) {
      LoadedTold(slots, resolver);
    }
  }
}
