/**
 The compiler with its two tables: plans by policy, and one object per distinct plan, so
 that routes may compare plans by identity.
 */
module PolicyCompiler {
  import opened Prelude
  import opened PolicySpec

  class PlanObject {
    const plan: Plan

    constructor (plan: Plan)
      ensures this.plan == plan
    {
      this.plan := plan;
    }
  }

  type CacheKey = (Policy, Option<bool>)

  class Compiler {
    const registry: Registry
    const cap: int
    var cache: map<CacheKey, PlanObject>
    var canonical: map<Plan, PlanObject>

    /** Cached objects are canonical and hold what direct compilation gives. */
    ghost predicate Valid()
      reads this
    {
      && (forall plan :: plan in canonical ==> canonical[plan].plan == plan)
      && (forall key :: key in cache ==>
            && Compile(registry, cap, key.0, key.1) == Ok(cache[key].plan)
            && cache[key].plan in canonical && canonical[cache[key].plan] == cache[key])
    }

    constructor (registry: Registry, cap: int)
      ensures Valid() && this.registry == registry && this.cap == cap && cache == map[] && canonical == map[]
    {
      this.registry, this.cap := registry, cap;
      cache, canonical := map[], map[];
    }

    /** Objects handed out earlier stay the canonical ones. */
    twostate predicate Keeps()
      reads this
    {
      forall plan :: plan in old(canonical) ==> plan in canonical && canonical[plan] == old(canonical)[plan]
    }

    method CompilePolicy(policy: Policy, csrf: Option<bool>) returns (r: Result<PlanObject>)
      requires Valid()
      modifies this
      ensures Valid() && Keeps()
      ensures r.Ok? <==> Compile(registry, cap, policy, csrf).Ok?
      ensures r.Ok? ==>
                && Compile(registry, cap, policy, csrf) == Ok(r.value.plan)
                && r.value.plan in canonical && canonical[r.value.plan] == r.value
      ensures r.Misconfigured? ==> cache == old(cache) && canonical == old(canonical)
    {
      var key := (policy, csrf);
      if key in cache {
        return Ok(cache[key]);
      }
      var compiled := Compile(registry, cap, policy, csrf);
      if compiled.Misconfigured? {
        return Misconfigured;
      }
      var plan := compiled.value;
      if plan !in canonical {
        var created := new PlanObject(plan);
        canonical := canonical[plan := created];
      }
      cache := cache[key := canonical[plan]];
      r := Ok(canonical[plan]);
    }
  }

  /** Two compilations give one object exactly when their plans are equal. */
  method SameObjectForEqualPlans(c: Compiler, p: Policy, csrf: Option<bool>, q: Policy, csrf': Option<bool>)
    returns (first: Result<PlanObject>, second: Result<PlanObject>)
    requires c.Valid()
    modifies c
    ensures c.Valid()
    ensures first.Ok? && second.Ok? ==>
              (first.value == second.value <==> Compile(c.registry, c.cap, p, csrf) == Compile(c.registry, c.cap, q, csrf'))
  {
    first := c.CompilePolicy(p, csrf);
    label between:
    second := c.CompilePolicy(q, csrf');
    assert first.Ok? ==> c.Keeps@between() && first.value.plan in c.canonical && c.canonical[first.value.plan] == first.value;
  }
}
