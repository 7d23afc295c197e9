/**
 Route policies, their compilation to alternatives (a list of conjunctions), and the
 proof that the alternatives mean what the policy says.
 */
module PolicySpec {
  import opened Prelude

  datatype Result<+T> = Ok(value: T) | Misconfigured

  datatype Requirement = Requirement(name: string, scopes: seq<string>)

  datatype Operator = AnyOf | AllOf | AtLeast

  datatype Policy =
    | Public
    | Exclude
    | Optional(policy: Policy)
    | Mechanisms(operator: Operator, requirements: seq<Requirement>, count: int, implicit: bool)

  /** `alternatives` is a disjunction of conjunctions of requirements. */
  datatype Plan = Plan(
    authenticate: bool,
    bypass: bool,
    required: bool,
    alternatives: seq<seq<Requirement>>,
    allowAnonymous: bool,
    csrf: Option<bool>)

  datatype Registry = Registry(names: seq<string>, defaults: seq<string>) {
    // Established by the registry's constructor.
    ghost predicate Valid() {
      && Distinct(names) && Distinct(defaults)
      && forall n :: n in defaults ==> n in names
    }
  }

  function Names(rs: seq<Requirement>): seq<string> {
    seq(|rs|, i requires 0 <= i < |rs| => rs[i].name)
  }

  // ------------------------------------------------------------------ constructors

  function NormalizeRequirements(rs: seq<Requirement>): Result<seq<Requirement>> {
    if rs == [] || !Distinct(Names(rs)) then Misconfigured else Ok(rs)
  }

  function AnyOfPolicy(rs: seq<Requirement>): Result<Policy> {
    if NormalizeRequirements(rs).Misconfigured? then Misconfigured else Ok(Mechanisms(AnyOf, rs, 0, false))
  }

  function AllOfPolicy(rs: seq<Requirement>): Result<Policy> {
    if NormalizeRequirements(rs).Misconfigured? then Misconfigured else Ok(Mechanisms(AllOf, rs, 0, false))
  }

  function AtLeastPolicy(count: int, rs: seq<Requirement>): Result<Policy> {
    if NormalizeRequirements(rs).Misconfigured? || !(1 <= count <= |rs|) then Misconfigured
    else Ok(Mechanisms(AtLeast, rs, count, false))
  }

  function RequiredPolicy(rs: seq<Requirement>): Result<Policy> {
    if rs == [] then Ok(Mechanisms(AnyOf, [], 0, true)) else AnyOfPolicy(rs)
  }

  function OptionalPolicy(p: Policy): Result<Policy> {
    if p.Optional? || p.Public? then Misconfigured else Ok(Optional(p))
  }

  /** Exactly the policies the constructors can build. */
  predicate WellFormed(p: Policy) {
    match p
    case Public => true
    case Exclude => true
    case Optional(q) => (q.Exclude? || q.Mechanisms?) && WellFormed(q)
    case Mechanisms(op, rs, count, implicit) =>
      if implicit then op.AnyOf? && rs == [] && count == 0
      else rs != [] && Distinct(Names(rs)) && (if op.AtLeast? then 1 <= count <= |rs| else count == 0)
  }

  /** The policy is the result of some sequence of constructor calls. */
  ghost predicate Constructible(p: Policy) {
    match p
    case Public => true
    case Exclude => true
    case Optional(q) => Constructible(q) && OptionalPolicy(q) == Ok(p)
    case Mechanisms(_, _, _, _) => exists count, rs :: BuiltFrom(p, count, rs)
  }

  predicate BuiltFrom(p: Policy, count: int, rs: seq<Requirement>) {
    Ok(p) in {AnyOfPolicy(rs), AllOfPolicy(rs), AtLeastPolicy(count, rs), RequiredPolicy(rs)}
  }

  lemma {:induction false} ConstructorsBuildExactly(p: Policy)
    ensures Constructible(p) <==> WellFormed(p)
  {
    match p
    case Public =>
    case Exclude =>
    case Optional(q) => ConstructorsBuildExactly(q);
    case Mechanisms(_, rs, count, _) => assert WellFormed(p) ==> BuiltFrom(p, count, rs);
  }

  // ------------------------------------------------------------------- compilation

  /** The k-element sub-lists, in lexicographic order of positions (itertools.combinations). */
  function Combinations<T>(xs: seq<T>, k: nat): seq<seq<T>>
    decreases |xs|
  {
    if k == 0 then [[]]
    else if xs == [] then []
    else Prepend(xs[0], Combinations(xs[1..], k - 1)) + Combinations(xs[1..], k)
  }

  function Prepend<T>(x: T, lists: seq<seq<T>>): (r: seq<seq<T>>)
    ensures |r| == |lists| && forall i :: 0 <= i < |lists| ==> r[i] == [x] + lists[i]
  {
    seq(|lists|, i requires 0 <= i < |lists| => [x] + lists[i])
  }

  /** Pascal's rule, the meaning of math.comb. */
  function Binomial(n: nat, k: nat): nat {
    if k == 0 then 1 else if n == 0 then 0 else Binomial(n - 1, k - 1) + Binomial(n - 1, k)
  }

  /** The requirement with this name; requirement names are distinct. */
  function Lookup(rs: seq<Requirement>, name: string): Option<Requirement> {
    if rs == [] then None
    else if rs[0].name == name then Some(rs[0])
    else Lookup(rs[1..], name)
  }

  /** The policy's requirements in registry order. */
  function InRegistryOrder(names: seq<string>, rs: seq<Requirement>): seq<Requirement> {
    if names == [] then []
    else
      var rest := InRegistryOrder(names[1..], rs);
      var found := Lookup(rs, names[0]);
      if found.Some? then [found.value] + rest else rest
  }

  function Unscoped(names: seq<string>): seq<Requirement> {
    seq(|names|, i requires 0 <= i < |names| => Requirement(names[i], []))
  }

  function Requirements(registry: Registry, p: Policy): Result<seq<Requirement>>
    requires p.Mechanisms?
  {
    if p.implicit then
      if registry.defaults == [] then Misconfigured else Ok(Unscoped(registry.defaults))
    else if exists i :: 0 <= i < |p.requirements| && p.requirements[i].name !in registry.names then Misconfigured
    else Ok(InRegistryOrder(registry.names, p.requirements))
  }

  function Singletons(rs: seq<Requirement>): seq<seq<Requirement>> {
    seq(|rs|, i requires 0 <= i < |rs| => [rs[i]])
  }

  function CompileExpression(registry: Registry, cap: int, p: Policy, anonymous: bool, csrf: Option<bool>): Result<Plan> {
    if !p.Mechanisms? then Misconfigured
    else
      var requirements := Requirements(registry, p);
      if requirements.Misconfigured? then Misconfigured
      else
        var rs := requirements.value;
        match p.operator
        case AnyOf => Ok(Plan(true, false, !anonymous, Singletons(rs), anonymous, csrf))
        case AllOf => Ok(Plan(true, false, !anonymous, [rs], anonymous, csrf))
        case AtLeast =>
          if p.count < 0 || cap < Binomial(|rs|, p.count) then Misconfigured
          else Ok(Plan(true, false, !anonymous, Combinations(rs, p.count), anonymous, csrf))
  }

  function Compile(registry: Registry, cap: int, p: Policy, csrf: Option<bool>): Result<Plan> {
    match p
    case Public => Ok(Plan(false, false, false, [], false, csrf))
    case Exclude => Ok(Plan(false, true, false, [], false, csrf))
    case Optional(q) => CompileExpression(registry, cap, q, true, csrf)
    case Mechanisms(_, _, _, _) => CompileExpression(registry, cap, p, false, csrf)
  }

  // ----------------------------------------------------------------------- meaning

  function Elements<T>(s: seq<T>): set<T> {
    set x | x in s
  }

  /** The mechanisms a policy speaks about. */
  function Participants(registry: Registry, p: Policy): set<string>
    requires p.Mechanisms?
  {
    Elements(if p.implicit then registry.defaults else Names(p.requirements))
  }

  /** What the policy asks of the set of mechanisms that succeeded. */
  ghost predicate Holds(registry: Registry, p: Policy, succeeded: set<string>)
    requires p.Mechanisms?
  {
    match p.operator
    case AnyOf => Participants(registry, p) * succeeded != {}
    case AllOf => Participants(registry, p) <= succeeded
    case AtLeast => |Participants(registry, p) * succeeded| >= p.count
  }

  predicate AlternativeHolds(alternative: seq<Requirement>, succeeded: set<string>) {
    forall i :: 0 <= i < |alternative| ==> alternative[i].name in succeeded
  }

  /** The evaluator's test on a compiled plan. */
  predicate Satisfied(alternatives: seq<seq<Requirement>>, succeeded: set<string>) {
    exists i :: 0 <= i < |alternatives| && AlternativeHolds(alternatives[i], succeeded)
  }

  // -------------------------------------------------------- counting and combinations

  lemma {:induction false} BinomialCountsCombinations<T>(xs: seq<T>, k: nat)
    ensures |Combinations(xs, k)| == Binomial(|xs|, k)
    decreases |xs|
  {
    if k > 0 && xs != [] {
      BinomialCountsCombinations(xs[1..], k - 1);
      BinomialCountsCombinations(xs[1..], k);
    }
  }

  /** How many requirements of the list succeeded. */
  function Hits(rs: seq<Requirement>, succeeded: set<string>): nat {
    if rs == [] then 0 else (if rs[0].name in succeeded then 1 else 0) + Hits(rs[1..], succeeded)
  }

  lemma {:induction false} SatisfiedByEither(a: seq<seq<Requirement>>, b: seq<seq<Requirement>>, succeeded: set<string>)
    ensures Satisfied(a + b, succeeded) <==> Satisfied(a, succeeded) || Satisfied(b, succeeded)
  {
    if i :| 0 <= i < |a| && AlternativeHolds(a[i], succeeded) {
      assert (a + b)[i] == a[i];
    }
    if i :| 0 <= i < |b| && AlternativeHolds(b[i], succeeded) {
      assert (a + b)[|a| + i] == b[i];
    }
  }

  lemma {:induction false} HeadAndTail(x: Requirement, rest: seq<Requirement>, succeeded: set<string>)
    ensures AlternativeHolds([x] + rest, succeeded) <==> x.name in succeeded && AlternativeHolds(rest, succeeded)
  {
    assert forall j :: 0 <= j < |rest| ==> ([x] + rest)[j + 1] == rest[j];
    assert ([x] + rest)[0] == x;
  }

  lemma {:induction false} SatisfiedWithHead(x: Requirement, lists: seq<seq<Requirement>>, succeeded: set<string>)
    ensures Satisfied(Prepend(x, lists), succeeded) <==> x.name in succeeded && Satisfied(lists, succeeded)
  {
    var all := Prepend(x, lists);
    forall i | 0 <= i < |lists|
      ensures AlternativeHolds(all[i], succeeded) <==> x.name in succeeded && AlternativeHolds(lists[i], succeeded)
    {
      HeadAndTail(x, lists[i], succeeded);
    }
  }

  /** Some k-combination succeeds entirely exactly when at least k elements succeed. */
  lemma {:induction false} CombinationsMeanAtLeast(rs: seq<Requirement>, k: nat, succeeded: set<string>)
    ensures Satisfied(Combinations(rs, k), succeeded) <==> Hits(rs, succeeded) >= k
    decreases |rs|
  {
    if k == 0 {
      assert AlternativeHolds(Combinations(rs, 0)[0], succeeded);
    } else if rs != [] {
      CombinationsMeanAtLeast(rs[1..], k, succeeded);
      CombinationsMeanAtLeast(rs[1..], k - 1, succeeded);
      SatisfiedWithHead(rs[0], Combinations(rs[1..], k - 1), succeeded);
      SatisfiedByEither(Prepend(rs[0], Combinations(rs[1..], k - 1)), Combinations(rs[1..], k), succeeded);
    }
  }

  lemma {:induction false} NamesSplit(rs: seq<Requirement>)
    requires rs != []
    ensures Names(rs) == [rs[0].name] + Names(rs[1..])
    ensures Elements(Names(rs)) == {rs[0].name} + Elements(Names(rs[1..]))
    ensures Distinct(Names(rs)) ==> Distinct(Names(rs[1..])) && rs[0].name !in Elements(Names(rs[1..]))
  {
    var all, rest := Names(rs), Names(rs[1..]);
    assert all == [rs[0].name] + rest && all[0] == rs[0].name;
    assert forall i :: 0 <= i < |rest| ==> rest[i] == all[i + 1];
  }

  lemma OneMoreHit(rest: set<string>, name: string, succeeded: set<string>)
    requires name !in rest
    ensures |({name} + rest) * succeeded| == |rest * succeeded| + if name in succeeded then 1 else 0
  {
    var more := if name in succeeded then {name} else {};
    assert ({name} + rest) * succeeded == more + rest * succeeded;
    assert more !! rest * succeeded;
  }

  lemma {:induction false} HitsAreTheIntersection(rs: seq<Requirement>, succeeded: set<string>)
    requires Distinct(Names(rs))
    ensures Hits(rs, succeeded) == |Elements(Names(rs)) * succeeded|
  {
    if rs != [] {
      NamesSplit(rs);
      HitsAreTheIntersection(rs[1..], succeeded);
      OneMoreHit(Elements(Names(rs[1..])), rs[0].name, succeeded);
    }
  }

  lemma {:induction false} NameCount(rs: seq<Requirement>)
    requires Distinct(Names(rs))
    ensures |Elements(Names(rs))| == |rs|
  {
    if rs != [] {
      NamesSplit(rs);
      NameCount(rs[1..]);
    }
  }

  // ------------------------------------------------------------- requirement lookup

  lemma {:induction false} LookupFinds(rs: seq<Requirement>, name: string)
    ensures Lookup(rs, name).Some? <==> name in Names(rs)
    ensures Lookup(rs, name).Some? ==> Lookup(rs, name).value in rs && Lookup(rs, name).value.name == name
  {
    if rs != [] {
      NamesSplit(rs);
      LookupFinds(rs[1..], name);
    }
  }

  lemma {:induction false} RegistryOrderNames(names: seq<string>, rs: seq<Requirement>)
    requires Distinct(names)
    ensures var ordered := InRegistryOrder(names, rs);
            && Elements(Names(ordered)) == Elements(names) * Elements(Names(rs))
            && Distinct(Names(ordered))
  {
    if names != [] {
      var rest := InRegistryOrder(names[1..], rs);
      RegistryOrderNames(names[1..], rs);
      LookupFinds(rs, names[0]);
      assert names == [names[0]] + names[1..];
      assert Elements(names) == {names[0]} + Elements(names[1..]);
      assert names[0] !in names[1..];
      if Lookup(rs, names[0]).Some? {
        var ordered := [Lookup(rs, names[0]).value] + rest;
        assert ordered[1..] == rest;
        NamesSplit(ordered);
        assert Names(ordered) == [names[0]] + Names(rest);
        assert names[0] !in Elements(Names(rest));
        assert names[0] !in Names(rest);
      }
    }
  }

  lemma {:induction false} RegistryOrderKeeps(names: seq<string>, rs: seq<Requirement>, r: Requirement)
    requires r in InRegistryOrder(names, rs)
    ensures r in rs
  {
    if names != [] {
      LookupFinds(rs, names[0]);
      if r in InRegistryOrder(names[1..], rs) {
        RegistryOrderKeeps(names[1..], rs, r);
      }
    }
  }

  lemma {:induction false} RequirementsMeanParticipants(registry: Registry, p: Policy)
    requires registry.Valid() && p.Mechanisms? && WellFormed(p) && Requirements(registry, p).Ok?
    ensures var rs := Requirements(registry, p).value;
            && Elements(Names(rs)) == Participants(registry, p)
            && Distinct(Names(rs)) && rs != []
            && (!p.implicit ==> |rs| == |p.requirements|)
            && (!p.implicit ==> forall r :: r in rs ==> r in p.requirements)
  {
    var rs := Requirements(registry, p).value;
    if p.implicit {
      assert Names(rs) == registry.defaults;
    } else {
      RegistryOrderNames(registry.names, p.requirements);
      assert forall n :: n in Names(p.requirements) ==> n in registry.names;
      assert Elements(Names(rs)) == Elements(Names(p.requirements));
      NameCount(rs);
      NameCount(p.requirements);
      forall r | r in rs ensures r in p.requirements {
        RegistryOrderKeeps(registry.names, p.requirements, r);
      }
    }
  }

  lemma {:induction false} RequirementsAreRegistered(registry: Registry, p: Policy)
    requires registry.Valid() && p.Mechanisms? && WellFormed(p) && Requirements(registry, p).Ok?
    ensures forall r :: r in Requirements(registry, p).value ==> r.name in registry.names
  {
    var rs := Requirements(registry, p).value;
    forall r | r in rs ensures r.name in registry.names {
      if p.implicit {
        var i :| 0 <= i < |rs| && rs[i] == r;
        assert registry.defaults[i] == r.name;
      } else {
        RegistryOrderKeeps(registry.names, p.requirements, r);
        var i :| 0 <= i < |p.requirements| && p.requirements[i] == r;
      }
    }
  }

  /** Every requirement in an alternative is one of the policy's, reordered. */
  lemma {:induction false} AlternativesDrawOnRequirements(registry: Registry, cap: int, p: Policy, csrf: Option<bool>)
    requires registry.Valid() && WellFormed(p) && (p.Mechanisms? || p.Optional?)
    requires Compile(registry, cap, p, csrf).Ok?
    ensures Expression(p).Mechanisms? && Requirements(registry, Expression(p)).Ok?
    ensures forall a, r :: a in Compile(registry, cap, p, csrf).value.alternatives && r in a ==>
              r in Requirements(registry, Expression(p)).value
  {
    var q := Expression(p);
    var rs := Requirements(registry, q).value;
    if q.operator.AtLeast? {
      CombinationsAreSublists(rs, q.count);
    }
  }

  // ------------------------------------------------------------------ main results

  lemma {:induction false} AnyOfMeaning(rs: seq<Requirement>, succeeded: set<string>)
    ensures Satisfied(Singletons(rs), succeeded) <==> Elements(Names(rs)) * succeeded != {}
  {
    forall i | 0 <= i < |rs| ensures AlternativeHolds(Singletons(rs)[i], succeeded) <==> Names(rs)[i] in succeeded {
      assert Singletons(rs)[i][0] == rs[i];
    }
    if n :| n in Elements(Names(rs)) * succeeded {
      var i :| 0 <= i < |rs| && Names(rs)[i] == n;
      assert AlternativeHolds(Singletons(rs)[i], succeeded);
    }
    if i :| 0 <= i < |rs| && AlternativeHolds(Singletons(rs)[i], succeeded) {
      assert Names(rs)[i] in Elements(Names(rs)) * succeeded;
    }
  }

  lemma {:induction false} AllOfMeaning(rs: seq<Requirement>, succeeded: set<string>)
    ensures Satisfied([rs], succeeded) <==> Elements(Names(rs)) <= succeeded
  {
    assert [rs][0] == rs;
    assert forall i :: 0 <= i < |rs| ==> Names(rs)[i] == rs[i].name && Names(rs)[i] in Elements(Names(rs));
    if AlternativeHolds(rs, succeeded) {
      forall n | n in Elements(Names(rs)) ensures n in succeeded {
        var i :| 0 <= i < |rs| && Names(rs)[i] == n;
      }
    }
  }

  /** The mechanism expression inside a policy that authenticates. */
  function Expression(p: Policy): Policy {
    if p.Optional? then p.policy else p
  }

  /** The compiled alternatives hold of a success set exactly when the policy does. */
  lemma CompilePreservesMeaning(registry: Registry, cap: int, p: Policy, csrf: Option<bool>, succeeded: set<string>)
    requires registry.Valid() && WellFormed(p) && (p.Mechanisms? || p.Optional?)
    requires Compile(registry, cap, p, csrf).Ok?
    ensures var plan := Compile(registry, cap, p, csrf).value;
            && Expression(p).Mechanisms? && plan.alternatives != []
            && (Satisfied(plan.alternatives, succeeded) <==> Holds(registry, Expression(p), succeeded))
            && plan.authenticate && !plan.bypass
            && plan.allowAnonymous == p.Optional? && plan.required == !p.Optional? && plan.csrf == csrf
  {
    var q := Expression(p);
    var rs := Requirements(registry, q).value;
    RequirementsMeanParticipants(registry, q);
    match q.operator
    case AnyOf => AnyOfMeaning(rs, succeeded);
    case AllOf => AllOfMeaning(rs, succeeded);
    case AtLeast =>
      CombinationsMeanAtLeast(rs, q.count, succeeded);
      HitsAreTheIntersection(rs, succeeded);
      BinomialCountsCombinations(rs, q.count);
      BinomialPositive(|rs|, q.count);
  }

  lemma {:induction false} BinomialPositive(n: nat, k: nat)
    requires k <= n
    ensures Binomial(n, k) >= 1
  {
    if k > 0 {
      BinomialPositive(n - 1, k - 1);
    }
  }

  /** A compiled plan authenticates unless the policy is public or excluded, and only an excluded route bypasses. */
  lemma PlanFlagsExactly(registry: Registry, cap: int, p: Policy, csrf: Option<bool>)
    requires Compile(registry, cap, p, csrf).Ok?
    ensures var plan := Compile(registry, cap, p, csrf).value;
            && (plan.authenticate <==> p.Mechanisms? || p.Optional?) && (plan.bypass <==> p.Exclude?)
            && (plan.required <==> p.Mechanisms?) && (plan.allowAnonymous <==> p.Optional?) && plan.csrf == csrf
            && (!plan.authenticate ==> plan.alternatives == [])
  {
  }

  /** The names occur in the other list, in its order. */
  ghost predicate InOrderOf(xs: seq<string>, ys: seq<string>) {
    xs == [] || (ys != [] && (InOrderOf(xs, ys[1..]) || (xs[0] == ys[0] && InOrderOf(xs[1..], ys[1..]))))
  }

  lemma {:induction false} InOwnOrder(xs: seq<string>)
    ensures InOrderOf(xs, xs)
  {
    if xs != [] {
      InOwnOrder(xs[1..]);
    }
  }

  lemma {:induction false} OneInOrder(x: string, ys: seq<string>)
    requires x in ys
    ensures InOrderOf([x], ys)
  {
    if ys[0] != x {
      OneInOrder(x, ys[1..]);
    } else {
      assert [x][1..] == [];
    }
  }

  lemma {:induction false} RegistryOrderKept(names: seq<string>, rs: seq<Requirement>)
    ensures InOrderOf(Names(InRegistryOrder(names, rs)), names)
  {
    if names != [] {
      RegistryOrderKept(names[1..], rs);
      LookupFinds(rs, names[0]);
      var rest := InRegistryOrder(names[1..], rs);
      if Lookup(rs, names[0]).Some? {
        var ordered := [Lookup(rs, names[0]).value] + rest;
        NamesSplit(ordered);
        assert ordered[1..] == rest;
        assert Names(ordered)[1..] == Names(rest);
      }
    }
  }

  lemma {:induction false} SublistInOrder(xs: seq<string>, ys: seq<string>, zs: seq<string>)
    requires InOrderOf(xs, ys) && InOrderOf(ys, zs)
    ensures InOrderOf(xs, zs)
    decreases |zs|, |ys|
  {
    if xs != [] {
      if InOrderOf(ys, zs[1..]) {
        SublistInOrder(xs, ys, zs[1..]);
      } else if InOrderOf(xs, ys[1..]) {
        SublistInOrder(xs, ys[1..], zs[1..]);
      } else {
        SublistInOrder(xs[1..], ys[1..], zs[1..]);
      }
    }
  }

  lemma HeadInOrder(x: Requirement, rest: seq<Requirement>, rs: seq<Requirement>)
    requires rs != [] && rs[0] == x && InOrderOf(Names(rest), Names(rs[1..]))
    ensures InOrderOf(Names([x] + rest), Names(rs))
  {
    var c := [x] + rest;
    NamesSplit(c);
    NamesSplit(rs);
    assert c[1..] == rest && Names(c)[1..] == Names(rest) && Names(rs)[1..] == Names(rs[1..]);
  }

  lemma {:induction false} CombinationsInOrder(rs: seq<Requirement>, k: nat)
    ensures forall c :: c in Combinations(rs, k) ==> InOrderOf(Names(c), Names(rs))
    decreases |rs|
  {
    if k > 0 && rs != [] {
      CombinationsInOrder(rs[1..], k - 1);
      CombinationsInOrder(rs[1..], k);
      NamesSplit(rs);
      assert Names(rs)[1..] == Names(rs[1..]);
      forall c | c in Combinations(rs, k) ensures InOrderOf(Names(c), Names(rs)) {
        if c in Prepend(rs[0], Combinations(rs[1..], k - 1)) {
          var rest := PrependMember(rs[0], Combinations(rs[1..], k - 1), c);
          HeadInOrder(rs[0], rest, rs);
        }
      }
    }
  }

  /** What the policy says about the participant: its own requirement, or no scopes for a default one. */
  predicate AskedBy(registry: Registry, p: Policy, r: Requirement)
    requires p.Mechanisms?
  {
    if p.implicit then r.scopes == [] && r.name in registry.defaults else r in p.requirements
  }

  /** Every participant of a compiled alternative asks what the policy wrote, and they stand in the registry's order. */
  lemma AlternativesAskAsWritten(registry: Registry, cap: int, p: Policy, csrf: Option<bool>, i: nat)
    requires registry.Valid() && WellFormed(p) && (p.Mechanisms? || p.Optional?)
    requires Compile(registry, cap, p, csrf).Ok? && i < |Compile(registry, cap, p, csrf).value.alternatives|
    ensures var a, q := Compile(registry, cap, p, csrf).value.alternatives[i], Expression(p);
            && q.Mechanisms? && (forall r :: r in a ==> AskedBy(registry, q, r))
            && InOrderOf(Names(a), if q.implicit then registry.defaults else registry.names)
  {
    var q := Expression(p);
    var rs, a := Requirements(registry, q).value, Compile(registry, cap, p, csrf).value.alternatives[i];
    var order := if q.implicit then registry.defaults else registry.names;
    AlternativesDrawOnRequirements(registry, cap, p, csrf);
    RequirementsMeanParticipants(registry, q);
    assert a in Compile(registry, cap, p, csrf).value.alternatives;
    if q.implicit {
      assert Names(rs) == registry.defaults;
      InOwnOrder(registry.defaults);
    } else {
      RegistryOrderKept(registry.names, q.requirements);
    }
    AlternativeInOrder(rs, q, a);
    SublistInOrder(Names(a), Names(rs), order);
  }

  lemma AlternativeInOrder(rs: seq<Requirement>, q: Policy, a: seq<Requirement>)
    requires q.Mechanisms? && (q.operator.AtLeast? ==> q.count >= 0)
    requires match q.operator
             case AnyOf => a in Singletons(rs)
             case AllOf => a == rs
             case AtLeast => a in Combinations(rs, q.count)
    ensures InOrderOf(Names(a), Names(rs))
  {
    match q.operator
    case AnyOf =>
      var k :| 0 <= k < |rs| && a == [rs[k]];
      assert Names(a) == [rs[k].name] && Names(rs)[k] == rs[k].name;
      OneInOrder(rs[k].name, Names(rs));
    case AllOf => InOwnOrder(Names(rs));
    case AtLeast => CombinationsInOrder(rs, q.count);
  }

  /**
   Compilation is refused exactly for an undefined mechanism, an implicit policy without
   default mechanisms, an optional exclusion, or an at-least expansion whose true number
   of alternatives exceeds the cap.
   */
  lemma CompileFailsExactly(registry: Registry, cap: int, p: Policy, csrf: Option<bool>)
    requires registry.Valid() && WellFormed(p)
    ensures var q := Expression(p);
            Compile(registry, cap, p, csrf).Misconfigured? <==>
            || (p.Optional? && q.Exclude?)
            || (q.Mechanisms? && q.implicit && registry.defaults == [])
            || (q.Mechanisms? && !(Participants(registry, q) <= Elements(registry.names)))
            || (q.Mechanisms? && q.operator.AtLeast? && 0 <= q.count && cap < |Combinations(q.requirements, q.count)|)
  {
    var q := Expression(p);
    if q.Mechanisms? {
      if !q.implicit {
        forall i | 0 <= i < |q.requirements| ensures q.requirements[i].name in Participants(registry, q) {
          assert Names(q.requirements)[i] == q.requirements[i].name;
        }
      }
      if Requirements(registry, q).Ok? {
        RequirementsMeanParticipants(registry, q);
        if q.operator.AtLeast? {
          BinomialCountsCombinations(q.requirements, q.count);
        }
      }
    }
  }

  lemma ExpansionShape(rs: seq<Requirement>, requirements: seq<Requirement>, k: nat)
    requires |rs| == |requirements| && forall r :: r in rs ==> r in requirements
    ensures |Combinations(rs, k)| == Binomial(|requirements|, k)
    ensures forall i :: 0 <= i < |Combinations(rs, k)| ==>
              |Combinations(rs, k)[i]| == k && forall r :: r in Combinations(rs, k)[i] ==> r in requirements
  {
    BinomialCountsCombinations(rs, k);
    CombinationsAreSublists(rs, k);
    SublistsDrawOn(Combinations(rs, k), rs, requirements, k);
  }

  /** An accepted at-least expansion has exactly the binomial number of alternatives, each of `count` requirements. */
  lemma AtLeastExpandsBinomially(registry: Registry, cap: int, p: Policy, csrf: Option<bool>)
    requires registry.Valid() && WellFormed(p) && p.Mechanisms? && p.operator.AtLeast? && !p.implicit
    requires Compile(registry, cap, p, csrf).Ok?
    ensures var alternatives := Compile(registry, cap, p, csrf).value.alternatives;
            && |alternatives| == Binomial(|p.requirements|, p.count) <= cap
            && forall i :: 0 <= i < |alternatives| ==>
                 |alternatives[i]| == p.count && forall r :: r in alternatives[i] ==> r in p.requirements
  {
    RequirementsMeanParticipants(registry, p);
    ExpansionShape(Requirements(registry, p).value, p.requirements, p.count);
  }

  lemma SublistsDrawOn<T>(lists: seq<seq<T>>, xs: seq<T>, ys: seq<T>, k: nat)
    requires Sublists(lists, xs, k) && forall x :: x in xs ==> x in ys
    ensures forall i :: 0 <= i < |lists| ==> |lists[i]| == k && forall x :: x in lists[i] ==> x in ys
  {
    forall i | 0 <= i < |lists| ensures |lists[i]| == k && forall x :: x in lists[i] ==> x in ys {
      assert lists[i] in lists;
    }
  }

  lemma PrependMember<T>(x: T, shorter: seq<seq<T>>, c: seq<T>) returns (rest: seq<T>)
    requires c in Prepend(x, shorter)
    ensures rest in shorter && c == [x] + rest
  {
    var i :| 0 <= i < |shorter| && c == [x] + shorter[i];
    rest := shorter[i];
  }

  ghost predicate Sublists<T>(lists: seq<seq<T>>, xs: seq<T>, k: nat) {
    forall c :: c in lists ==> |c| == k && forall x :: x in c ==> x in xs
  }

  lemma PrependSublists<T>(xs: seq<T>, shorter: seq<seq<T>>, k: nat)
    requires xs != [] && Sublists(shorter, xs[1..], k)
    ensures Sublists(Prepend(xs[0], shorter), xs, k + 1)
  {
    forall c | c in Prepend(xs[0], shorter) ensures |c| == k + 1 && forall x :: x in c ==> x in xs {
      var rest := PrependMember(xs[0], shorter, c);
    }
  }

  lemma {:induction false} CombinationsAreSublists<T>(xs: seq<T>, k: nat)
    ensures Sublists(Combinations(xs, k), xs, k)
    decreases |xs|
  {
    if k > 0 && xs != [] {
      CombinationsAreSublists(xs[1..], k - 1);
      CombinationsAreSublists(xs[1..], k);
      PrependSublists(xs, Combinations(xs[1..], k - 1), k - 1);
    }
  }
}
