/**
 Projection of a compiled plan into OpenAPI security requirements: a list of which one
 must be satisfied, each naming schemes that must all be satisfied (section 4.8.30 of the
 OpenAPI Specification 3.1.0).
 */
module OpenApi {
  import opened Prelude
  import opened PolicySpec

  datatype Scheme = Scheme(kind: string, definition: string)

  predicate ExpressesScopes(s: Scheme) {
    s.kind == "oauth2" || s.kind == "openIdConnect"
  }

  /** The primary and the additional schemes documented for each mechanism. */
  datatype SchemeSet = SchemeSet(
    primary: map<string, (string, Scheme)>,
    additional: map<string, seq<(string, Scheme)>>,
    unique: map<string, Scheme>)

  function Candidates(schemes: SchemeSet, name: string): seq<(string, Scheme)>
    requires name in schemes.primary
  {
    [schemes.primary[name]] + if name in schemes.additional then schemes.additional[name] else []
  }

  predicate Covered(schemes: SchemeSet, alternative: seq<Requirement>) {
    forall i :: 0 <= i < |alternative| ==> alternative[i].name in schemes.primary
  }

  ghost predicate AllCovered(schemes: SchemeSet, alternatives: seq<seq<Requirement>>) {
    forall i :: 0 <= i < |alternatives| ==> Covered(schemes, alternatives[i])
  }

  // --------------------------------------------------------- schemes from a registry

  /** What one mechanism documents. */
  datatype MechanismDoc = MechanismDoc(name: string, scheme: Option<(string, Scheme)>, extra: seq<(string, Scheme)>)

  function RegisterUnique(unique: Result<map<string, Scheme>>, use: (string, Scheme)): Result<map<string, Scheme>> {
    if unique.Misconfigured? then Misconfigured
    else if use.0 in unique.value && unique.value[use.0] != use.1 then Misconfigured
    else Ok(unique.value[use.0 := use.1])
  }

  function RegisterAll(unique: Result<map<string, Scheme>>, uses: seq<(string, Scheme)>): Result<map<string, Scheme>> {
    if uses == [] then unique
    else RegisterUnique(RegisterAll(unique, uses[..|uses| - 1]), uses[|uses| - 1])
  }

  function FromRegistry(docs: seq<MechanismDoc>): Result<SchemeSet> {
    if docs == [] then Ok(SchemeSet(map[], map[], map[]))
    else
      var before := FromRegistry(docs[..|docs| - 1]);
      var doc := docs[|docs| - 1];
      if before.Misconfigured? || doc.scheme.None? then Misconfigured
      else
        var unique := RegisterAll(Ok(before.value.unique), [doc.scheme.value] + doc.extra);
        if unique.Misconfigured? then Misconfigured
        else Ok(SchemeSet(
                  before.value.primary[doc.name := doc.scheme.value],
                  if doc.extra == [] then before.value.additional else before.value.additional[doc.name := doc.extra],
                  unique.value))
  }

  /** The scheme definitions a mechanism uses. */
  function Uses(doc: MechanismDoc): seq<(string, Scheme)> {
    (if doc.scheme.Some? then [doc.scheme.value] else []) + doc.extra
  }

  function AllUses(docs: seq<MechanismDoc>): seq<(string, Scheme)> {
    if docs == [] then [] else AllUses(docs[..|docs| - 1]) + Uses(docs[|docs| - 1])
  }

  /** No name is given two definitions. */
  ghost predicate Consistent(uses: seq<(string, Scheme)>) {
    forall u, v :: u in uses && v in uses && u.0 == v.0 ==> u == v
  }

  lemma {:induction false} RegisterExactly(uses: seq<(string, Scheme)>)
    ensures var r := RegisterAll(Ok(map[]), uses);
            && (r.Ok? <==> Consistent(uses))
            && (r.Ok? ==> forall u :: u in uses <==> u.0 in r.value && r.value[u.0] == u.1)
  {
    if uses != [] {
      var before, last := uses[..|uses| - 1], uses[|uses| - 1];
      RegisterExactly(before);
      assert uses == before + [last];
      var r := RegisterAll(Ok(map[]), before);
      if r.Ok? && last.0 in r.value && r.value[last.0] != last.1 {
        assert (last.0, r.value[last.0]) in before;
      }
    }
  }

  lemma {:induction false} RegisterInTurn(a: seq<(string, Scheme)>, b: seq<(string, Scheme)>)
    ensures RegisterAll(RegisterAll(Ok(map[]), a), b) == RegisterAll(Ok(map[]), a + b)
    decreases |b|
  {
    if b == [] {
      assert a + b == a;
    } else {
      RegisterInTurn(a, b[..|b| - 1]);
      assert (a + b)[..|a + b| - 1] == a + b[..|b| - 1];
    }
  }

  lemma {:induction false} RegisterFailureSticks(uses: seq<(string, Scheme)>)
    ensures RegisterAll(Misconfigured, uses).Misconfigured?
  {
    if uses != [] {
      RegisterFailureSticks(uses[..|uses| - 1]);
    }
  }

  ghost predicate AllHavePrimary(docs: seq<MechanismDoc>) {
    forall i :: 0 <= i < |docs| ==> docs[i].scheme.Some?
  }

  lemma {:induction false} FromRegistryUnrolled(docs: seq<MechanismDoc>)
    ensures var r := FromRegistry(docs);
            && (r.Ok? <==> AllHavePrimary(docs) && RegisterAll(Ok(map[]), AllUses(docs)).Ok?)
            && (r.Ok? ==> Ok(r.value.unique) == RegisterAll(Ok(map[]), AllUses(docs)))
            && (r.Ok? ==> forall i :: 0 <= i < |docs| ==> docs[i].name in r.value.primary)
  {
    if docs != [] {
      var before, doc := docs[..|docs| - 1], docs[|docs| - 1];
      FromRegistryUnrolled(before);
      assert forall i :: 0 <= i < |before| ==> docs[i] == before[i];
      RegisterInTurn(AllUses(before), Uses(doc));
      RegisterFailureSticks(Uses(doc));
      if doc.scheme.Some? {
        assert Uses(doc) == [doc.scheme.value] + doc.extra;
      }
    }
  }

  /**
   The registry's schemes compile exactly when every mechanism has a primary scheme and no
   scheme name is given two definitions; then the unique table holds exactly all uses.
   */
  lemma FromRegistryExactly(docs: seq<MechanismDoc>)
    ensures var r := FromRegistry(docs);
            && (r.Ok? <==> AllHavePrimary(docs) && Consistent(AllUses(docs)))
            && (r.Ok? ==> forall u :: u in AllUses(docs) <==> u.0 in r.value.unique && r.value.unique[u.0] == u.1)
            && (r.Ok? ==> forall i :: 0 <= i < |docs| ==> docs[i].name in r.value.primary)
  {
    FromRegistryUnrolled(docs);
    RegisterExactly(AllUses(docs));
  }

  /** Registered mechanisms have distinct names. */
  ghost predicate DistinctDocs(docs: seq<MechanismDoc>) {
    forall i, j :: 0 <= i < j < |docs| ==> docs[i].name != docs[j].name
  }

  lemma {:induction false} RegistryContents(docs: seq<MechanismDoc>, name: string)
    requires FromRegistry(docs).Ok? && DistinctDocs(docs)
    ensures var r := FromRegistry(docs).value;
            && (name in r.primary || name in r.additional ==> exists i :: 0 <= i < |docs| && docs[i].name == name)
            && forall i :: 0 <= i < |docs| && docs[i].name == name ==>
                 && docs[i].scheme.Some? && name in r.primary && r.primary[name] == docs[i].scheme.value
                 && (name in r.additional <==> docs[i].extra != [])
                 && (name in r.additional ==> r.additional[name] == docs[i].extra)
  {
    if docs != [] {
      var n := |docs| - 1;
      RegistryContents(docs[..n], name);
      assert forall i :: 0 <= i < n ==> docs[..n][i] == docs[i];
      if docs[n].name == name {
        assert forall i :: 0 <= i < n ==> docs[i].name != name;
      }
    }
  }

  /** A mechanism can be met by exactly the schemes it documents, its primary one first and the others in their order. */
  lemma CandidatesAreDocumented(docs: seq<MechanismDoc>, i: nat)
    requires FromRegistry(docs).Ok? && DistinctDocs(docs) && i < |docs|
    ensures var r := FromRegistry(docs).value;
            docs[i].name in r.primary && docs[i].scheme.Some?
            && Candidates(r, docs[i].name) == [docs[i].scheme.value] + docs[i].extra
    ensures forall name :: name in FromRegistry(docs).value.primary ==> exists j :: 0 <= j < |docs| && docs[j].name == name
  {
    RegistryContents(docs, docs[i].name);
    forall name | name in FromRegistry(docs).value.primary ensures exists j :: 0 <= j < |docs| && docs[j].name == name {
      RegistryContents(docs, name);
    }
  }

  /** A plan compiled for the registry only names mechanisms its scheme set documents. */
  lemma CompiledPlansAreCovered(registry: Registry, cap: int, p: Policy, csrf: Option<bool>, docs: seq<MechanismDoc>)
    requires registry.Valid() && WellFormed(p) && Compile(registry, cap, p, csrf).Ok?
    requires FromRegistry(docs).Ok? && forall n :: n in registry.names ==> exists i :: 0 <= i < |docs| && docs[i].name == n
    ensures AllCovered(FromRegistry(docs).value, Compile(registry, cap, p, csrf).value.alternatives)
  {
    FromRegistryUnrolled(docs);
    if p.Mechanisms? || p.Optional? {
      var alternatives := Compile(registry, cap, p, csrf).value.alternatives;
      AlternativesDrawOnRequirements(registry, cap, p, csrf);
      RequirementsAreRegistered(registry, Expression(p));
      forall i | 0 <= i < |alternatives| ensures Covered(FromRegistry(docs).value, alternatives[i]) {
        assert alternatives[i] in alternatives;
        assert forall r: Requirement :: r in alternatives[i] ==> r.name in registry.names;
      }
    }
  }

  // ------------------------------------------------------------------------ projection

  /** One scheme with the scopes asked of it. */
  datatype Choice = Choice(scheme: string, scopes: seq<string>)

  type SecurityRequirement = map<string, seq<string>>

  predicate ScopesExpressible(candidates: seq<(string, Scheme)>, scopes: seq<string>) {
    scopes == [] || forall i :: 0 <= i < |candidates| ==> ExpressesScopes(candidates[i].1)
  }

  function Choices(candidates: seq<(string, Scheme)>, scopes: seq<string>): seq<Choice> {
    seq(|candidates|, i requires 0 <= i < |candidates| => Choice(candidates[i].0, scopes))
  }

  function ParticipantChoices(schemes: SchemeSet, r: Requirement): Result<seq<Choice>>
    requires r.name in schemes.primary
  {
    var candidates := Candidates(schemes, r.name);
    if ScopesExpressible(candidates, r.scopes) then Ok(Choices(candidates, r.scopes)) else Misconfigured
  }

  function AllChoices(schemes: SchemeSet, alternative: seq<Requirement>): Result<seq<seq<Choice>>>
    requires Covered(schemes, alternative)
  {
    if alternative == [] then Ok([])
    else
      var before := AllChoices(schemes, alternative[..|alternative| - 1]);
      var last := ParticipantChoices(schemes, alternative[|alternative| - 1]);
      if before.Misconfigured? || last.Misconfigured? then Misconfigured else Ok(before.value + [last.value])
  }

  /** itertools.product: the first factor varies slowest. */
  function Product(options: seq<seq<Choice>>): seq<seq<Choice>> {
    if options == [] then [[]] else Spread(options[0], Product(options[1..]))
  }

  function Spread(heads: seq<Choice>, tails: seq<seq<Choice>>): seq<seq<Choice>> {
    if heads == [] then [] else Prepend(heads[0], tails) + Spread(heads[1..], tails)
  }

  /** Collect one combination into a requirement; the same scheme twice must agree on scopes. */
  function Combine(combination: seq<Choice>): Result<SecurityRequirement> {
    if combination == [] then Ok(map[])
    else
      var before := Combine(combination[..|combination| - 1]);
      var last := combination[|combination| - 1];
      if before.Misconfigured? then Misconfigured
      else if last.scheme in before.value && before.value[last.scheme] != last.scopes then Misconfigured
      else Ok(before.value[last.scheme := last.scopes])
  }

  function CombineAll(combinations: seq<seq<Choice>>): Result<seq<SecurityRequirement>> {
    if combinations == [] then Ok([])
    else
      var before := CombineAll(combinations[..|combinations| - 1]);
      var last := Combine(combinations[|combinations| - 1]);
      if before.Misconfigured? || last.Misconfigured? then Misconfigured else Ok(before.value + [last.value])
  }

  function ProjectAlternative(schemes: SchemeSet, alternative: seq<Requirement>): Result<seq<SecurityRequirement>>
    requires Covered(schemes, alternative)
  {
    var options := AllChoices(schemes, alternative);
    if options.Misconfigured? then Misconfigured else CombineAll(Product(options.value))
  }

  function ProjectAlternatives(schemes: SchemeSet, alternatives: seq<seq<Requirement>>): Result<seq<SecurityRequirement>>
    requires AllCovered(schemes, alternatives)
  {
    if alternatives == [] then Ok([])
    else
      var before := ProjectAlternatives(schemes, alternatives[..|alternatives| - 1]);
      var last := ProjectAlternative(schemes, alternatives[|alternatives| - 1]);
      if before.Misconfigured? || last.Misconfigured? then Misconfigured else Ok(before.value + last.value)
  }

  function Project(schemes: SchemeSet, plan: Plan): Result<seq<SecurityRequirement>>
    requires AllCovered(schemes, plan.alternatives)
  {
    if !plan.authenticate then Ok([map[]])
    else
      var projected := ProjectAlternatives(schemes, plan.alternatives);
      if projected.Misconfigured? then Misconfigured
      else Ok((if plan.allowAnonymous then [map[]] else []) + projected.value)
  }

  // ----------------------------------------------------------------------- meaning

  /** Any one requirement, every scheme inside it. */
  ghost predicate ListHolds(list: seq<SecurityRequirement>, satisfied: set<string>) {
    exists i :: 0 <= i < |list| && list[i].Keys <= satisfied
  }

  /** A mechanism stands for its primary or one of its additional schemes. */
  ghost predicate MechanismHolds(schemes: SchemeSet, name: string, satisfied: set<string>)
    requires name in schemes.primary
  {
    exists i :: 0 <= i < |Candidates(schemes, name)| && Candidates(schemes, name)[i].0 in satisfied
  }

  /** The mechanisms a set of satisfied schemes can stand for. */
  ghost function SatisfiedMechanisms(schemes: SchemeSet, satisfied: set<string>): set<string> {
    set name | name in schemes.primary && MechanismHolds(schemes, name, satisfied)
  }

  /** All choices of the combination are satisfied. */
  ghost predicate CombinationHolds(combination: seq<Choice>, satisfied: set<string>) {
    forall i :: 0 <= i < |combination| ==> combination[i].scheme in satisfied
  }

  ghost predicate SomeChoiceHolds(choices: seq<Choice>, satisfied: set<string>) {
    exists i :: 0 <= i < |choices| && choices[i].scheme in satisfied
  }

  ghost predicate SomeCombinationHolds(combinations: seq<seq<Choice>>, satisfied: set<string>) {
    exists i :: 0 <= i < |combinations| && CombinationHolds(combinations[i], satisfied)
  }

  lemma {:induction false} PrependHolds(head: Choice, tails: seq<seq<Choice>>, satisfied: set<string>)
    ensures SomeCombinationHolds(Prepend(head, tails), satisfied) <==> head.scheme in satisfied && SomeCombinationHolds(tails, satisfied)
  {
    forall i | 0 <= i < |tails|
      ensures CombinationHolds(Prepend(head, tails)[i], satisfied) <==> head.scheme in satisfied && CombinationHolds(tails[i], satisfied)
    {
      var c := [head] + tails[i];
      assert Prepend(head, tails)[i] == c && c[0] == head;
      assert forall j :: 0 <= j < |tails[i]| ==> c[j + 1] == tails[i][j];
    }
  }

  lemma {:induction false} EitherHolds(a: seq<seq<Choice>>, b: seq<seq<Choice>>, satisfied: set<string>)
    ensures SomeCombinationHolds(a + b, satisfied) <==> SomeCombinationHolds(a, satisfied) || SomeCombinationHolds(b, satisfied)
  {
    if i :| 0 <= i < |a| && CombinationHolds(a[i], satisfied) {
      assert (a + b)[i] == a[i];
    }
    if i :| 0 <= i < |b| && CombinationHolds(b[i], satisfied) {
      assert (a + b)[|a| + i] == b[i];
    }
  }

  lemma SomeChoiceSplit(heads: seq<Choice>, satisfied: set<string>)
    requires heads != []
    ensures SomeChoiceHolds(heads, satisfied) <==> heads[0].scheme in satisfied || SomeChoiceHolds(heads[1..], satisfied)
  {
    assert forall i :: 0 <= i < |heads| - 1 ==> heads[1..][i] == heads[i + 1];
    if i :| 0 < i < |heads| && heads[i].scheme in satisfied {
      assert heads[1..][i - 1].scheme in satisfied;
    }
  }

  lemma {:induction false} SpreadHolds(heads: seq<Choice>, tails: seq<seq<Choice>>, satisfied: set<string>)
    ensures SomeCombinationHolds(Spread(heads, tails), satisfied) <==>
            SomeChoiceHolds(heads, satisfied) && SomeCombinationHolds(tails, satisfied)
    ensures |Spread(heads, tails)| == |heads| * |tails|
  {
    if heads != [] {
      SpreadHolds(heads[1..], tails, satisfied);
      PrependHolds(heads[0], tails, satisfied);
      EitherHolds(Prepend(heads[0], tails), Spread(heads[1..], tails), satisfied);
      SomeChoiceSplit(heads, satisfied);
      assert |heads| * |tails| == |tails| + |heads[1..]| * |tails|;
    }
  }

  function ProductSize(options: seq<seq<Choice>>): nat {
    if options == [] then 1 else |options[0]| * ProductSize(options[1..])
  }

  /** Some combination of the product holds exactly when every factor has a choice that does. */
  lemma {:induction false} ProductHolds(options: seq<seq<Choice>>, satisfied: set<string>)
    ensures SomeCombinationHolds(Product(options), satisfied) <==>
            forall i :: 0 <= i < |options| ==> SomeChoiceHolds(options[i], satisfied)
    ensures |Product(options)| == ProductSize(options)
  {
    if options == [] {
      assert CombinationHolds(Product(options)[0], satisfied);
    } else {
      ProductHolds(options[1..], satisfied);
      SpreadHolds(options[0], Product(options[1..]), satisfied);
      assert forall i :: 0 < i < |options| ==> options[i] == options[1..][i - 1];
    }
  }

  lemma {:induction false} CombineKeys(combination: seq<Choice>, satisfied: set<string>)
    requires Combine(combination).Ok?
    ensures Combine(combination).value.Keys <= satisfied <==> CombinationHolds(combination, satisfied)
    ensures forall i :: 0 <= i < |combination| ==>
              combination[i].scheme in Combine(combination).value
              && Combine(combination).value[combination[i].scheme] == combination[i].scopes
  {
    if combination != [] {
      var before, last := combination[..|combination| - 1], combination[|combination| - 1];
      CombineKeys(before, satisfied);
      assert combination == before + [last];
      assert Combine(combination).value.Keys == Combine(before).value.Keys + {last.scheme};
      assert forall i :: 0 <= i < |before| ==> combination[i] == before[i];
    }
  }

  /** A combination is refused exactly when it asks one scheme for two different scope lists. */
  lemma {:induction false} CombineFailsExactly(combination: seq<Choice>)
    ensures Combine(combination).Misconfigured? <==>
            exists i, j :: 0 <= i < j < |combination| && combination[i].scheme == combination[j].scheme
                           && combination[i].scopes != combination[j].scopes
  {
    if combination != [] {
      var n := |combination| - 1;
      var before, last := combination[..n], combination[n];
      CombineFailsExactly(before);
      assert forall i :: 0 <= i < n ==> before[i] == combination[i];
      if Combine(before).Ok? {
        CombineKeys(before, {});
        if last.scheme in Combine(before).value {
          CombinedFrom(before, last.scheme);
        }
      }
    }
  }

  lemma {:induction false} CombinedFrom(combination: seq<Choice>, scheme: string)
    requires Combine(combination).Ok? && scheme in Combine(combination).value
    ensures exists i :: 0 <= i < |combination| && combination[i].scheme == scheme
                        && combination[i].scopes == Combine(combination).value[scheme]
  {
    var before, last := combination[..|combination| - 1], combination[|combination| - 1];
    if last.scheme != scheme {
      CombinedFrom(before, scheme);
      var i :| 0 <= i < |before| && before[i].scheme == scheme && before[i].scopes == Combine(before).value[scheme];
      assert combination[i] == before[i];
    }
  }

  lemma {:induction false} CombineAllHolds(combinations: seq<seq<Choice>>, satisfied: set<string>)
    requires CombineAll(combinations).Ok?
    ensures |CombineAll(combinations).value| == |combinations|
    ensures ListHolds(CombineAll(combinations).value, satisfied) <==> SomeCombinationHolds(combinations, satisfied)
  {
    if combinations != [] {
      var n := |combinations| - 1;
      CombineAllHolds(combinations[..n], satisfied);
      CombineKeys(combinations[n], satisfied);
      var list, before := CombineAll(combinations).value, CombineAll(combinations[..n]).value;
      assert list == before + [Combine(combinations[n]).value];
      if i :| 0 <= i < n && before[i].Keys <= satisfied {
        assert list[i] == before[i];
      }
      if i :| 0 <= i < n && CombinationHolds(combinations[i], satisfied) {
        assert combinations[..n][i] == combinations[i];
        assert SomeCombinationHolds(combinations[..n], satisfied);
      }
      if i :| 0 <= i < n && CombinationHolds(combinations[..n][i], satisfied) {
        assert CombinationHolds(combinations[i], satisfied);
      }
      assert list[n].Keys <= satisfied <==> CombinationHolds(combinations[n], satisfied);
    }
  }

  lemma {:induction false} AllChoicesMatch(schemes: SchemeSet, alternative: seq<Requirement>, satisfied: set<string>)
    requires Covered(schemes, alternative) && AllChoices(schemes, alternative).Ok?
    ensures var options := AllChoices(schemes, alternative).value;
            && |options| == |alternative|
            && forall i :: 0 <= i < |alternative| ==>
                 && |options[i]| == |Candidates(schemes, alternative[i].name)|
                 && (SomeChoiceHolds(options[i], satisfied) <==> MechanismHolds(schemes, alternative[i].name, satisfied))
  {
    if alternative != [] {
      var n := |alternative| - 1;
      var options := AllChoices(schemes, alternative).value;
      AllChoicesMatch(schemes, alternative[..n], satisfied);
      var candidates := Candidates(schemes, alternative[n].name);
      assert options[n] == Choices(candidates, alternative[n].scopes);
      assert forall i :: 0 <= i < |candidates| ==> options[n][i].scheme == candidates[i].0;
      forall i | 0 <= i < n ensures options[i] == AllChoices(schemes, alternative[..n]).value[i] && alternative[..n][i] == alternative[i] {}
    }
  }

  /** The product of the number of schemes each participant can be met by. */
  function OptionCount(schemes: SchemeSet, alternative: seq<Requirement>): nat
    requires Covered(schemes, alternative)
  {
    if alternative == [] then 1
    else |Candidates(schemes, alternative[0].name)| * OptionCount(schemes, alternative[1..])
  }

  function TotalCount(schemes: SchemeSet, alternatives: seq<seq<Requirement>>): nat
    requires AllCovered(schemes, alternatives)
  {
    if alternatives == [] then 0
    else TotalCount(schemes, alternatives[..|alternatives| - 1]) + OptionCount(schemes, alternatives[|alternatives| - 1])
  }

  lemma {:induction false} SizesAgree(schemes: SchemeSet, alternative: seq<Requirement>, options: seq<seq<Choice>>)
    requires Covered(schemes, alternative) && |options| == |alternative|
    requires forall i :: 0 <= i < |alternative| ==> |options[i]| == |Candidates(schemes, alternative[i].name)|
    ensures ProductSize(options) == OptionCount(schemes, alternative)
  {
    if alternative != [] {
      SizesAgree(schemes, alternative[1..], options[1..]);
    }
  }

  lemma {:induction false} AlternativeProjects(schemes: SchemeSet, alternative: seq<Requirement>, satisfied: set<string>)
    requires Covered(schemes, alternative) && ProjectAlternative(schemes, alternative).Ok?
    ensures var list := ProjectAlternative(schemes, alternative).value;
            && |list| == OptionCount(schemes, alternative)
            && (ListHolds(list, satisfied) <==> AlternativeHolds(alternative, SatisfiedMechanisms(schemes, satisfied)))
  {
    var options := AllChoices(schemes, alternative).value;
    CombineAllHolds(Product(options), satisfied);
    ProductHolds(options, satisfied);
    AllChoicesMatch(schemes, alternative, satisfied);
    SizesAgree(schemes, alternative, options);
  }

  lemma {:induction false} ListAppend(a: seq<SecurityRequirement>, b: seq<SecurityRequirement>, satisfied: set<string>)
    ensures ListHolds(a + b, satisfied) <==> ListHolds(a, satisfied) || ListHolds(b, satisfied)
  {
    if i :| 0 <= i < |a| && a[i].Keys <= satisfied {
      assert (a + b)[i] == a[i];
    }
    if i :| 0 <= i < |b| && b[i].Keys <= satisfied {
      assert (a + b)[|a| + i] == b[i];
    }
  }

  lemma {:induction false} AlternativesProject(schemes: SchemeSet, alternatives: seq<seq<Requirement>>,
                                               satisfied: set<string>)
    requires AllCovered(schemes, alternatives) && ProjectAlternatives(schemes, alternatives).Ok?
    ensures var list := ProjectAlternatives(schemes, alternatives).value;
            && |list| == TotalCount(schemes, alternatives)
            && (ListHolds(list, satisfied) <==> Satisfied(alternatives, SatisfiedMechanisms(schemes, satisfied)))
  {
    if alternatives != [] {
      var n := |alternatives| - 1;
      AlternativesProject(schemes, alternatives[..n], satisfied);
      AlternativeProjects(schemes, alternatives[n], satisfied);
      ListAppend(ProjectAlternatives(schemes, alternatives[..n]).value, ProjectAlternative(schemes, alternatives[n]).value, satisfied);
      assert alternatives == alternatives[..n] + [alternatives[n]];
      SatisfiedByEither(alternatives[..n], [alternatives[n]], SatisfiedMechanisms(schemes, satisfied));
      assert [alternatives[n]][0] == alternatives[n];
    }
  }

  // ------------------------------------------------------------------ main results

  /**
   Whenever projection succeeds, the documented requirements are met by exactly the scheme
   sets that meet the plan with each mechanism read as "one of its schemes", shared
   schemes included; and there is one requirement per choice of schemes, plus one for
   anonymous access.
   */
  lemma ProjectionPreservesMeaning(schemes: SchemeSet, plan: Plan, satisfied: set<string>)
    requires AllCovered(schemes, plan.alternatives) && Project(schemes, plan).Ok? && plan.authenticate
    ensures var list := Project(schemes, plan).value;
            && (ListHolds(list, satisfied) <==>
                  plan.allowAnonymous || Satisfied(plan.alternatives, SatisfiedMechanisms(schemes, satisfied)))
            && |list| == TotalCount(schemes, plan.alternatives) + if plan.allowAnonymous then 1 else 0
  {
    AlternativesProject(schemes, plan.alternatives, satisfied);
    var projected := ProjectAlternatives(schemes, plan.alternatives).value;
    var anonymous: seq<SecurityRequirement> := if plan.allowAnonymous then [map[]] else [];
    ListAppend(anonymous, projected, satisfied);
    if plan.allowAnonymous {
      assert anonymous[0].Keys <= satisfied;
    }
  }

  /**
   Both translations together: what the documentation of a route asks of the schemes is
   what the policy, as written, asks of the mechanisms they stand for.
   */
  lemma DocumentationMeansPolicy(registry: Registry, cap: int, p: Policy, csrf: Option<bool>, schemes: SchemeSet,
                                 satisfied: set<string>)
    requires registry.Valid() && WellFormed(p) && (p.Mechanisms? || p.Optional?)
    requires Compile(registry, cap, p, csrf).Ok?
    requires var plan := Compile(registry, cap, p, csrf).value;
             AllCovered(schemes, plan.alternatives) && Project(schemes, plan).Ok?
    ensures var plan := Compile(registry, cap, p, csrf).value;
            && Expression(p).Mechanisms?
            && (ListHolds(Project(schemes, plan).value, satisfied) <==>
                  p.Optional? || Holds(registry, Expression(p), SatisfiedMechanisms(schemes, satisfied)))
  {
    CompilePreservesMeaning(registry, cap, p, csrf, SatisfiedMechanisms(schemes, satisfied));
    ProjectionPreservesMeaning(schemes, Compile(registry, cap, p, csrf).value, satisfied);
  }

  // ------------------------------------------------------------ when projection refuses

  /** The participant asks scopes although one of its schemes cannot express any. */
  predicate AsksInexpressible(schemes: SchemeSet, r: Requirement)
    requires r.name in schemes.primary
  {
    && r.scopes != []
    && exists p :: 0 <= p < |Candidates(schemes, r.name)| && Candidates(schemes, r.name)[p].1.kind !in {"oauth2", "openIdConnect"}
  }

  predicate CanUse(schemes: SchemeSet, r: Requirement, scheme: string)
    requires r.name in schemes.primary
  {
    exists p :: 0 <= p < |Candidates(schemes, r.name)| && Candidates(schemes, r.name)[p].0 == scheme
  }

  /** Two participants that can be met by one and the same scheme ask different scopes of it. */
  ghost predicate Clash(schemes: SchemeSet, a: Requirement, b: Requirement)
    requires a.name in schemes.primary && b.name in schemes.primary
  {
    a.scopes != b.scopes && exists scheme :: CanUse(schemes, a, scheme) && CanUse(schemes, b, scheme)
  }

  ghost predicate Refused(schemes: SchemeSet, alternative: seq<Requirement>)
    requires Covered(schemes, alternative)
  {
    || (exists i :: 0 <= i < |alternative| && AsksInexpressible(schemes, alternative[i]))
    || (exists i, j :: 0 <= i < j < |alternative| && Clash(schemes, alternative[i], alternative[j]))
  }

  lemma PrependMembers(head: Choice, tails: seq<seq<Choice>>, c: seq<Choice>)
    ensures c in Prepend(head, tails) <==> c != [] && c[0] == head && c[1..] in tails
  {
    forall i | 0 <= i < |tails| ensures Prepend(head, tails)[i] == [head] + tails[i] && ([head] + tails[i])[1..] == tails[i] {}
    if c != [] && c[0] == head && c[1..] in tails {
      var i :| 0 <= i < |tails| && tails[i] == c[1..];
      assert c == [head] + c[1..];
      assert Prepend(head, tails)[i] == c;
    }
  }

  lemma {:induction false} SpreadMembers(heads: seq<Choice>, tails: seq<seq<Choice>>, c: seq<Choice>)
    ensures c in Spread(heads, tails) <==> c != [] && c[0] in heads && c[1..] in tails
  {
    if heads != [] {
      PrependMembers(heads[0], tails, c);
      SpreadMembers(heads[1..], tails, c);
      assert heads == [heads[0]] + heads[1..];
    }
  }

  /** The product holds exactly the combinations with one choice from each factor. */
  lemma {:induction false} ProductMembers(options: seq<seq<Choice>>, c: seq<Choice>)
    ensures c in Product(options) <==> |c| == |options| && forall i :: 0 <= i < |options| ==> c[i] in options[i]
  {
    if options != [] {
      SpreadMembers(options[0], Product(options[1..]), c);
      if c != [] {
        ProductMembers(options[1..], c[1..]);
        assert forall i :: 1 <= i < |c| ==> c[i] == c[1..][i - 1];
        assert forall i :: 1 <= i < |options| ==> options[i] == options[1..][i - 1];
      }
    }
  }

  lemma {:induction false} CombineAllExactly(combinations: seq<seq<Choice>>)
    ensures CombineAll(combinations).Ok? <==> forall i :: 0 <= i < |combinations| ==> Combine(combinations[i]).Ok?
  {
    if combinations != [] {
      var n := |combinations| - 1;
      CombineAllExactly(combinations[..n]);
      assert forall i :: 0 <= i < n ==> combinations[..n][i] == combinations[i];
    }
  }

  lemma {:induction false} AllChoicesExactly(schemes: SchemeSet, alternative: seq<Requirement>)
    requires Covered(schemes, alternative)
    ensures AllChoices(schemes, alternative).Ok? <==>
            forall i :: 0 <= i < |alternative| ==> !AsksInexpressible(schemes, alternative[i])
    ensures AllChoices(schemes, alternative).Ok? ==>
              var options := AllChoices(schemes, alternative).value;
              && |options| == |alternative|
              && forall i :: 0 <= i < |alternative| ==>
                   options[i] == Choices(Candidates(schemes, alternative[i].name), alternative[i].scopes)
  {
    if alternative != [] {
      var n := |alternative| - 1;
      AllChoicesExactly(schemes, alternative[..n]);
      assert forall i :: 0 <= i < n ==> alternative[..n][i] == alternative[i];
    }
  }

  /** A combination is one choice per participant; it asks one scheme for two scope lists only if two participants clash. */
  lemma RefusedCombinationClashes(schemes: SchemeSet, alternative: seq<Requirement>, c: seq<Choice>)
    requires Covered(schemes, alternative) && AllChoices(schemes, alternative).Ok?
    requires c in Product(AllChoices(schemes, alternative).value) && Combine(c).Misconfigured?
    ensures exists i, j :: 0 <= i < j < |alternative| && Clash(schemes, alternative[i], alternative[j])
  {
    var options := AllChoices(schemes, alternative).value;
    AllChoicesExactly(schemes, alternative);
    ProductMembers(options, c);
    CombineFailsExactly(c);
    var i, j :| 0 <= i < j < |c| && c[i].scheme == c[j].scheme && c[i].scopes != c[j].scopes;
    assert c[i] in options[i] && c[j] in options[j];
    assert CanUse(schemes, alternative[i], c[i].scheme) && CanUse(schemes, alternative[j], c[i].scheme);
    assert Clash(schemes, alternative[i], alternative[j]);
  }

  /** The first choice of every factor but two. */
  function Picking(options: seq<seq<Choice>>, i: nat, x: Choice, j: nat, y: Choice): seq<Choice>
    requires forall k :: 0 <= k < |options| ==> options[k] != []
  {
    seq(|options|, k requires 0 <= k < |options| => if k == i then x else if k == j then y else options[k][0])
  }

  /** Clashing participants do meet in some combination, and that one is refused. */
  lemma ClashIsRefused(schemes: SchemeSet, alternative: seq<Requirement>, i: nat, j: nat) returns (c: seq<Choice>)
    requires Covered(schemes, alternative) && AllChoices(schemes, alternative).Ok?
    requires i < j < |alternative| && Clash(schemes, alternative[i], alternative[j])
    ensures c in Product(AllChoices(schemes, alternative).value) && Combine(c).Misconfigured?
  {
    var options := AllChoices(schemes, alternative).value;
    AllChoicesExactly(schemes, alternative);
    var scheme :| CanUse(schemes, alternative[i], scheme) && CanUse(schemes, alternative[j], scheme);
    var x := OffersScheme(schemes, alternative[i], scheme);
    var y := OffersScheme(schemes, alternative[j], scheme);
    c := Picking(options, i, x, j, y);
    ProductMembers(options, c);
    CombineFailsExactly(c);
    assert c[i] == x && c[j] == y;
  }

  lemma OffersScheme(schemes: SchemeSet, r: Requirement, scheme: string) returns (x: Choice)
    requires r.name in schemes.primary && CanUse(schemes, r, scheme)
    ensures x == Choice(scheme, r.scopes) && x in Choices(Candidates(schemes, r.name), r.scopes)
  {
    var candidates := Candidates(schemes, r.name);
    var p :| 0 <= p < |candidates| && candidates[p].0 == scheme;
    x := Choices(candidates, r.scopes)[p];
  }

  lemma AlternativeRefusedExactly(schemes: SchemeSet, alternative: seq<Requirement>)
    requires Covered(schemes, alternative)
    ensures ProjectAlternative(schemes, alternative).Misconfigured? <==> Refused(schemes, alternative)
  {
    AllChoicesExactly(schemes, alternative);
    if AllChoices(schemes, alternative).Ok? {
      var product := Product(AllChoices(schemes, alternative).value);
      CombineAllExactly(product);
      if k :| 0 <= k < |product| && Combine(product[k]).Misconfigured? {
        RefusedCombinationClashes(schemes, alternative, product[k]);
      }
      if i, j :| 0 <= i < j < |alternative| && Clash(schemes, alternative[i], alternative[j]) {
        var c := ClashIsRefused(schemes, alternative, i, j);
      }
    }
  }

  lemma {:induction false} AlternativesRefusedExactly(schemes: SchemeSet, alternatives: seq<seq<Requirement>>)
    requires AllCovered(schemes, alternatives)
    ensures ProjectAlternatives(schemes, alternatives).Misconfigured? <==>
            exists k :: 0 <= k < |alternatives| && Refused(schemes, alternatives[k])
  {
    if alternatives != [] {
      var n := |alternatives| - 1;
      AlternativesRefusedExactly(schemes, alternatives[..n]);
      AlternativeRefusedExactly(schemes, alternatives[n]);
      assert forall k :: 0 <= k < n ==> alternatives[..n][k] == alternatives[k];
    }
  }

  /**
   Projection refuses a plan exactly when some alternative has a participant that asks scopes
   although one of its schemes cannot express them, or two participants that can be met by
   one scheme and ask different scopes.
   */
  lemma ProjectionRefusesExactly(schemes: SchemeSet, plan: Plan)
    requires AllCovered(schemes, plan.alternatives)
    ensures Project(schemes, plan).Misconfigured? <==>
            plan.authenticate && exists k :: 0 <= k < |plan.alternatives| && Refused(schemes, plan.alternatives[k])
  {
    AlternativesRefusedExactly(schemes, plan.alternatives);
  }

  // --------------------------------------------------- what the requirements document

  /** The requirement names exactly the combination's schemes, each with the scopes asked of it. */
  ghost predicate Collects(combination: seq<Choice>, m: SecurityRequirement) {
    && (forall k :: k in m <==> exists i :: 0 <= i < |combination| && combination[i].scheme == k)
    && (forall i :: 0 <= i < |combination| ==> combination[i].scheme in m && m[combination[i].scheme] == combination[i].scopes)
  }

  lemma CollectsMore(combination: seq<Choice>, n: nat, before: SecurityRequirement)
    requires n < |combination| && Collects(combination[..n], before)
    requires combination[n].scheme in before ==> before[combination[n].scheme] == combination[n].scopes
    ensures Collects(combination[..n + 1], before[combination[n].scheme := combination[n].scopes])
  {
    var m, more := before[combination[n].scheme := combination[n].scopes], combination[..n + 1];
    assert forall i :: 0 <= i < n ==> combination[..n][i] == more[i];
    forall k ensures k in m <==> exists i :: 0 <= i < |more| && more[i].scheme == k {
      assert k in m <==> k in before || k == more[n].scheme;
    }
  }

  lemma {:induction false} CombineCollects(combination: seq<Choice>)
    requires Combine(combination).Ok?
    ensures Collects(combination, Combine(combination).value)
  {
    if combination != [] {
      var n := |combination| - 1;
      CombineCollects(combination[..n]);
      assert combination[..n + 1] == combination;
      CollectsMore(combination, n, Combine(combination[..n]).value);
    }
  }

  lemma CollectionIsUnique(combination: seq<Choice>, m: SecurityRequirement, m': SecurityRequirement)
    requires Collects(combination, m) && Collects(combination, m')
    ensures m == m'
  {
    assert forall k :: k in m <==> k in m';
    forall k | k in m ensures m[k] == m'[k] {
      var i :| 0 <= i < |combination| && combination[i].scheme == k;
    }
  }

  lemma {:induction false} CombineAllContents(combinations: seq<seq<Choice>>, m: SecurityRequirement)
    requires CombineAll(combinations).Ok?
    ensures m in CombineAll(combinations).value <==> exists i :: 0 <= i < |combinations| && Collects(combinations[i], m)
  {
    if combinations != [] {
      var n := |combinations| - 1;
      CombineAllContents(combinations[..n], m);
      CombineCollects(combinations[n]);
      assert forall i :: 0 <= i < n ==> combinations[..n][i] == combinations[i];
      if Collects(combinations[n], m) {
        CollectionIsUnique(combinations[n], m, Combine(combinations[n]).value);
      }
      assert m in CombineAll(combinations).value
        <==> m in CombineAll(combinations[..n]).value || m == Combine(combinations[n]).value;
    }
  }

  /** For every participant the index of one of the schemes that can stand for it. */
  predicate Picks(schemes: SchemeSet, alternative: seq<Requirement>, picks: seq<nat>)
    requires Covered(schemes, alternative)
  {
    |picks| == |alternative| && forall i :: 0 <= i < |picks| ==> picks[i] < |Candidates(schemes, alternative[i].name)|
  }

  function PickedScheme(schemes: SchemeSet, alternative: seq<Requirement>, picks: seq<nat>, i: nat): string
    requires Covered(schemes, alternative) && Picks(schemes, alternative, picks) && i < |picks|
  {
    Candidates(schemes, alternative[i].name)[picks[i]].0
  }

  /** The requirement names exactly the picked schemes, each with the scopes of the participants it was picked for. */
  ghost predicate Documents(schemes: SchemeSet, alternative: seq<Requirement>, picks: seq<nat>, m: SecurityRequirement)
    requires Covered(schemes, alternative) && Picks(schemes, alternative, picks)
  {
    && (forall k :: k in m <==> exists i :: 0 <= i < |picks| && PickedScheme(schemes, alternative, picks, i) == k)
    && (forall i :: 0 <= i < |picks| ==>
          var k := PickedScheme(schemes, alternative, picks, i); k in m && m[k] == alternative[i].scopes)
  }

  ghost predicate DocumentsSome(schemes: SchemeSet, alternative: seq<Requirement>, m: SecurityRequirement)
    requires Covered(schemes, alternative)
  {
    exists picks :: Picks(schemes, alternative, picks) && Documents(schemes, alternative, picks, m)
  }

  function Picked(schemes: SchemeSet, alternative: seq<Requirement>, picks: seq<nat>): seq<Choice>
    requires Covered(schemes, alternative) && Picks(schemes, alternative, picks)
  {
    seq(|picks|, i requires 0 <= i < |picks| => Choice(PickedScheme(schemes, alternative, picks, i), alternative[i].scopes))
  }

  lemma PickedCollects(schemes: SchemeSet, alternative: seq<Requirement>, picks: seq<nat>, m: SecurityRequirement)
    requires Covered(schemes, alternative) && Picks(schemes, alternative, picks)
    ensures Collects(Picked(schemes, alternative, picks), m) <==> Documents(schemes, alternative, picks, m)
  {
    var c := Picked(schemes, alternative, picks);
    assert forall i :: 0 <= i < |picks| ==>
      c[i].scheme == PickedScheme(schemes, alternative, picks, i) && c[i].scopes == alternative[i].scopes;
  }

  /** The combinations of an alternative are the ways to pick a scheme for each participant. */
  lemma PickedInProduct(schemes: SchemeSet, alternative: seq<Requirement>, picks: seq<nat>)
    requires Covered(schemes, alternative) && AllChoices(schemes, alternative).Ok? && Picks(schemes, alternative, picks)
    ensures Picked(schemes, alternative, picks) in Product(AllChoices(schemes, alternative).value)
  {
    AllChoicesExactly(schemes, alternative);
    var options := AllChoices(schemes, alternative).value;
    var c := Picked(schemes, alternative, picks);
    forall i | 0 <= i < |options| ensures c[i] in options[i] {
      assert options[i][picks[i]] == c[i];
    }
    ProductMembers(options, c);
  }

  lemma ProductIsPicked(schemes: SchemeSet, alternative: seq<Requirement>, c: seq<Choice>) returns (picks: seq<nat>)
    requires Covered(schemes, alternative) && AllChoices(schemes, alternative).Ok?
    requires c in Product(AllChoices(schemes, alternative).value)
    ensures Picks(schemes, alternative, picks) && c == Picked(schemes, alternative, picks)
  {
    AllChoicesExactly(schemes, alternative);
    var options := AllChoices(schemes, alternative).value;
    ProductMembers(options, c);
    forall i | 0 <= i < |c| ensures exists p: nat :: p < |options[i]| && options[i][p] == c[i] {
      assert c[i] in options[i];
    }
    picks := seq(|c|, i requires 0 <= i < |c| => var p: nat :| p < |options[i]| && options[i][p] == c[i]; p);
    assert forall i :: 0 <= i < |c| ==> options[i][picks[i]] == c[i];
  }

  lemma CollectedIsDocumented(schemes: SchemeSet, alternative: seq<Requirement>, c: seq<Choice>, m: SecurityRequirement)
    requires Covered(schemes, alternative) && AllChoices(schemes, alternative).Ok?
    requires c in Product(AllChoices(schemes, alternative).value) && Collects(c, m)
    ensures DocumentsSome(schemes, alternative, m)
  {
    var picks := ProductIsPicked(schemes, alternative, c);
    PickedCollects(schemes, alternative, picks, m);
  }

  lemma DocumentedIsCollected(schemes: SchemeSet, alternative: seq<Requirement>, m: SecurityRequirement) returns (c: seq<Choice>)
    requires Covered(schemes, alternative) && AllChoices(schemes, alternative).Ok? && DocumentsSome(schemes, alternative, m)
    ensures c in Product(AllChoices(schemes, alternative).value) && Collects(c, m)
  {
    var picks :| Picks(schemes, alternative, picks) && Documents(schemes, alternative, picks, m);
    PickedCollects(schemes, alternative, picks, m);
    PickedInProduct(schemes, alternative, picks);
    c := Picked(schemes, alternative, picks);
  }

  lemma AlternativeContents(schemes: SchemeSet, alternative: seq<Requirement>, m: SecurityRequirement)
    requires Covered(schemes, alternative) && ProjectAlternative(schemes, alternative).Ok?
    ensures m in ProjectAlternative(schemes, alternative).value <==> DocumentsSome(schemes, alternative, m)
  {
    var product := Product(AllChoices(schemes, alternative).value);
    CombineAllContents(product, m);
    if m in ProjectAlternative(schemes, alternative).value {
      var i :| 0 <= i < |product| && Collects(product[i], m);
      CollectedIsDocumented(schemes, alternative, product[i], m);
    }
    if DocumentsSome(schemes, alternative, m) {
      var c := DocumentedIsCollected(schemes, alternative, m);
      var i :| 0 <= i < |product| && product[i] == c;
    }
  }

  lemma {:induction false} AlternativesContents(schemes: SchemeSet, alternatives: seq<seq<Requirement>>, m: SecurityRequirement)
    requires AllCovered(schemes, alternatives) && ProjectAlternatives(schemes, alternatives).Ok?
    ensures m in ProjectAlternatives(schemes, alternatives).value <==>
            exists k :: 0 <= k < |alternatives| && DocumentsSome(schemes, alternatives[k], m)
  {
    if alternatives != [] {
      var n := |alternatives| - 1;
      AlternativesContents(schemes, alternatives[..n], m);
      AlternativeContents(schemes, alternatives[n], m);
      assert forall k :: 0 <= k < n ==> alternatives[..n][k] == alternatives[k];
    }
  }

  /**
   The documented list holds exactly these requirements: the empty one if anonymous access is
   allowed, and for every alternative and every pick of a scheme for each of its participants
   the one that names the picked schemes, each with the scopes asked of it.
   */
  lemma ProjectionDocumentsExactly(schemes: SchemeSet, plan: Plan, m: SecurityRequirement)
    requires AllCovered(schemes, plan.alternatives) && Project(schemes, plan).Ok?
    ensures m in Project(schemes, plan).value <==>
            if !plan.authenticate then m == map[]
            else
              || (plan.allowAnonymous && m == map[])
              || exists k :: 0 <= k < |plan.alternatives| && DocumentsSome(schemes, plan.alternatives[k], m)
  {
    if plan.authenticate {
      AlternativesContents(schemes, plan.alternatives, m);
    }
  }

  // ------------------------------------------------------------- the projection as code

  lemma {:induction false} RegistryFailureSticks(docs: seq<MechanismDoc>, n: nat)
    requires n <= |docs| && FromRegistry(docs[..n]).Misconfigured?
    ensures FromRegistry(docs).Misconfigured?
    decreases |docs|
  {
    if n < |docs| {
      var before := docs[..|docs| - 1];
      assert before[..n] == docs[..n];
      RegistryFailureSticks(before, n);
    } else {
      assert docs[..n] == docs;
    }
  }

  lemma {:induction false} UseFailureSticks(unique: Result<map<string, Scheme>>, uses: seq<(string, Scheme)>, n: nat)
    requires n <= |uses| && RegisterAll(unique, uses[..n]).Misconfigured?
    ensures RegisterAll(unique, uses).Misconfigured?
    decreases |uses|
  {
    if n < |uses| {
      var before := uses[..|uses| - 1];
      assert before[..n] == uses[..n];
      UseFailureSticks(unique, before, n);
    } else {
      assert uses[..n] == uses;
    }
  }

  /** One mechanism's schemes into the table of unique ones. */
  method RegisterUses(unique: map<string, Scheme>, uses: seq<(string, Scheme)>) returns (r: Result<map<string, Scheme>>)
    ensures r == RegisterAll(Ok(unique), uses)
  {
    var table := unique;
    for i := 0 to |uses|
      invariant RegisterAll(Ok(unique), uses[..i]) == Ok(table)
    {
      assert uses[..i + 1][..i] == uses[..i];
      if uses[i].0 in table && table[uses[i].0] != uses[i].1 {
        UseFailureSticks(Ok(unique), uses, i + 1);
        return Misconfigured;
      }
      table := table[uses[i].0 := uses[i].1];
    }
    assert uses[..|uses|] == uses;
    r := Ok(table);
  }

  /** The loop over the registry, filling the three tables. */
  method CompileSchemes(docs: seq<MechanismDoc>) returns (r: Result<SchemeSet>)
    ensures r == FromRegistry(docs)
  {
    var primary: map<string, (string, Scheme)> := map[];
    var additional: map<string, seq<(string, Scheme)>> := map[];
    var unique: map<string, Scheme> := map[];
    for i := 0 to |docs|
      invariant FromRegistry(docs[..i]) == Ok(SchemeSet(primary, additional, unique))
    {
      var doc := docs[i];
      assert docs[..i + 1][..i] == docs[..i];
      if doc.scheme.None? {
        RegistryFailureSticks(docs, i + 1);
        return Misconfigured;
      }
      var table := RegisterUses(unique, [doc.scheme.value] + doc.extra);
      if table.Misconfigured? {
        RegistryFailureSticks(docs, i + 1);
        return Misconfigured;
      }
      unique := table.value;
      primary := primary[doc.name := doc.scheme.value];
      if doc.extra != [] {
        additional := additional[doc.name := doc.extra];
      }
    }
    assert docs[..|docs|] == docs;
    r := Ok(SchemeSet(primary, additional, unique));
  }

  /** Nested loops over alternatives and participants, filling lists. */
  method ProjectPlan(schemes: SchemeSet, plan: Plan) returns (r: Result<seq<SecurityRequirement>>)
    requires AllCovered(schemes, plan.alternatives)
    ensures r == Project(schemes, plan)
  {
    if !plan.authenticate {
      return Ok([map[]]);
    }
    var anonymous: seq<SecurityRequirement> := if plan.allowAnonymous then [map[]] else [];
    var projection: seq<SecurityRequirement> := [];
    for i := 0 to |plan.alternatives|
      invariant ProjectAlternatives(schemes, plan.alternatives[..i]) == Ok(projection)
    {
      var alternative := plan.alternatives[i];
      assert plan.alternatives[..i + 1][..i] == plan.alternatives[..i];
      assert AllCovered(schemes, plan.alternatives[..i + 1]);
      var combined := ProjectOne(schemes, alternative);
      if combined.Misconfigured? {
        ProjectionFailureSticks(schemes, plan.alternatives, i + 1);
        return Misconfigured;
      }
      projection := projection + combined.value;
    }
    assert plan.alternatives[..|plan.alternatives|] == plan.alternatives;
    r := Ok(anonymous + projection);
  }

  method ProjectOne(schemes: SchemeSet, alternative: seq<Requirement>) returns (r: Result<seq<SecurityRequirement>>)
    requires Covered(schemes, alternative)
    ensures r == ProjectAlternative(schemes, alternative)
  {
    var options := CollectChoices(schemes, alternative);
    if options.Misconfigured? {
      return Misconfigured;
    }
    r := CollectRequirements(Product(options.value));
  }

  lemma {:induction false} ProjectionFailureSticks(schemes: SchemeSet, alternatives: seq<seq<Requirement>>, n: nat)
    requires n <= |alternatives| && AllCovered(schemes, alternatives)
    requires ProjectAlternatives(schemes, alternatives[..n]).Misconfigured?
    ensures ProjectAlternatives(schemes, alternatives).Misconfigured?
    decreases |alternatives|
  {
    if n < |alternatives| {
      var before := alternatives[..|alternatives| - 1];
      assert before[..n] == alternatives[..n];
      ProjectionFailureSticks(schemes, before, n);
    } else {
      assert alternatives[..n] == alternatives;
    }
  }

  method CollectChoices(schemes: SchemeSet, alternative: seq<Requirement>) returns (r: Result<seq<seq<Choice>>>)
    requires Covered(schemes, alternative)
    ensures r == AllChoices(schemes, alternative)
  {
    var options: seq<seq<Choice>> := [];
    for i := 0 to |alternative|
      invariant AllChoices(schemes, alternative[..i]) == Ok(options)
    {
      assert alternative[..i + 1][..i] == alternative[..i];
      var choices := ParticipantChoices(schemes, alternative[i]);
      if choices.Misconfigured? {
        ChoiceFailureSticks(schemes, alternative, i + 1);
        return Misconfigured;
      }
      options := options + [choices.value];
    }
    assert alternative[..|alternative|] == alternative;
    r := Ok(options);
  }

  lemma {:induction false} ChoiceFailureSticks(schemes: SchemeSet, alternative: seq<Requirement>, n: nat)
    requires n <= |alternative| && Covered(schemes, alternative) && AllChoices(schemes, alternative[..n]).Misconfigured?
    ensures AllChoices(schemes, alternative).Misconfigured?
    decreases |alternative|
  {
    if n < |alternative| {
      var before := alternative[..|alternative| - 1];
      assert before[..n] == alternative[..n];
      ChoiceFailureSticks(schemes, before, n);
    } else {
      assert alternative[..n] == alternative;
    }
  }

  method CollectRequirements(combinations: seq<seq<Choice>>) returns (r: Result<seq<SecurityRequirement>>)
    ensures r == CombineAll(combinations)
  {
    var list: seq<SecurityRequirement> := [];
    for i := 0 to |combinations|
      invariant CombineAll(combinations[..i]) == Ok(list)
    {
      assert combinations[..i + 1][..i] == combinations[..i];
      var combined := Combine(combinations[i]);
      if combined.Misconfigured? {
        CombineFailureSticks(combinations, i + 1);
        return Misconfigured;
      }
      list := list + [combined.value];
    }
    assert combinations[..|combinations|] == combinations;
    r := Ok(list);
  }

  lemma {:induction false} CombineFailureSticks(combinations: seq<seq<Choice>>, n: nat)
    requires n <= |combinations| && CombineAll(combinations[..n]).Misconfigured?
    ensures CombineAll(combinations).Misconfigured?
    decreases |combinations|
  {
    if n < |combinations| {
      var before := combinations[..|combinations| - 1];
      assert before[..n] == combinations[..n];
      CombineFailureSticks(before, n);
    } else {
      assert combinations[..n] == combinations;
    }
  }
}
