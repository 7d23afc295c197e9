/**
 Content Security Policy: construction, serialization, and the parser of section 2.2.1 of
 CSP Level 3 as the independent definition of what the serialized value means.
 */
module Csp {
  import opened Prelude

  datatype Directive = Directive(name: string, sources: seq<string>)

  datatype Policy = Policy(directives: seq<Directive>, nonceDirectives: seq<string>)

  datatype Fault = InvalidDirective(name: string) | InvalidSource(source: string) | NotConfigured(name: string) | MissingNonce

  datatype Outcome<+T> = Ok(value: T) | Fail(fault: Fault)

  // ------------------------------------------------------------------------ validation

  /** The names matched by `[a-z][a-z0-9-]*`. */
  predicate DirectiveToken(name: string) {
    name != "" && 'a' <= name[0] <= 'z' && forall c :: c in name ==> 'a' <= c <= 'z' || '0' <= c <= '9' || c == '-'
  }

  const LETTERS := "abcdefghijklmnopqrstuvwxyz"

  /** A directive name is a lower-case letter and then letters, digits and hyphens. */
  lemma DirectiveTokenMeans(name: string)
    ensures DirectiveToken(name) <==>
            name != "" && name[0] in LETTERS && forall c :: c in name ==> c in LETTERS || c in "0123456789-"
  {
  }

  /** Unicode white space as the language's own string test has it. */
  predicate IsSpace(c: char) {
    var p := c as int;
    || 9 <= p <= 13 || 28 <= p <= 32 || p == 0x85 || p == 0xA0 || p == 0x1680 || 0x2000 <= p <= 0x200A
    || p == 0x2028 || p == 0x2029 || p == 0x202F || p == 0x205F || p == 0x3000
  }

  predicate ValidSource(source: string) {
    source != "" && forall c :: c in source ==> c != ';' && !IsSpace(c) && c as int >= 32 && c as int != 127
  }

  // ---------------------------------------------------------------------- construction

  /** Each value once, in the order of its first occurrence. */
  function Dedupe(values: seq<string>): seq<string> {
    if values == [] then []
    else
      var before := Dedupe(values[..|values| - 1]);
      if values[|values| - 1] in before then before else before + [values[|values| - 1]]
  }

  function Sources(sources: seq<string>): Outcome<seq<string>> {
    if sources == [] then Ok([])
    else
      var before, last := Sources(sources[..|sources| - 1]), sources[|sources| - 1];
      if before.Fail? then before
      else if !ValidSource(last) then Fail(InvalidSource(last))
      else Ok(Dedupe(sources))
  }

  function Normalize(directives: seq<Directive>): Outcome<seq<Directive>> {
    if directives == [] then Ok([])
    else
      var before, last := Normalize(directives[..|directives| - 1]), directives[|directives| - 1];
      if before.Fail? then before
      else if !DirectiveToken(last.name) then Fail(InvalidDirective(last.name))
      else
        match Sources(last.sources)
        case Fail(fault) => Fail(fault)
        case Ok(sources) => Ok(before.value + [Directive(last.name, sources)])
  }

  function Names(directives: seq<Directive>): seq<string> {
    seq(|directives|, i requires 0 <= i < |directives| => directives[i].name)
  }

  /** The first nonce directive that is malformed or not configured. */
  function NonceFault(nonces: seq<string>, names: seq<string>): Option<Fault> {
    if nonces == [] then None
    else
      var before, last := NonceFault(nonces[..|nonces| - 1], names), nonces[|nonces| - 1];
      if before.Some? then before
      else if !DirectiveToken(last) then Some(InvalidDirective(last))
      else if last !in names then Some(NotConfigured(last))
      else None
  }

  /** Code-point order of strings. */
  predicate Before(a: string, b: string)
    decreases |a|
  {
    b != "" && (a == "" || a[0] < b[0] || (a[0] == b[0] && Before(a[1..], b[1..])))
  }

  function Insert(d: Directive, sorted: seq<Directive>): seq<Directive> {
    if sorted == [] then [d]
    else if Before(sorted[0].name, d.name) then [sorted[0]] + Insert(d, sorted[1..])
    else [d] + sorted
  }

  function SortByName(directives: seq<Directive>): seq<Directive> {
    if directives == [] then [] else Insert(directives[0], SortByName(directives[1..]))
  }

  function Build(directives: seq<Directive>, nonces: seq<string>): Outcome<Policy> {
    match Normalize(directives)
    case Fail(fault) => Fail(fault)
    case Ok(normalized) =>
      match NonceFault(Dedupe(nonces), Names(normalized))
      case Some(fault) => Fail(fault)
      case None => Ok(Policy(SortByName(normalized), Dedupe(nonces)))
  }

  ghost predicate DistinctNames(directives: seq<Directive>) {
    forall i, j :: 0 <= i < j < |directives| ==> directives[i].name != directives[j].name
  }

  lemma {:induction false} DedupeMeans(values: seq<string>)
    ensures forall v :: v in Dedupe(values) <==> v in values
    ensures forall i, j :: 0 <= i < j < |Dedupe(values)| ==> Dedupe(values)[i] != Dedupe(values)[j]
    ensures |Dedupe(values)| <= |values|
  {
    if values != [] {
      DedupeMeans(values[..|values| - 1]);
      assert values == values[..|values| - 1] + [values[|values| - 1]];
    }
  }

  function FirstAt(values: seq<string>, v: string): (k: nat)
    requires v in values
    ensures k < |values| && values[k] == v && forall i :: 0 <= i < k ==> values[i] != v
  {
    if values[0] == v then 0
    else
      assert values == [values[0]] + values[1..];
      1 + FirstAt(values[1..], v)
  }

  /** Deduplication keeps the order of first occurrences. */
  lemma {:induction false} DedupeInOrder(values: seq<string>, i: nat, j: nat)
    requires i < j < |Dedupe(values)|
    ensures Dedupe(values)[i] in values && Dedupe(values)[j] in values
    ensures FirstAt(values, Dedupe(values)[i]) < FirstAt(values, Dedupe(values)[j])
  {
    DedupeMeans(values);
    var before, d := values[..|values| - 1], Dedupe(values);
    DedupeMeans(before);
    assert d[i] in d && d[j] in d && d[i] in before;
    var first := FirstAt(before, d[i]);
    assert before[first] == values[first];
    if j < |Dedupe(before)| {
      DedupeInOrder(before, i, j);
      var k := FirstAt(before, d[j]);
      assert forall m :: 0 <= m < k ==> before[m] == values[m];
    } else {
      assert forall m :: 0 <= m < |before| ==> before[m] in before && before[m] == values[m];
    }
  }

  // Lexicographic order.

  lemma {:induction false} BeforeTrichotomy(a: string, b: string)
    ensures Before(a, b) || a == b || Before(b, a)
    decreases |a|
  {
    if a != "" && b != "" && a[0] == b[0] {
      BeforeTrichotomy(a[1..], b[1..]);
      assert a == [a[0]] + a[1..] && b == [b[0]] + b[1..];
    }
  }

  lemma {:induction false} BeforeTransitive(a: string, b: string, c: string)
    requires Before(a, b) && Before(b, c)
    ensures Before(a, c)
    decreases |a|
  {
    if a != "" && a[0] == b[0] && b[0] == c[0] {
      BeforeTransitive(a[1..], b[1..], c[1..]);
    }
  }

  lemma {:induction false} BeforeIrreflexive(a: string)
    ensures !Before(a, a)
    decreases |a|
  {
    if a != "" {
      BeforeIrreflexive(a[1..]);
    }
  }

  /** Code-point order: at the first difference the smaller code point, or the end of the string, comes first. */
  lemma {:induction false} BeforeMeans(a: string, b: string)
    ensures Before(a, b) <==>
            exists k :: 0 <= k <= |a| && k < |b| && a[..k] == b[..k] && (k == |a| || (a[k] as int) < (b[k] as int))
    decreases |a|
  {
    forall k | 0 < k <= |a| && k < |b| && a[..k] == b[..k] ensures a[0] == b[0] {
      assert a[..k][0] == a[0] && b[..k][0] == b[0];
    }
    if a == "" || b == "" || a[0] != b[0] {
      assert a[..0] == b[..0];
    } else {
      BeforeMeans(a[1..], b[1..]);
      forall k | 0 <= k <= |a[1..]| && k < |b[1..]| ensures a[1..][..k] == b[1..][..k] <==> a[..k + 1] == b[..k + 1] {
        assert a[..k + 1] == [a[0]] + a[1..][..k] && b[..k + 1] == [b[0]] + b[1..][..k];
      }
      if k :| 0 <= k <= |a[1..]| && k < |b[1..]| && a[1..][..k] == b[1..][..k]
              && (k == |a[1..]| || (a[1..][k] as int) < (b[1..][k] as int)) {
        assert a[..k + 1] == b[..k + 1] && (k + 1 == |a| || (a[k + 1] as int) < (b[k + 1] as int));
      }
      if k :| 0 <= k <= |a| && k < |b| && a[..k] == b[..k] && (k == |a| || (a[k] as int) < (b[k] as int)) {
        assert k > 0 && a[1..][..k - 1] == b[1..][..k - 1];
      }
    }
  }

  ghost predicate Ascending(directives: seq<Directive>) {
    forall i, j :: 0 <= i < j < |directives| ==> Before(directives[i].name, directives[j].name)
  }

  lemma {:induction false} InsertAdds(d: Directive, sorted: seq<Directive>)
    ensures multiset(Insert(d, sorted)) == multiset(sorted) + multiset{d}
  {
    if sorted != [] {
      InsertAdds(d, sorted[1..]);
      assert sorted == [sorted[0]] + sorted[1..];
    }
  }

  lemma {:induction false} InsertKeepsOrder(d: Directive, sorted: seq<Directive>)
    requires Ascending(sorted) && forall i :: 0 <= i < |sorted| ==> sorted[i].name != d.name
    ensures Ascending(Insert(d, sorted))
  {
    if sorted != [] {
      var head, tail := sorted[0], sorted[1..];
      if Before(head.name, d.name) {
        InsertKeepsOrder(d, tail);
        InsertAdds(d, tail);
        var rest := Insert(d, tail);
        forall i | 0 <= i < |rest| ensures Before(head.name, rest[i].name) {
          assert rest[i] in multiset(rest);
          assert rest[i] in tail || rest[i] == d;
        }
      } else {
        BeforeTrichotomy(head.name, d.name);
        forall i | 0 <= i < |sorted| ensures Before(d.name, sorted[i].name) {
          if i > 0 { BeforeTransitive(d.name, head.name, sorted[i].name); }
        }
      }
    }
  }

  lemma HeadNameIsNew(directives: seq<Directive>, sorted: seq<Directive>)
    requires directives != [] && DistinctNames(directives) && multiset(sorted) == multiset(directives[1..])
    ensures DistinctNames(directives[1..])
    ensures forall i :: 0 <= i < |sorted| ==> sorted[i].name != directives[0].name
  {
    var tail := directives[1..];
    assert forall i :: 0 <= i < |tail| ==> tail[i] == directives[i + 1];
    forall i | 0 <= i < |sorted| ensures sorted[i].name != directives[0].name {
      assert sorted[i] in multiset(sorted);
      assert sorted[i] in tail;
    }
  }

  lemma {:induction false} SortSorts(directives: seq<Directive>)
    requires DistinctNames(directives)
    ensures Ascending(SortByName(directives)) && multiset(SortByName(directives)) == multiset(directives)
  {
    if directives != [] {
      var head, tail := directives[0], directives[1..];
      HeadNameIsNew(directives, tail);
      SortSorts(tail);
      HeadNameIsNew(directives, SortByName(tail));
      InsertKeepsOrder(head, SortByName(tail));
      InsertAdds(head, SortByName(tail));
      assert directives == [head] + tail;
    }
  }

  lemma {:induction false} SourcesExactly(sources: seq<string>)
    ensures Sources(sources).Ok? <==> forall s :: s in sources ==> ValidSource(s)
    ensures Sources(sources).Ok? ==> Sources(sources).value == Dedupe(sources)
  {
    if sources != [] {
      SourcesExactly(sources[..|sources| - 1]);
      assert sources == sources[..|sources| - 1] + [sources[|sources| - 1]];
    }
  }

  predicate ValidDirective(d: Directive) {
    DirectiveToken(d.name) && forall s :: s in d.sources ==> ValidSource(s)
  }

  lemma {:induction false} NormalizeExactly(directives: seq<Directive>)
    ensures Normalize(directives).Ok? <==> forall i :: 0 <= i < |directives| ==> ValidDirective(directives[i])
    ensures Normalize(directives).Ok? ==> |Normalize(directives).value| == |directives|
    ensures Normalize(directives).Ok? ==>
              forall i :: 0 <= i < |directives| ==>
                Normalize(directives).value[i] == Directive(directives[i].name, Dedupe(directives[i].sources))
  {
    if directives != [] {
      var last := directives[|directives| - 1];
      NormalizeExactly(directives[..|directives| - 1]);
      SourcesExactly(last.sources);
    }
  }

  lemma {:induction false} NonceFaultExactly(nonces: seq<string>, names: seq<string>)
    ensures NonceFault(nonces, names).None? <==> forall n :: n in nonces ==> DirectiveToken(n) && n in names
  {
    if nonces != [] {
      NonceFaultExactly(nonces[..|nonces| - 1], names);
      assert nonces == nonces[..|nonces| - 1] + [nonces[|nonces| - 1]];
    }
  }

  /** The fault is that of the first invalid source. */
  ghost predicate FirstBadSource(sources: seq<string>, fault: Fault) {
    exists k :: 0 <= k < |sources| && fault == InvalidSource(sources[k]) && !ValidSource(sources[k])
                && forall j :: 0 <= j < k ==> ValidSource(sources[j])
  }

  lemma {:induction false} SourcesFault(sources: seq<string>)
    ensures Sources(sources).Fail? ==> FirstBadSource(sources, Sources(sources).fault)
  {
    if sources != [] {
      var n := |sources| - 1;
      SourcesFault(sources[..n]);
      SourcesExactly(sources[..n]);
      assert forall j :: 0 <= j < n ==> sources[..n][j] == sources[j] && sources[j] in sources[..n] + sources[n..];
      if Sources(sources[..n]).Fail? {
        var k :| 0 <= k < n && Sources(sources[..n]).fault == InvalidSource(sources[..n][k]) && !ValidSource(sources[..n][k])
                 && forall j :: 0 <= j < k ==> ValidSource(sources[..n][j]);
        assert sources[k] == sources[..n][k];
      } else {
        forall j | 0 <= j < n ensures ValidSource(sources[j]) {
          assert sources[..n][j] in sources[..n];
        }
      }
    }
  }

  /** The fault is that of the first invalid directive: its name, or else its first invalid source. */
  ghost predicate FirstBadDirective(directives: seq<Directive>, fault: Fault) {
    exists k :: 0 <= k < |directives| && (forall j :: 0 <= j < k ==> ValidDirective(directives[j]))
                && if !DirectiveToken(directives[k].name) then fault == InvalidDirective(directives[k].name)
                   else FirstBadSource(directives[k].sources, fault)
  }

  lemma {:induction false} NormalizeFault(directives: seq<Directive>)
    ensures Normalize(directives).Fail? ==> FirstBadDirective(directives, Normalize(directives).fault)
  {
    if directives != [] {
      var n := |directives| - 1;
      var before := directives[..n];
      NormalizeFault(before);
      NormalizeExactly(before);
      SourcesFault(directives[n].sources);
      assert forall j :: 0 <= j < n ==> before[j] == directives[j];
      if Normalize(before).Fail? {
        var k :| 0 <= k < n && (forall j :: 0 <= j < k ==> ValidDirective(before[j]))
                 && if !DirectiveToken(before[k].name) then Normalize(before).fault == InvalidDirective(before[k].name)
                    else FirstBadSource(before[k].sources, Normalize(before).fault);
        assert directives[k] == before[k];
      }
    }
  }

  /** Construction reports the first bad directive, or else a nonce directive that is not configured. */
  lemma BuildFaultsExactly(directives: seq<Directive>, nonces: seq<string>)
    requires Build(directives, nonces).Fail?
    ensures var fault := Build(directives, nonces).fault;
            if exists i :: 0 <= i < |directives| && !ValidDirective(directives[i]) then FirstBadDirective(directives, fault)
            else exists n :: n in nonces && n !in Names(directives)
                             && fault == (if DirectiveToken(n) then NotConfigured(n) else InvalidDirective(n))
  {
    NormalizeFault(directives);
    NormalizeExactly(directives);
    if Normalize(directives).Ok? {
      assert Names(Normalize(directives).value) == Names(directives);
      DedupeMeans(nonces);
      NonceFaultIs(Dedupe(nonces), Names(directives));
      forall n | n in Names(directives) ensures DirectiveToken(n) {
        var i :| 0 <= i < |directives| && Names(directives)[i] == n;
      }
    }
  }

  lemma {:induction false} NonceFaultIs(nonces: seq<string>, names: seq<string>)
    ensures NonceFault(nonces, names).Some? ==>
              exists n :: n in nonces && NonceFault(nonces, names).value == (if DirectiveToken(n) then NotConfigured(n) else InvalidDirective(n))
                          && !(DirectiveToken(n) && n in names)
  {
    if nonces != [] {
      NonceFaultIs(nonces[..|nonces| - 1], names);
    }
  }

  ghost predicate WellFormed(policy: Policy) {
    && Ascending(policy.directives)
    && (forall d :: d in policy.directives ==> ValidDirective(d))
    && (forall n :: n in policy.nonceDirectives ==> n in Names(policy.directives))
  }

  /** The input with every source list deduplicated. */
  function Deduplicated(directives: seq<Directive>): (r: seq<Directive>)
    ensures |r| == |directives|
    ensures forall i :: 0 <= i < |r| ==> r[i] == Directive(directives[i].name, Dedupe(directives[i].sources))
  {
    seq(|directives|, i requires 0 <= i < |directives| => Directive(directives[i].name, Dedupe(directives[i].sources)))
  }

  /** Construction succeeds exactly on valid input and yields that input, sorted and deduplicated. */
  lemma BuildExactly(directives: seq<Directive>, nonces: seq<string>)
    requires DistinctNames(directives)
    ensures Build(directives, nonces).Ok? <==>
            && (forall i :: 0 <= i < |directives| ==> ValidDirective(directives[i]))
            && (forall n :: n in nonces ==> n in Names(directives))
    ensures Build(directives, nonces).Ok? ==>
              var policy := Build(directives, nonces).value;
              && WellFormed(policy) && policy.nonceDirectives == Dedupe(nonces)
              && multiset(policy.directives) == multiset(Deduplicated(directives))
  {
    NormalizeExactly(directives);
    DedupeMeans(nonces);
    if Normalize(directives).Ok? {
      var normalized := Normalize(directives).value;
      assert Names(normalized) == Names(directives);
      NonceFaultExactly(Dedupe(nonces), Names(normalized));
      assert forall n :: n in Names(directives) ==> DirectiveToken(n);
      SortedIsWellFormed(directives, normalized);
    }
  }

  lemma SortedIsWellFormed(directives: seq<Directive>, normalized: seq<Directive>)
    requires DistinctNames(directives) && normalized == Deduplicated(directives)
    requires forall i :: 0 <= i < |directives| ==> ValidDirective(directives[i])
    ensures Ascending(SortByName(normalized)) && multiset(SortByName(normalized)) == multiset(normalized)
    ensures forall d :: d in SortByName(normalized) ==> ValidDirective(d)
    ensures forall n :: n in Names(normalized) ==> n in Names(SortByName(normalized))
  {
    SortSorts(normalized);
    SortedKeepsValid(directives, normalized, SortByName(normalized));
  }

  lemma SortedKeepsValid(directives: seq<Directive>, normalized: seq<Directive>, sorted: seq<Directive>)
    requires multiset(sorted) == multiset(normalized) && |normalized| == |directives|
    requires forall i :: 0 <= i < |directives| ==> ValidDirective(directives[i])
    requires forall i :: 0 <= i < |directives| ==> normalized[i] == Directive(directives[i].name, Dedupe(directives[i].sources))
    ensures forall d :: d in sorted ==> ValidDirective(d)
    ensures forall n :: n in Names(normalized) ==> n in Names(sorted)
  {
    forall d | d in sorted ensures ValidDirective(d) {
      assert d in multiset(sorted);
      var i :| 0 <= i < |normalized| && normalized[i] == d;
      DedupeMeans(directives[i].sources);
    }
    forall n | n in Names(normalized) ensures n in Names(sorted) {
      var i :| 0 <= i < |normalized| && normalized[i].name == n;
      assert normalized[i] in multiset(sorted);
      var j :| 0 <= j < |sorted| && sorted[j] == normalized[i];
      assert Names(sorted)[j] == n;
    }
  }

  // --------------------------------------------------------------------- serialization

  function Join(separator: string, parts: seq<string>): string {
    if parts == [] then ""
    else if |parts| == 1 then parts[0]
    else parts[0] + separator + Join(separator, parts[1..])
  }

  function NonceSource(nonce: string): string {
    "'nonce-" + nonce + "'"
  }

  /** The directive a browser should see: the nonce source is appended to the nonce directives. */
  function Expected(d: Directive, nonces: seq<string>, nonce: string): Directive {
    if d.name in nonces then Directive(d.name, d.sources + [NonceSource(nonce)]) else d
  }

  function AllExpected(directives: seq<Directive>, nonces: seq<string>, nonce: string): (r: seq<Directive>)
    ensures |r| == |directives|
    ensures forall i :: 0 <= i < |r| ==> r[i] == Expected(directives[i], nonces, nonce)
  {
    seq(|directives|, i requires 0 <= i < |directives| => Expected(directives[i], nonces, nonce))
  }

  function Text(d: Directive): string {
    Join(" ", [d.name] + d.sources)
  }

  function Texts(directives: seq<Directive>): (r: seq<string>)
    ensures |r| == |directives|
    ensures forall i :: 0 <= i < |r| ==> r[i] == Text(directives[i])
  {
    seq(|directives|, i requires 0 <= i < |directives| => Text(directives[i]))
  }

  function Serialize(policy: Policy, nonce: Option<string>): Outcome<string> {
    if policy.nonceDirectives != [] && nonce.None? then Fail(MissingNonce)
    else
      var text := if nonce.Some? then nonce.value else "";
      Ok(Join("; ", Texts(AllExpected(policy.directives, policy.nonceDirectives, text))))
  }

  // --------------------------------------------- section 2.2.1 of CSP Level 3: parsing

  predicate IsAsciiWhite(c: char) {
    c as int in {9, 10, 12, 13, 32}
  }

  function StrictSplit(s: string, separator: char): (r: seq<string>)
    ensures r != []
  {
    if s == "" then [""]
    else if s[0] == separator then [""] + StrictSplit(s[1..], separator)
    else
      var rest := StrictSplit(s[1..], separator);
      [[s[0]] + rest[0]] + rest[1..]
  }

  function Strip(s: string): string {
    if s == "" then ""
    else if IsAsciiWhite(s[0]) then Strip(s[1..])
    else if IsAsciiWhite(s[|s| - 1]) then Strip(s[..|s| - 1])
    else s
  }

  /** Length of the leading run of characters other than ASCII white space. */
  function WordLength(s: string): (n: nat)
    ensures n <= |s|
  {
    if s == "" || IsAsciiWhite(s[0]) then 0 else 1 + WordLength(s[1..])
  }

  function SplitOnWhite(s: string): seq<string> {
    if s == "" then []
    else if IsAsciiWhite(s[0]) then SplitOnWhite(s[1..])
    else [s[..WordLength(s)]] + SplitOnWhite(s[WordLength(s)..])
  }

  function Lower(s: string): string {
    seq(|s|, i requires 0 <= i < |s| => if 'A' <= s[i] <= 'Z' then s[i] + 32 as char else s[i])
  }

  function ParseToken(raw: string, policy: seq<Directive>): seq<Directive> {
    var token := Strip(raw);
    if token == "" || !IsAscii(token) then policy
    else
      var n := WordLength(token);
      var name := Lower(token[..n]);
      if name in Names(policy) then policy else policy + [Directive(name, SplitOnWhite(token[n..]))]
  }

  function ParseTokens(tokens: seq<string>, policy: seq<Directive>): seq<Directive> {
    if tokens == [] then policy else ParseTokens(tokens[1..], ParseToken(tokens[0], policy))
  }

  function Parse(serialized: string): seq<Directive> {
    ParseTokens(StrictSplit(serialized, ';'), [])
  }

  // ------------------------------------------------------- serializing and parsing back

  predicate Printable(word: string) {
    word != "" && forall c :: c in word ==> c != ';' && !IsAsciiWhite(c)
  }

  ghost predicate PrintableDirective(d: Directive) {
    DirectiveToken(d.name) && forall s :: s in d.sources ==> Printable(s)
  }

  predicate AsciiDirective(d: Directive) {
    forall s :: s in d.sources ==> IsAscii(s)
  }

  function KeepAscii(directives: seq<Directive>): seq<Directive> {
    if directives == [] then []
    else if AsciiDirective(directives[0]) then [directives[0]] + KeepAscii(directives[1..])
    else KeepAscii(directives[1..])
  }

  lemma {:induction false} SplitAtFirst(a: string, b: string, separator: char)
    requires separator !in a
    ensures StrictSplit(a, separator) == [a]
    ensures StrictSplit(a + [separator] + b, separator) == [a] + StrictSplit(b, separator)
  {
    var s := a + [separator] + b;
    if a == "" {
      assert s[1..] == b;
    } else {
      assert a[0] in a && s[0] == a[0] && s[1..] == a[1..] + [separator] + b;
      SplitAtFirst(a[1..], b, separator);
      assert [a[0]] + a[1..] == a;
    }
  }

  /** The tokens of a joined text: all but the first keep the space after their semicolon. */
  function Led(lead: string, texts: seq<string>): seq<string>
    requires texts != []
    decreases |texts|
  {
    [lead + texts[0]] + if |texts| == 1 then [] else Led(" ", texts[1..])
  }

  lemma {:induction false} SplitJoined(lead: string, texts: seq<string>)
    requires texts != [] && ';' !in lead && forall t :: t in texts ==> ';' !in t
    ensures StrictSplit(lead + Join("; ", texts), ';') == Led(lead, texts)
    decreases |texts|
  {
    var first := lead + texts[0];
    assert texts[0] in texts;
    if |texts| == 1 {
      SplitAtFirst(first, "", ';');
    } else {
      var rest := Join("; ", texts[1..]);
      SplitJoined(" ", texts[1..]);
      SplitAtFirst(first, " " + rest, ';');
      assert lead + (texts[0] + "; " + rest) == first + ";" + (" " + rest);
    }
  }

  lemma {:induction false} WordThen(word: string, rest: string)
    requires (forall c :: c in word ==> !IsAsciiWhite(c)) && (rest == "" || IsAsciiWhite(rest[0]))
    ensures WordLength(word + rest) == |word|
  {
    if word == "" {
      assert word + rest == rest;
    } else {
      assert word[0] in word && (word + rest)[1..] == word[1..] + rest;
      WordThen(word[1..], rest);
    }
  }

  lemma {:induction false} SplitWords(words: seq<string>)
    requires forall w :: w in words ==> Printable(w)
    ensures SplitOnWhite(Join(" ", words)) == words
    ensures SplitOnWhite(" " + Join(" ", words)) == words
  {
    var joined := Join(" ", words);
    assert (" " + joined)[1..] == joined;
    if words != [] {
      var w, rest := words[0], if |words| == 1 then "" else " " + Join(" ", words[1..]);
      assert w in words && w[0] in w && joined == w + rest;
      WordThen(w, rest);
      assert joined[..|w|] == w && joined[|w|..] == rest;
      SplitWords(words[1..]);
      assert words == [w] + words[1..];
    }
  }

  /** Joined printable words have no semicolon and neither start nor end with white space. */
  lemma {:induction false} JoinedShape(words: seq<string>)
    requires words != [] && forall w :: w in words ==> Printable(w)
    ensures Join(" ", words) != "" && ';' !in Join(" ", words)
    ensures !IsAsciiWhite(Join(" ", words)[0]) && !IsAsciiWhite(Join(" ", words)[|Join(" ", words)| - 1])
    ensures IsAscii(Join(" ", words)) <==> forall w :: w in words ==> IsAscii(w)
  {
    var w := words[0];
    assert w in words && w[0] in w && w[|w| - 1] in w;
    if |words| > 1 {
      JoinedShape(words[1..]);
      assert words == [w] + words[1..];
      var rest := Join(" ", words[1..]);
      var joined := w + " " + rest;
      assert joined[|joined| - 1] == rest[|rest| - 1];
      assert forall c :: c in joined <==> c in w || c == ' ' || c in rest;
    }
  }

  lemma NameIsPrintable(name: string)
    requires DirectiveToken(name)
    ensures Printable(name) && IsAscii(name) && Lower(name) == name
  {
    assert forall i :: 0 <= i < |name| ==> name[i] in name;
  }

  /** One printed directive: skipped if not ASCII or already present, else read back as it was. */
  lemma ParseOne(d: Directive, lead: string, policy: seq<Directive>)
    requires PrintableDirective(d) && (lead == "" || lead == " ") && d.name !in Names(policy)
    ensures ParseToken(lead + Text(d), policy) == if AsciiDirective(d) then policy + [d] else policy
  {
    NameIsPrintable(d.name);
    var words, text := [d.name] + d.sources, Text(d);
    JoinedShape(words);
    assert Strip(lead + text) == text by {
      if lead == " " {
        assert (lead + text)[1..] == text;
      } else {
        assert lead + text == text;
      }
    }
    assert IsAscii(text) <==> AsciiDirective(d);
    var rest := if d.sources == [] then "" else " " + Join(" ", d.sources);
    assert words[1..] == d.sources && text == d.name + rest;
    WordThen(d.name, rest);
    assert text[..|d.name|] == d.name && text[|d.name|..] == rest;
    SplitWords(d.sources);
  }

  lemma TailNames(directives: seq<Directive>, policy: seq<Directive>, policy': seq<Directive>)
    requires directives != [] && DistinctNames(directives)
    requires forall d :: d in directives ==> d.name !in Names(policy)
    requires policy' == policy || policy' == policy + [directives[0]]
    ensures DistinctNames(directives[1..])
    ensures forall d :: d in directives[1..] ==> d in directives && d.name !in Names(policy')
  {
    var tail := directives[1..];
    assert forall i :: 0 <= i < |tail| ==> tail[i] == directives[i + 1];
    forall d | d in tail ensures d in directives && d.name !in Names(policy') {
      var i :| 0 <= i < |tail| && tail[i] == d;
      assert directives[i + 1] == d && directives[0].name != directives[i + 1].name;
      assert Names(policy') == Names(policy) || Names(policy') == Names(policy) + [directives[0].name];
    }
  }

  function Tokens(lead: string, directives: seq<Directive>): seq<string> {
    if directives == [] then [] else Led(lead, Texts(directives))
  }

  lemma TokensUnfold(lead: string, directives: seq<Directive>)
    requires directives != []
    ensures Tokens(lead, directives) == [lead + Text(directives[0])] + Tokens(" ", directives[1..])
  {
    assert Texts(directives)[1..] == Texts(directives[1..]);
  }

  lemma ParseUnfold(raw: string, rest: seq<string>, policy: seq<Directive>)
    ensures ParseTokens([raw] + rest, policy) == ParseTokens(rest, ParseToken(raw, policy))
  {
    assert ([raw] + rest)[1..] == rest;
  }

  lemma ParseHead(directives: seq<Directive>, lead: string, policy: seq<Directive>, kept: seq<Directive>)
    requires directives != [] && (lead == "" || lead == " ")
    requires PrintableDirective(directives[0]) && directives[0].name !in Names(policy)
    requires kept == if AsciiDirective(directives[0]) then [directives[0]] else []
    ensures ParseTokens(Tokens(lead, directives), policy) == ParseTokens(Tokens(" ", directives[1..]), policy + kept)
    ensures KeepAscii(directives) == kept + KeepAscii(directives[1..])
  {
    assert policy + kept == if AsciiDirective(directives[0]) then policy + [directives[0]] else policy;
    TokensUnfold(lead, directives);
    ParseUnfold(lead + Text(directives[0]), Tokens(" ", directives[1..]), policy);
    ParseOne(directives[0], lead, policy);
  }

  ghost predicate Unread(directives: seq<Directive>, policy: seq<Directive>) {
    && DistinctNames(directives)
    && (forall d :: d in directives ==> PrintableDirective(d))
    && (forall d :: d in directives ==> d.name !in Names(policy))
  }

  lemma UnreadTail(directives: seq<Directive>, policy: seq<Directive>, kept: seq<Directive>)
    requires directives != [] && Unread(directives, policy) && (kept == [] || kept == [directives[0]])
    ensures Unread(directives[1..], policy + kept)
    ensures PrintableDirective(directives[0]) && directives[0].name !in Names(policy)
  {
    assert directives[0] in directives;
    assert kept == [] ==> policy + kept == policy;
    TailNames(directives, policy, policy + kept);
  }

  lemma {:induction false} ParseAll(directives: seq<Directive>, lead: string, policy: seq<Directive>)
    requires Unread(directives, policy) && (lead == "" || lead == " ")
    ensures ParseTokens(Tokens(lead, directives), policy) == policy + KeepAscii(directives)
    decreases |directives|
  {
    if directives == [] {
      assert policy + [] == policy;
    } else {
      var kept := if AsciiDirective(directives[0]) then [directives[0]] else [];
      UnreadTail(directives, policy, kept);
      ParseHead(directives, lead, policy, kept);
      ParseAll(directives[1..], " ", policy + kept);
      Associates(policy, kept, KeepAscii(directives[1..]));
    }
  }

  /** Printed directives are read back as they were, except that a browser skips those that are not ASCII. */
  lemma ParsePrinted(directives: seq<Directive>)
    requires DistinctNames(directives) && forall d :: d in directives ==> PrintableDirective(d)
    ensures Parse(Join("; ", Texts(directives))) == KeepAscii(directives)
  {
    var texts := Texts(directives);
    if directives == [] {
      assert Strip("") == "";
      assert StrictSplit("", ';') == [""] && [""][1..] == [];
    } else {
      forall t | t in texts ensures ';' !in t {
        var i :| 0 <= i < |texts| && texts[i] == t;
        assert directives[i] in directives;
        NameIsPrintable(directives[i].name);
        JoinedShape([directives[i].name] + directives[i].sources);
      }
      SplitJoined("", texts);
      assert "" + Join("; ", texts) == Join("; ", texts);
      ParseAll(directives, "", []);
    }
  }

  lemma {:induction false} AscendingIsDistinct(directives: seq<Directive>)
    requires Ascending(directives)
    ensures DistinctNames(directives)
  {
    forall i, j | 0 <= i < j < |directives| ensures directives[i].name != directives[j].name {
      BeforeIrreflexive(directives[i].name);
    }
  }

  lemma NonceSourceShape(nonce: string)
    ensures Printable(NonceSource(nonce)) <==> forall c :: c in nonce ==> c != ';' && !IsAsciiWhite(c)
    ensures IsAscii(NonceSource(nonce)) <==> IsAscii(nonce)
  {
    var source := NonceSource(nonce);
    assert forall c :: c in source <==> c in "'nonce-" || c in nonce || c == '\'';
  }

  lemma ValidIsPrintable(d: Directive)
    requires ValidDirective(d)
    ensures PrintableDirective(d)
  {
  }

  /**
   What a browser makes of the header: the policy's sorted directives with their deduplicated
   sources, plus the nonce where configured, less the directives that are not ASCII.
   */
  lemma SerializedMeans(policy: Policy, nonce: string)
    requires WellFormed(policy)
    requires policy.nonceDirectives != [] ==> forall c :: c in nonce ==> c != ';' && !IsAsciiWhite(c)
    ensures Serialize(policy, Some(nonce)).Ok?
    ensures Parse(Serialize(policy, Some(nonce)).value) == KeepAscii(AllExpected(policy.directives, policy.nonceDirectives, nonce))
  {
    var expected := AllExpected(policy.directives, policy.nonceDirectives, nonce);
    AscendingIsDistinct(policy.directives);
    forall d | d in expected ensures PrintableDirective(d) {
      var i :| 0 <= i < |expected| && expected[i] == d;
      assert policy.directives[i] in policy.directives;
      ValidIsPrintable(policy.directives[i]);
      NonceSourceShape(nonce);
    }
    ParsePrinted(expected);
  }

  lemma {:induction false} KeepAsciiAll(directives: seq<Directive>)
    ensures KeepAscii(directives) == directives <==> forall d :: d in directives ==> AsciiDirective(d)
    ensures |KeepAscii(directives)| <= |directives|
  {
    if directives != [] {
      KeepAsciiAll(directives[1..]);
      assert directives == [directives[0]] + directives[1..];
    }
  }

  // What the parser can produce at all.

  lemma {:induction false} StripInside(s: string)
    ensures forall c :: c in Strip(s) ==> c in s
  {
    if s != "" {
      if IsAsciiWhite(s[0]) {
        StripInside(s[1..]);
      } else if IsAsciiWhite(s[|s| - 1]) {
        StripInside(s[..|s| - 1]);
      }
    }
  }

  lemma {:induction false} SplitInside(s: string, separator: char)
    ensures forall t, c :: t in StrictSplit(s, separator) && c in t ==> c in s && c != separator
  {
    if s != "" {
      SplitInside(s[1..], separator);
    }
  }

  lemma {:induction false} WordIsWhole(s: string)
    ensures forall c :: c in s[..WordLength(s)] ==> !IsAsciiWhite(c)
  {
    if s != "" && !IsAsciiWhite(s[0]) {
      WordIsWhole(s[1..]);
      assert s[..WordLength(s)] == [s[0]] + s[1..][..WordLength(s[1..])];
    }
  }

  lemma {:induction false} WordsInside(s: string)
    ensures forall w, c :: w in SplitOnWhite(s) && c in w ==> c in s && !IsAsciiWhite(c)
  {
    if s != "" {
      if IsAsciiWhite(s[0]) {
        WordsInside(s[1..]);
      } else {
        WordIsWhole(s);
        WordsInside(s[WordLength(s)..]);
      }
    }
  }

  ghost predicate Readable(d: Directive) {
    forall w, c :: w in d.sources && c in w ==> c != ';' && !IsAsciiWhite(c) && c as int < 128
  }

  lemma ParsedTokenIsReadable(raw: string, policy: seq<Directive>)
    requires ';' !in raw && forall d :: d in policy ==> Readable(d)
    ensures forall d :: d in ParseToken(raw, policy) ==> Readable(d)
  {
    var token := Strip(raw);
    StripInside(raw);
    WordsInside(token[WordLength(token)..]);
    assert forall c :: c in token[WordLength(token)..] ==> c in token && c in raw;
  }

  lemma {:induction false} ParsedIsReadable(tokens: seq<string>, policy: seq<Directive>)
    requires forall t, c :: t in tokens && c in t ==> c != ';'
    requires forall d :: d in policy ==> Readable(d)
    ensures forall d :: d in ParseTokens(tokens, policy) ==> Readable(d)
  {
    if tokens != [] {
      ParsedTokenIsReadable(tokens[0], policy);
      ParsedIsReadable(tokens[1..], ParseToken(tokens[0], policy));
    }
  }

  /** The nonce is fit to be a source, where there is a directive to carry it. */
  ghost predicate CleanNonce(policy: Policy, nonce: string) {
    policy.nonceDirectives != [] ==> forall c :: c in nonce ==> c != ';' && !IsAsciiWhite(c) && c as int < 128
  }

  lemma CleanMeansConfigured(policy: Policy, nonce: string, expected: seq<Directive>)
    requires WellFormed(policy) && expected == AllExpected(policy.directives, policy.nonceDirectives, nonce)
    requires (forall d :: d in policy.directives ==> AsciiDirective(d)) && CleanNonce(policy, nonce)
    ensures Parse(Serialize(policy, Some(nonce)).value) == expected
  {
    SerializedMeans(policy, nonce);
    forall d | d in expected ensures AsciiDirective(d) {
      var i :| 0 <= i < |expected| && expected[i] == d;
      assert policy.directives[i] in policy.directives;
      NonceSourceShape(nonce);
    }
    KeepAsciiAll(expected);
  }

  /** The directives as configured, the nonce source last where one is asked for. */
  ghost predicate IsConfigured(policy: Policy, nonce: string, parsed: seq<Directive>) {
    && |parsed| == |policy.directives|
    && forall i :: 0 <= i < |parsed| ==>
         && parsed[i].name == policy.directives[i].name
         && parsed[i].sources == policy.directives[i].sources
                                 + if parsed[i].name in policy.nonceDirectives then ["'nonce-" + nonce + "'"] else []
  }

  lemma ExpectedIsConfigured(policy: Policy, nonce: string, parsed: seq<Directive>)
    ensures IsConfigured(policy, nonce, parsed) <==> parsed == AllExpected(policy.directives, policy.nonceDirectives, nonce)
  {
    var expected := AllExpected(policy.directives, policy.nonceDirectives, nonce);
    assert forall d: Directive :: d.sources + [] == d.sources;
    if IsConfigured(policy, nonce, parsed) {
      assert forall i :: 0 <= i < |parsed| ==> parsed[i] == expected[i];
    }
  }

  /**
   The serialized value means exactly what was configured if and only if the sources and the
   nonce are ASCII and the nonce, which is not validated, holds no white space or semicolon.
   */
  lemma SerializedMeansConfigured(policy: Policy, nonce: string)
    requires WellFormed(policy)
    ensures IsConfigured(policy, nonce, Parse(Serialize(policy, Some(nonce)).value)) <==>
            (forall d :: d in policy.directives ==> AsciiDirective(d)) && CleanNonce(policy, nonce)
  {
    var expected := AllExpected(policy.directives, policy.nonceDirectives, nonce);
    var serialized := Serialize(policy, Some(nonce)).value;
    ExpectedIsConfigured(policy, nonce, Parse(serialized));
    if Parse(serialized) == expected {
      SplitInside(serialized, ';');
      ParsedIsReadable(StrictSplit(serialized, ';'), []);
      ReadableMeansClean(policy, nonce, expected);
    }
    if (forall d :: d in policy.directives ==> AsciiDirective(d)) && CleanNonce(policy, nonce) {
      CleanMeansConfigured(policy, nonce, expected);
    }
  }

  lemma ReadableMeansClean(policy: Policy, nonce: string, expected: seq<Directive>)
    requires WellFormed(policy) && expected == AllExpected(policy.directives, policy.nonceDirectives, nonce)
    requires forall d :: d in expected ==> Readable(d)
    ensures forall d :: d in policy.directives ==> AsciiDirective(d)
    ensures CleanNonce(policy, nonce)
  {
    forall d | d in policy.directives ensures AsciiDirective(d) {
      var i :| 0 <= i < |policy.directives| && policy.directives[i] == d;
      assert expected[i] in expected;
      assert forall s :: s in d.sources ==> s in expected[i].sources;
    }
    if policy.nonceDirectives != [] {
      var name := policy.nonceDirectives[0];
      assert name in policy.nonceDirectives;
      var i :| 0 <= i < |Names(policy.directives)| && Names(policy.directives)[i] == name;
      assert expected[i] in expected && NonceSource(nonce) in expected[i].sources;
      assert forall c :: c in nonce ==> c in NonceSource(nonce);
    }
  }

  // ------------------------------------------------------------- what the header may hold

  /** A character a header value may hold. */
  predicate Visible(c: char) {
    c as int >= 32 && c as int != 127
  }

  lemma {:induction false} JoinHolds(separator: string, parts: seq<string>)
    ensures forall c :: c in Join(separator, parts) ==> c in separator || exists p :: p in parts && c in p
  {
    if |parts| == 1 {
      assert parts[0] in parts;
    } else if parts != [] {
      JoinHolds(separator, parts[1..]);
      forall c | c in Join(separator, parts) ensures c in separator || exists p :: p in parts && c in p {
        if c in parts[0] {
          assert parts[0] in parts;
        } else if c !in separator {
          assert c in Join(separator, parts[1..]);
          var p :| p in parts[1..] && c in p;
          assert p in parts;
        }
      }
    }
  }

  lemma TextVisible(d: Directive)
    requires DirectiveToken(d.name) && forall s, c :: s in d.sources && c in s ==> Visible(c)
    ensures forall c :: c in Text(d) ==> Visible(c)
  {
    var words := [d.name] + d.sources;
    JoinHolds(" ", words);
    forall c | c in Text(d) ensures Visible(c) {
      if c != ' ' {
        var w :| w in words && c in w;
        assert w == d.name || w in d.sources;
      }
    }
  }

  /** Apart from what its nonce brings, a serialized policy holds no control character, so it cannot break the header. */
  lemma SerializedIsVisible(policy: Policy, nonce: string)
    requires WellFormed(policy) && (policy.nonceDirectives != [] ==> forall c :: c in nonce ==> Visible(c))
    ensures forall c :: c in Serialize(policy, Some(nonce)).value ==> Visible(c)
  {
    var expected := AllExpected(policy.directives, policy.nonceDirectives, nonce);
    var texts := Texts(expected);
    forall i | 0 <= i < |expected| ensures forall c :: c in texts[i] ==> Visible(c) {
      var d := policy.directives[i];
      assert d in policy.directives && ValidDirective(d);
      forall s, c | s in expected[i].sources && c in s ensures Visible(c) {
        if s !in d.sources {
          assert s == NonceSource(nonce) && (c in "'nonce-" || c in nonce || c == '\'');
        }
      }
      TextVisible(expected[i]);
    }
    JoinHolds("; ", texts);
    forall c | c in Serialize(policy, Some(nonce)).value ensures Visible(c) {
      if c !in "; " {
        var t :| t in texts && c in t;
      }
    }
  }

  /** Without nonce directives the nonce is immaterial, and absent it is refused exactly when needed. */
  lemma NonceNeededExactly(policy: Policy, nonce: string)
    ensures Serialize(policy, None).Ok? <==> policy.nonceDirectives == []
    ensures policy.nonceDirectives == [] ==> Serialize(policy, None) == Serialize(policy, Some(nonce))
  {
    if policy.nonceDirectives == [] {
      assert AllExpected(policy.directives, [], nonce) == AllExpected(policy.directives, [], "");
    }
  }

  // ------------------------------------------------------------------------- the loops

  lemma {:induction false} NormalizePrefix(directives: seq<Directive>, n: nat)
    requires n <= |directives| && Normalize(directives[..n]).Fail?
    ensures Normalize(directives) == Normalize(directives[..n])
  {
    if n == |directives| {
      assert directives[..n] == directives;
    } else {
      assert directives[..|directives| - 1][..n] == directives[..n];
      NormalizePrefix(directives[..|directives| - 1], n);
    }
  }

  lemma {:induction false} SourcesPrefix(sources: seq<string>, n: nat)
    requires n <= |sources| && Sources(sources[..n]).Fail?
    ensures Sources(sources) == Sources(sources[..n])
  {
    if n == |sources| {
      assert sources[..n] == sources;
    } else {
      assert sources[..|sources| - 1][..n] == sources[..n];
      SourcesPrefix(sources[..|sources| - 1], n);
    }
  }

  lemma {:induction false} NoncePrefix(nonces: seq<string>, names: seq<string>, n: nat)
    requires n <= |nonces| && NonceFault(nonces[..n], names).Some?
    ensures NonceFault(nonces, names) == NonceFault(nonces[..n], names)
  {
    if n == |nonces| {
      assert nonces[..n] == nonces;
    } else {
      assert nonces[..|nonces| - 1][..n] == nonces[..n];
      NoncePrefix(nonces[..|nonces| - 1], names, n);
    }
  }

  method CollectSources(sources: seq<string>) returns (r: Outcome<seq<string>>)
    ensures r == Sources(sources)
  {
    var values: seq<string> := [];
    for i := 0 to |sources|
      invariant Sources(sources[..i]).Ok? && values == Dedupe(sources[..i])
    {
      assert sources[..i + 1][..i] == sources[..i];
      if !ValidSource(sources[i]) {
        SourcesPrefix(sources, i + 1);
        return Fail(InvalidSource(sources[i]));
      }
      if sources[i] !in values {
        values := values + [sources[i]];
      }
    }
    assert sources[..|sources|] == sources;
    SourcesExactly(sources);
    return Ok(values);
  }

  method NormalizeDirectives(directives: seq<Directive>) returns (r: Outcome<seq<Directive>>)
    ensures r == Normalize(directives)
  {
    var normalized: seq<Directive> := [];
    for i := 0 to |directives|
      invariant Normalize(directives[..i]) == Ok(normalized)
    {
      assert directives[..i + 1][..i] == directives[..i];
      var name := directives[i].name;
      if !DirectiveToken(name) {
        NormalizePrefix(directives, i + 1);
        return Fail(InvalidDirective(name));
      }
      var values := CollectSources(directives[i].sources);
      if values.Fail? {
        NormalizePrefix(directives, i + 1);
        return Fail(values.fault);
      }
      normalized := normalized + [Directive(name, values.value)];
    }
    assert directives[..|directives|] == directives;
    return Ok(normalized);
  }

  /** The constructor. */
  method Construct(directives: seq<Directive>, nonces: seq<string>) returns (r: Outcome<Policy>)
    ensures r == Build(directives, nonces)
  {
    var normalized := NormalizeDirectives(directives);
    if normalized.Fail? {
      return Fail(normalized.fault);
    }
    var configured, wanted := Names(normalized.value), Dedupe(nonces);
    for i := 0 to |wanted|
      invariant NonceFault(wanted[..i], configured).None?
    {
      assert wanted[..i + 1][..i] == wanted[..i];
      if !DirectiveToken(wanted[i]) {
        NoncePrefix(wanted, configured, i + 1);
        return Fail(InvalidDirective(wanted[i]));
      }
      if wanted[i] !in configured {
        NoncePrefix(wanted, configured, i + 1);
        return Fail(NotConfigured(wanted[i]));
      }
    }
    assert wanted[..|wanted|] == wanted;
    return Ok(Policy(SortByName(normalized.value), wanted));
  }

  method SerializePolicy(policy: Policy, nonce: Option<string>) returns (r: Outcome<string>)
    ensures r == Serialize(policy, nonce)
  {
    if policy.nonceDirectives != [] && nonce.None? {
      return Fail(MissingNonce);
    }
    ghost var text := if nonce.Some? then nonce.value else "";
    ghost var expected := AllExpected(policy.directives, policy.nonceDirectives, text);
    var serialized: seq<string> := [];
    for i := 0 to |policy.directives|
      invariant serialized == Texts(expected)[..i]
    {
      var values := policy.directives[i].sources;
      if policy.directives[i].name in policy.nonceDirectives {
        values := values + [NonceSource(nonce.value)];
      }
      serialized := serialized + [Join(" ", [policy.directives[i].name] + values)];
    }
    assert serialized == Texts(expected);
    return Ok(Join("; ", serialized));
  }
}
