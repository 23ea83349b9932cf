/** Translating subjects by their longest matching prefix (bridge/mapping.go). */
module SubjectMapping {
  import opened StringOrder

  datatype Rule = Rule(source: string, target: string, drop: bool)

  /** The translated subject, or that the message is acknowledged and not forwarded. */
  datatype Mapped = Forward(subject: string) | Dropped

  // ---------------------------------------------------------------- rule order

  /** The comparison of the sort: longer sources first, ties in lexicographic order. */
  predicate Less(r: Rule, s: Rule) {
    if |r.source| == |s.source| then LexLess(r.source, s.source) else |r.source| > |s.source|
  }

  /** Sorted as the comparison asks: no rule is less than one before it. */
  ghost predicate Sorted(rules: seq<Rule>) {
    forall i, j :: 0 <= i < j < |rules| ==> !Less(rules[j], rules[i])
  }

  /** What the sort may leave behind: the rules in some order that its comparison accepts. The sort need not
      be stable, so rules with equal sources may come in either order. */
  ghost predicate CompiledFrom(compiled: seq<Rule>, rules: seq<Rule>) {
    multiset(compiled) == multiset(rules) && Sorted(compiled)
  }

  lemma NotLessTransitive(r: Rule, s: Rule, t: Rule)
    requires !Less(s, r) && !Less(t, s)
    ensures !Less(t, r)
  {
    if |r.source| == |s.source| == |t.source| {
      LexTransitive(r.source, s.source, t.source);
    }
  }

  /** Where a rule goes in a sorted list, before the first rule it is less than. */
  method Position(compiled: seq<Rule>, rule: Rule) returns (at: nat)
    requires Sorted(compiled)
    ensures at <= |compiled|
    ensures forall i :: 0 <= i < at ==> !Less(rule, compiled[i])
    ensures forall i :: at <= i < |compiled| ==> !Less(compiled[i], rule)
  {
    at := 0;
    while at < |compiled| && !Less(rule, compiled[at])
      invariant at <= |compiled|
      invariant forall i :: 0 <= i < at ==> !Less(rule, compiled[i])
    {
      at := at + 1;
    }
    if at < |compiled| {
      LessIsNotMutual(rule, compiled[at]);
      forall i | at <= i < |compiled|
        ensures !Less(compiled[i], rule)
      {
        if i > at { NotLessTransitive(rule, compiled[at], compiled[i]); }
      }
    }
  }

  lemma LessIsNotMutual(r: Rule, s: Rule)
    ensures !(Less(r, s) && Less(s, r))
  {
    LexTotal(r.source, s.source);
  }

  function Inserted(compiled: seq<Rule>, rule: Rule, at: nat): seq<Rule>
    requires at <= |compiled|
  {
    compiled[..at] + [rule] + compiled[at..]
  }

  lemma InsertKeepsSorted(compiled: seq<Rule>, rule: Rule, at: nat)
    requires Sorted(compiled) && at <= |compiled|
    requires forall i :: 0 <= i < at ==> !Less(rule, compiled[i])
    requires forall i :: at <= i < |compiled| ==> !Less(compiled[i], rule)
    ensures Sorted(Inserted(compiled, rule, at))
  {
    var after := Inserted(compiled, rule, at);
    forall i, j | 0 <= i < j < |after|
      ensures !Less(after[j], after[i])
    {
      var i', j' := if i > at then i - 1 else i, if j > at then j - 1 else j;
      assert i != at ==> after[i] == compiled[i'];
      assert j != at ==> after[j] == compiled[j'];
    }
  }

  lemma InsertKeepsRules(compiled: seq<Rule>, rule: Rule, at: nat)
    requires at <= |compiled|
    ensures multiset(Inserted(compiled, rule, at)) == multiset(compiled) + multiset{rule}
  {
    assert compiled == compiled[..at] + compiled[at..];
  }

  /** Copies and sorts the rules. */
  method Compile(mappings: seq<Rule>) returns (compiled: seq<Rule>)
    ensures CompiledFrom(compiled, mappings)
  {
    compiled := [];
    for n := 0 to |mappings|
      invariant Sorted(compiled) && multiset(compiled) == multiset(mappings[..n])
    {
      var at := Position(compiled, mappings[n]);
      InsertKeepsSorted(compiled, mappings[n], at);
      InsertKeepsRules(compiled, mappings[n], at);
      assert mappings[..n + 1] == mappings[..n] + [mappings[n]];
      compiled := Inserted(compiled, mappings[n], at);
    }
    assert mappings[..|mappings|] == mappings;
  }

  // ---------------------------------------------------------------- mapping a subject

  predicate HasPrefix(subject: string, prefix: string) {
    |prefix| <= |subject| && subject[..|prefix|] == prefix
  }

  function ApplyRule(rule: Rule, subject: string): Mapped
    requires HasPrefix(subject, rule.source)
  {
    if rule.drop then Dropped else Forward(rule.target + subject[|rule.source|..])
  }

  /** The rule of a list that applies to a subject: its source is a prefix and no matching rule has a longer one. */
  ghost predicate LongestMatch(rules: seq<Rule>, subject: string, rule: Rule) {
    && rule in rules && HasPrefix(subject, rule.source)
    && forall r :: r in rules && HasPrefix(subject, r.source) ==> |r.source| <= |rule.source|
  }

  /** A prefix is what something can be appended to. */
  lemma PrefixLeavesARest(subject: string, prefix: string)
    ensures HasPrefix(subject, prefix) <==> exists rest :: subject == prefix + rest
  {
    if HasPrefix(subject, prefix) {
      assert subject == prefix + subject[|prefix|..];
    }
  }

  /** A rule drops the subject or exchanges its source for its target, leaving the rest as it was. */
  lemma RuleExchangesPrefix(rule: Rule, rest: string)
    ensures HasPrefix(rule.source + rest, rule.source)
    ensures ApplyRule(rule, rule.source + rest) == if rule.drop then Dropped else Forward(rule.target + rest)
  {
    var subject := rule.source + rest;
    assert subject[..|rule.source|] == rule.source && subject[|rule.source|..] == rest;
  }

  /** The result a rule list prescribes: that of some longest match, or the subject unchanged if none matches. */
  ghost predicate Prescribes(rules: seq<Rule>, subject: string, result: Mapped) {
    if exists r :: r in rules && HasPrefix(subject, r.source) then
      exists r :: LongestMatch(rules, subject, r) && result == ApplyRule(r, subject)
    else
      result == Forward(subject)
  }

  /** The closure over the compiled rules: the first match decides. */
  method MapSubject(ghost rules: seq<Rule>, compiled: seq<Rule>, subject: string) returns (result: Mapped)
    requires CompiledFrom(compiled, rules)
    ensures Prescribes(rules, subject, result)
    ensures result == FirstMatch(compiled, subject)
  {
    SameRules(compiled, rules);
    var i := 0;
    while i < |compiled|
      invariant 0 <= i <= |compiled|
      invariant forall j :: 0 <= j < i ==> !HasPrefix(subject, compiled[j].source)
      invariant FirstMatch(compiled, subject) == FirstMatch(compiled[i..], subject)
    {
      var rule := compiled[i];
      if HasPrefix(subject, rule.source) {
        FirstMatchIsLongest(compiled, subject, i);
        assert rule in compiled;
        assert LongestMatch(rules, subject, rule);
        if rule.drop {
          return Dropped;
        }
        return Forward(rule.target + subject[|rule.source|..]);
      }
      i := i + 1;
    }
    forall r | r in rules
      ensures !HasPrefix(subject, r.source)
    {
      assert r in compiled;
    }
    return Forward(subject);
  }

  /** The closure's result as a function of the compiled list. */
  function FirstMatch(compiled: seq<Rule>, subject: string): Mapped {
    if compiled == [] then Forward(subject)
    else if HasPrefix(subject, compiled[0].source) then ApplyRule(compiled[0], subject)
    else FirstMatch(compiled[1..], subject)
  }

  lemma SameRules(xs: seq<Rule>, ys: seq<Rule>)
    requires multiset(xs) == multiset(ys)
    ensures forall r :: r in xs <==> r in ys
  {
    forall r
      ensures r in xs <==> r in ys
    {
      assert r in xs <==> r in multiset(xs);
      assert r in ys <==> r in multiset(ys);
    }
  }

  lemma FirstMatchIsLongest(compiled: seq<Rule>, subject: string, i: nat)
    requires Sorted(compiled) && i < |compiled| && HasPrefix(subject, compiled[i].source)
    requires forall j :: 0 <= j < i ==> !HasPrefix(subject, compiled[j].source)
    ensures LongestMatch(compiled, subject, compiled[i])
  {
    forall r | r in compiled && HasPrefix(subject, r.source)
      ensures |r.source| <= |compiled[i].source|
    {
      var j :| 0 <= j < |compiled| && compiled[j] == r;
      if j != i {
        assert i < j && !Less(compiled[j], compiled[i]);
      }
    }
  }

  // ---------------------------------------------------------------- independence of the order

  /** Rules with one source have one effect. */
  ghost predicate SourcesAgree(rules: seq<Rule>) {
    forall r, s :: r in rules && s in rules && r.source == s.source ==> Alike(r, s)
  }

  predicate Alike(r: Rule, s: Rule) {
    r.drop == s.drop && (r.drop || r.target == s.target)
  }

  /** Then a rule list prescribes one result. */
  lemma PrescriptionIsUnique(rules: seq<Rule>, subject: string, a: Mapped, b: Mapped)
    requires SourcesAgree(rules) && Prescribes(rules, subject, a) && Prescribes(rules, subject, b)
    ensures a == b
  {
    if exists r :: r in rules && HasPrefix(subject, r.source) {
      var r :| LongestMatch(rules, subject, r) && a == ApplyRule(r, subject);
      var s :| LongestMatch(rules, subject, s) && b == ApplyRule(s, subject);
      assert |r.source| == |s.source|;
      assert r.source == s.source;
      assert Alike(r, s);
    }
  }

  lemma {:induction false} FirstMatchIsPrescribed(compiled: seq<Rule>, subject: string)
    requires Sorted(compiled)
    ensures Prescribes(compiled, subject, FirstMatch(compiled, subject))
  {
    if compiled != [] {
      if HasPrefix(subject, compiled[0].source) {
        FirstMatchIsLongest(compiled, subject, 0);
        assert compiled[0] in compiled;
      } else {
        var rest := compiled[1..];
        FirstMatchIsPrescribed(rest, subject);
        assert compiled == [compiled[0]] + rest;
        assert forall r :: r in compiled <==> r == compiled[0] || r in rest;
        assert forall r :: LongestMatch(rest, subject, r) ==> LongestMatch(compiled, subject, r);
      }
    }
  }

  lemma PrescribedByPermutation(xs: seq<Rule>, ys: seq<Rule>, subject: string, result: Mapped)
    requires multiset(xs) == multiset(ys) && Prescribes(xs, subject, result)
    ensures Prescribes(ys, subject, result)
  {
    SameRules(xs, ys);
    assert forall r :: LongestMatch(xs, subject, r) ==> LongestMatch(ys, subject, r);
  }

  /** Said in plain strings: where no longer source fits, a rule's source is exchanged for its target, or the
      subject is dropped; and where no source fits, the subject passes unchanged. */
  lemma LongestSourceDecides(rules: seq<Rule>, compiled: seq<Rule>, r: Rule, rest: string)
    requires CompiledFrom(compiled, rules) && SourcesAgree(rules) && r in rules
    requires forall q, tail :: q in rules && q.source + tail == r.source + rest ==> |q.source| <= |r.source|
    ensures FirstMatch(compiled, r.source + rest) == if r.drop then Dropped else Forward(r.target + rest)
  {
    var subject := r.source + rest;
    RuleExchangesPrefix(r, rest);
    forall q | q in rules && HasPrefix(subject, q.source)
      ensures |q.source| <= |r.source|
    {
      assert q.source + subject[|q.source|..] == subject;
    }
    assert LongestMatch(rules, subject, r);
    FirstMatchIsPrescribed(compiled, subject);
    PrescribedByPermutation(compiled, rules, subject, FirstMatch(compiled, subject));
    PrescriptionIsUnique(rules, subject, FirstMatch(compiled, subject), ApplyRule(r, subject));
  }

  lemma UnmatchedPasses(rules: seq<Rule>, compiled: seq<Rule>, subject: string)
    requires CompiledFrom(compiled, rules)
    requires forall q, tail :: q in rules ==> q.source + tail != subject
    ensures FirstMatch(compiled, subject) == Forward(subject)
  {
    forall q | q in rules
      ensures !HasPrefix(subject, q.source)
    {
      PrefixLeavesARest(subject, q.source);
    }
    FirstMatchIsPrescribed(compiled, subject);
    SameRules(compiled, rules);
  }

  /** Two rules of one source can change places: the comparison does not tell them apart. */
  lemma SwapKeepsCompiled(compiled: seq<Rule>, i: nat, j: nat)
    requires Sorted(compiled) && i < j < |compiled| && compiled[i].source == compiled[j].source
    ensures CompiledFrom(Swapped(compiled, i, j), compiled)
  {
    var swapped := Swapped(compiled, i, j);
    forall k, l | 0 <= k < l < |swapped|
      ensures !Less(swapped[l], swapped[k])
    {
      assert swapped[k].source == compiled[k].source && swapped[l].source == compiled[l].source;
      assert !Less(compiled[l], compiled[k]);
    }
  }

  function Swapped(compiled: seq<Rule>, i: nat, j: nat): seq<Rule>
    requires i < j < |compiled|
  {
    compiled[i := compiled[j]][j := compiled[i]]
  }

  /** The subject that is a rule's source goes to the first rule listed with that source. */
  lemma {:induction false} OwnSource(compiled: seq<Rule>, first: nat)
    requires Sorted(compiled) && first < |compiled|
    requires forall i :: 0 <= i < first ==> compiled[i].source != compiled[first].source
    ensures FirstMatch(compiled, compiled[first].source) == ApplyRule(compiled[first], compiled[first].source)
  {
    if first > 0 {
      LexTotal(compiled[0].source, compiled[first].source);
      assert !Less(compiled[first], compiled[0]);
      assert !HasPrefix(compiled[first].source, compiled[0].source);
      OwnSource(compiled[1..], first - 1);
    }
  }

  /** When two rules of one source differ, another order of the same rules, no less sorted, maps some subject
      differently. */
  lemma DisagreementShows(compiled: seq<Rule>, r: Rule, s: Rule) returns (compiled': seq<Rule>, subject: string)
    requires Sorted(compiled) && r in compiled && s in compiled && r.source == s.source && !Alike(r, s)
    ensures CompiledFrom(compiled', compiled) && FirstMatch(compiled', subject) != FirstMatch(compiled, subject)
  {
    subject := r.source;
    var first := 0;
    while compiled[first].source != subject
      invariant 0 <= first < |compiled|
      invariant exists k :: first <= k < |compiled| && compiled[k] == r
      invariant forall i :: 0 <= i < first ==> compiled[i].source != subject
      decreases |compiled| - first
    {
      first := first + 1;
    }
    var other := if Alike(compiled[first], r) then s else r;
    assert !Alike(compiled[first], other);
    var j :| 0 <= j < |compiled| && compiled[j] == other;
    compiled' := Swapped(compiled, first, j);
    SwapKeepsCompiled(compiled, first, j);
    OwnSource(compiled, first);
    OwnSource(compiled', first);
    var a, b := compiled[first], compiled'[first];
    assert subject[|subject|..] == "" && a.target + "" == a.target && b.target + "" == b.target;
  }

  /** Exactly when the order in which rules are listed, and the order the sort leaves of those its comparison
      accepts, make no difference to any subject. */
  lemma OrderOfRulesDoesNotMatter(rules: seq<Rule>, compiled: seq<Rule>)
    requires CompiledFrom(compiled, rules)
    ensures SourcesAgree(rules) <==>
      forall rules', compiled', subject :: multiset(rules') == multiset(rules) && CompiledFrom(compiled', rules') ==>
        FirstMatch(compiled', subject) == FirstMatch(compiled, subject)
  {
    if SourcesAgree(rules) {
      forall rules', compiled', subject | multiset(rules') == multiset(rules) && CompiledFrom(compiled', rules')
        ensures FirstMatch(compiled', subject) == FirstMatch(compiled, subject)
      {
        FirstMatchIsPrescribed(compiled, subject);
        FirstMatchIsPrescribed(compiled', subject);
        PrescribedByPermutation(compiled, rules, subject, FirstMatch(compiled, subject));
        PrescribedByPermutation(compiled', rules, subject, FirstMatch(compiled', subject));
        PrescriptionIsUnique(rules, subject, FirstMatch(compiled, subject), FirstMatch(compiled', subject));
      }
    } else {
      var r, s :| r in rules && s in rules && r.source == s.source && !Alike(r, s);
      SameRules(rules, compiled);
      var compiled', subject := DisagreementShows(compiled, r, s);
      assert CompiledFrom(compiled', rules);
    }
  }
}
