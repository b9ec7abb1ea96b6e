/**
 The access control model of manager/rbac/role/model.go: sections ("r", "p",
 "g", "e", "m") mapping policy types to assertions, each holding its
 definition and its ordered rule list.
 */
module RuleModel {
  import opened Results
  import opened Text
  import opened Tuples
  import Roles

  /** One assertion: its key, definition string, tokens and rules (the RM back-reference is kept by the manager). */
  datatype Assertion = Assertion(key: string, value: string, tokens: seq<string>, rules: seq<Rule>)

  type AssertionMap = map<string, Assertion>

  type Model = map<string, AssertionMap>

  /** The built-in request (and policy) definition: four field names. */
  const RequestDefinition := "sub, dom, obj, act"

  /** The built-in role definition: user, role and domain placeholders. */
  const GroupingDefinition := "_, _, _"

  /** The built-in definition of each section. */
  const SectionDefinitions: map<string, string> := map[
    "r" := RequestDefinition,
    "p" := RequestDefinition,
    "g" := GroupingDefinition,
    "e" := "some(where (p.eft == allow)) && !some(where (p.eft == deny))",
    "m" := "g(r.sub, p.sub, r.dom) && r.dom == p.dom && keyMatch(r.obj, p.obj) && regexMatch(r.act, p.act)"
  ]

  /** The assertion (sec, ptype) exists; looking up any other one dereferences nil in Go. */
  predicate Defined(m: Model, sec: string, ptype: string) {
    sec in m && ptype in m[sec]
  }

  /** `m2` differs from `m` at most in the rule list of assertion (sec, ptype). */
  ghost predicate OnlyRulesChanged(m: Model, m2: Model, sec: string, ptype: string)
    requires Defined(m, sec, ptype)
  {
    && m2.Keys == m.Keys
    && (forall s :: s in m ==> m2[s].Keys == m[s].Keys)
    && (forall s, p :: s in m && p in m[s] && (s != sec || p != ptype) ==> m2[s][p] == m[s][p])
    && m2[sec][ptype] == m[sec][ptype].(rules := m2[sec][ptype].rules)
  }

  /** GetRule: the rule list of one assertion. */
  function GetRule(m: Model, sec: string, ptype: string): seq<Rule>
    requires Defined(m, sec, ptype)
  {
    m[sec][ptype].rules
  }

  /** Replace the rule list of one assertion, leaving everything else as it was. */
  function WithRules(m: Model, sec: string, ptype: string, rules: seq<Rule>): (m2: Model)
    requires Defined(m, sec, ptype)
    ensures Defined(m2, sec, ptype) && GetRule(m2, sec, ptype) == rules
    ensures OnlyRulesChanged(m, m2, sec, ptype)
  {
    m[sec := m[sec][ptype := m[sec][ptype].(rules := rules)]]
  }

  /** Writing back the rule list GetRule reads changes nothing. */
  lemma GetRuleWriteBack(m: Model, sec: string, ptype: string)
    requires Defined(m, sec, ptype)
    ensures WithRules(m, sec, ptype, GetRule(m, sec, ptype)) == m
  {
    assert m[sec][ptype].(rules := GetRule(m, sec, ptype)) == m[sec][ptype];
    assert m[sec][ptype := m[sec][ptype]] == m[sec];
  }

  /** The tokens of an "r" or "p" definition: each field name prefixed with the key and "_". */
  function PrefixTokens(key: string, names: seq<string>): (tokens: seq<string>)
    ensures |tokens| == |names|
    ensures forall i :: 0 <= i < |names| ==> tokens[i] == key + "_" + names[i]
  {
    if |names| == 0 then [] else [key + "_" + names[0]] + PrefixTokens(key, names[1..])
  }

  /** Each token with its first `n` characters removed. */
  function DropPrefixes(tokens: seq<string>, n: nat): (names: seq<string>)
    requires forall i :: 0 <= i < |tokens| ==> n <= |tokens[i]|
    ensures |names| == |tokens|
    ensures forall i :: 0 <= i < |tokens| ==> names[i] == tokens[i][n..]
  {
    if |tokens| == 0 then [] else [tokens[0][n..]] + DropPrefixes(tokens[1..], n)
  }

  /** The assertion addDef builds: "r" and "p" definitions are split into key-prefixed tokens. */
  function FreshAssertion(sec: string, key: string, value: string): (a: Assertion)
    ensures a.key == key && a.value == value && a.rules == []
    ensures sec == "r" || sec == "p" ==> |a.tokens| == |Split(value)|
    ensures sec != "r" && sec != "p" ==> a.tokens == []
  {
    var tokens := if sec == "r" || sec == "p" then PrefixTokens(key, Split(value)) else [];
    Assertion(key, value, tokens, [])
  }

  /**
   addDef: install assertion (sec, key) with definition `value` and no rules,
   replacing any previous one; an empty definition is refused.
   */
  function AddDef(m: Model, sec: string, key: string, value: string): (r: (Model, bool))
    ensures r.1 <==> value != ""
    ensures !r.1 ==> r.0 == m
    ensures r.1 ==> r.0.Keys == m.Keys + {sec}
    ensures r.1 ==> Defined(r.0, sec, key) && r.0[sec][key].key == key && r.0[sec][key].value == value
    ensures r.1 ==> r.0[sec][key].rules == []
    ensures r.1 && (sec == "r" || sec == "p") ==> r.0[sec][key].tokens == PrefixTokens(key, Split(value))
    ensures r.1 && sec != "r" && sec != "p" ==> r.0[sec][key].tokens == []
    ensures r.1 ==> r.0[sec].Keys == (if sec in m then m[sec].Keys else {}) + {key}
    ensures r.1 ==> forall s, p :: s in m && p in m[s] && (s != sec || p != key) ==>
      Defined(r.0, s, p) && r.0[s][p] == m[s][p]
  {
    if value == "" then (m, false)
    else
      var assertions := if sec in m then m[sec] else map[];
      (m[sec := assertions[key := FreshAssertion(sec, key, value)]], true)
  }

  /** Stripping the key prefix from the tokens addDef builds and joining them gives the definition back. */
  lemma TokensSpellDefinition(key: string, value: string)
    ensures var tokens := PrefixTokens(key, Split(value));
      && |tokens| >= 1
      && (forall i :: 0 <= i < |tokens| ==> |key| + 1 <= |tokens[i]|)
      && Join(DropPrefixes(tokens, |key| + 1)) == value
  {
    var tokens := PrefixTokens(key, Split(value));
    var names := DropPrefixes(tokens, |key| + 1);
    assert names == Split(value);
    JoinSplit(value);
  }

  /** loadAssertion: install (sec, key) with the definition `defs` holds for `key`; a key it lacks panics. */
  function LoadAssertion(defs: map<string, string>, m: Model, sec: string, key: string): (r: Result<Model>)
    ensures r.Failure? <==> key !in defs
    ensures r.Failure? ==> r.error == SectionNotSupported(sec)
    ensures r.Success? && defs[key] == "" ==> r.value == m
    ensures r.Success? && defs[key] != "" ==>
      r.value == m[sec := (if sec in m then m[sec] else map[])[key := FreshAssertion(sec, key, defs[key])]]
  {
    if key in defs then Success(AddDef(m, sec, key, defs[key]).0)
    else Failure(SectionNotSupported(sec))
  }

  /**
   loadSection, once per name in `secs`: each section gets one assertion,
   named after it, from its definition in `defs`.
   */
  function LoadSections(defs: map<string, string>, m: Model, secs: seq<string>): (r: Result<Model>)
    requires NoDuplicates(secs)
    requires forall s :: s in secs ==> s in defs && defs[s] != "" && s !in m
    ensures r.Success?
    ensures forall s :: s in r.value <==> s in m || s in secs
    ensures forall s :: s in m ==> r.value[s] == m[s]
    ensures forall s :: s in secs ==> r.value[s] == map[s := FreshAssertion(s, s, defs[s])]
    decreases |secs|
  {
    if |secs| == 0 then Success(m)
    else
      var m1 := LoadAssertion(defs, m, secs[0], secs[0]).value;
      NoDuplicatesTail(secs);
      var r := LoadSections(defs, m1, secs[1..]);
      assert forall s :: s in secs <==> s == secs[0] || s in secs[1..];
      r
  }

  /** Each section loaded from a definition table holds one assertion, named after it, with that definition and no rules. */
  lemma FreshSectionsShape(defs: map<string, string>)
    ensures forall s :: s in defs ==>
      var sec := map[s := FreshAssertion(s, s, defs[s])];
      sec.Keys == {s} && sec[s].rules == [] && sec[s].value == defs[s]
  {
  }

  /** The names newModel loads are distinct. */
  lemma BuiltinNames(secs: seq<string>)
    requires secs == ["r", "p", "e", "m", "g"]
    ensures NoDuplicates(secs)
  {
  }

  /** The built-in table defines exactly the five sections. */
  lemma BuiltinKeys(defs: map<string, string>)
    requires defs == SectionDefinitions
    ensures defs.Keys == {"r", "p", "e", "m", "g"}
  {
  }

  /** No built-in definition is empty, so addDef accepts each of them. */
  lemma BuiltinNonEmpty(defs: map<string, string>)
    requires defs == SectionDefinitions
    ensures forall s :: s in defs ==> defs[s] != ""
  {
  }

  /** The request, policy and role definitions of the built-in table. */
  lemma BuiltinValues(defs: map<string, string>)
    requires defs == SectionDefinitions
    ensures defs["r"] == defs["p"] == RequestDefinition && defs["g"] == GroupingDefinition
  {
  }

  /** newModel: the five built-in sections, each with one assertion named after it and no rules. */
  function NewModel(): (r: Result<Model>)
    ensures r.Success?
    ensures forall s :: s in r.value <==> s in SectionDefinitions
    ensures forall s :: s in SectionDefinitions ==> r.value[s] == map[s := FreshAssertion(s, s, SectionDefinitions[s])]
    ensures forall s :: s in SectionDefinitions ==>
      r.value[s].Keys == {s} && r.value[s][s].rules == [] && r.value[s][s].value == SectionDefinitions[s]
  {
    var secs := ["r", "p", "e", "m", "g"];
    BuiltinNames(secs);
    BuiltinKeys(SectionDefinitions);
    BuiltinNonEmpty(SectionDefinitions);
    FreshSectionsShape(SectionDefinitions);
    LoadSections(SectionDefinitions, map[], secs)
  }

  /** A word without commas contains no separator. */
  lemma NoCommaNoSeparator(w: string)
    requires ',' !in w
    ensures !ContainsSeparator(w)
  {
  }

  /** The built-in request definition joins four field names. */
  lemma RequestDefinitionFields(names: seq<string>, definition: string)
    requires names == ["sub", "dom", "obj", "act"] && definition == RequestDefinition
    ensures Join(names) == definition
  {
    assert Join(names[3..]) == "act";
    assert Join(names[2..]) == "obj, act";
    assert Join(names[1..]) == "dom, obj, act";
  }

  /** Splitting a join of comma-free field names gives the names back. */
  lemma SplitFieldNames(names: seq<string>, definition: string)
    requires |names| >= 1 && Join(names) == definition
    requires forall k :: 0 <= k < |names| ==> ',' !in names[k]
    ensures Split(definition) == names
  {
    forall k | 0 <= k < |names| ensures !ContainsSeparator(names[k]) {
      NoCommaNoSeparator(names[k]);
    }
    SplitJoin(names);
  }

  /** The built-in request and policy definition splits into four field names. */
  lemma RequestDefinitionSplits(names: seq<string>, definition: string)
    requires names == ["sub", "dom", "obj", "act"] && definition == RequestDefinition
    ensures Split(definition) == names
  {
    RequestDefinitionFields(names, definition);
    SplitFieldNames(names, definition);
  }

  /** The tokens addDef builds for the request ("r") and policy ("p") definitions. */
  lemma FieldTokens(key: string, tokens: seq<string>)
    requires key == "r" || key == "p"
    requires tokens == PrefixTokens(key, ["sub", "dom", "obj", "act"])
    ensures key == "r" ==> tokens == ["r_sub", "r_dom", "r_obj", "r_act"]
    ensures key == "p" ==> tokens == ["p_sub", "p_dom", "p_obj", "p_act"]
  {
    if key == "r" {
      assert tokens[0] == "r_sub" && tokens[1] == "r_dom" && tokens[2] == "r_obj" && tokens[3] == "r_act";
    } else {
      assert tokens[0] == "p_sub" && tokens[1] == "p_dom" && tokens[2] == "p_obj" && tokens[3] == "p_act";
    }
  }

  /** The request and policy tokens of the built-in model. */
  lemma NewModelTokens(m: Model)
    requires m == NewModel().value
    ensures m["r"]["r"].tokens == ["r_sub", "r_dom", "r_obj", "r_act"]
    ensures m["p"]["p"].tokens == ["p_sub", "p_dom", "p_obj", "p_act"]
  {
    BuiltinKeys(SectionDefinitions);
    BuiltinValues(SectionDefinitions);
    RequestDefinitionSplits(["sub", "dom", "obj", "act"], RequestDefinition);
    FieldTokens("r", m["r"]["r"].tokens);
    FieldTokens("p", m["p"]["p"].tokens);
  }

  /** Clear: empty the rules of every "p" and "g" assertion; definitions and other sections stay. */
  function Clear(m: Model): (m2: Model)
    ensures m2.Keys == m.Keys
    ensures forall s :: s in m ==> m2[s].Keys == m[s].Keys
    ensures forall s, p :: s in m && p in m[s] ==>
      m2[s][p] == if s == "p" || s == "g" then m[s][p].(rules := []) else m[s][p]
  {
    map s | s in m :: if s == "p" || s == "g" then (map p | p in m[s] :: m[s][p].(rules := [])) else m[s]
  }

  /** After Clear, no policy or grouping rule is left, and clearing again changes nothing. */
  lemma ClearEmptiesRules(m: Model)
    ensures forall p :: Defined(m, "p", p) ==> GetRule(Clear(m), "p", p) == []
    ensures forall p :: Defined(m, "g", p) ==> GetRule(Clear(m), "g", p) == []
    ensures forall s, p :: Defined(m, s, p) && s != "p" && s != "g" ==> GetRule(Clear(m), s, p) == GetRule(m, s, p)
    ensures forall s, p :: Defined(m, s, p) ==>
      Clear(m)[s][p].key == m[s][p].key && Clear(m)[s][p].value == m[s][p].value && Clear(m)[s][p].tokens == m[s][p].tokens
    ensures Clear(Clear(m)) == Clear(m)
  {
    var once, twice := Clear(m), Clear(Clear(m));
    forall s | s in m ensures twice[s] == once[s] {
      assert twice[s].Keys == once[s].Keys;
    }
    assert twice.Keys == once.Keys;
  }

  /** GetFilteredRule: the rules matching the filter, in order. */
  function GetFilteredRule(m: Model, sec: string, ptype: string, f: Filter): (r: seq<Rule>)
    requires Defined(m, sec, ptype) && ScannableAll(GetRule(m, sec, ptype), f)
    ensures IsSelection(r, GetRule(m, sec, ptype), f, true)
  {
    Select(GetRule(m, sec, ptype), f, true)
  }

  /** A filter of wildcards only (or no values at all) returns every rule, as GetRule does. */
  lemma WildcardFilterSelectsAll(m: Model, sec: string, ptype: string, f: Filter)
    requires Defined(m, sec, ptype)
    requires forall i :: 0 <= i < |f.values| ==> f.values[i] == ""
    ensures ScannableAll(GetRule(m, sec, ptype), f)
    ensures GetFilteredRule(m, sec, ptype, f) == GetRule(m, sec, ptype)
  {
    var rules := GetRule(m, sec, ptype);
    SubsequenceReflexive(rules);
    assert IsSelection(rules, rules, f, true);
    SelectionUnique(GetFilteredRule(m, sec, ptype, f), rules, rules, f, true);
  }

  /** HasRule: an equal tuple is present. */
  function HasRule(m: Model, sec: string, ptype: string, rule: Rule): (found: bool)
    requires Defined(m, sec, ptype)
    ensures found <==> rule in GetRule(m, sec, ptype)
  {
    Contains(GetRule(m, sec, ptype), rule)
  }

  /** Add: append the rule unless HasRule holds; report whether it was appended. */
  function Add(m: Model, sec: string, ptype: string, rule: Rule): (r: (Model, bool))
    requires Defined(m, sec, ptype)
    ensures r.1 <==> rule !in GetRule(m, sec, ptype)
    ensures !r.1 ==> r.0 == m
    ensures Defined(r.0, sec, ptype)
    ensures GetRule(r.0, sec, ptype) == if r.1 then GetRule(m, sec, ptype) + [rule] else GetRule(m, sec, ptype)
    ensures OnlyRulesChanged(m, r.0, sec, ptype)
  {
    if !HasRule(m, sec, ptype, rule) then (WithRules(m, sec, ptype, GetRule(m, sec, ptype) + [rule]), true)
    else (m, false)
  }

  /** Remove: delete the first equal rule; report whether there was one. */
  function Remove(m: Model, sec: string, ptype: string, rule: Rule): (r: (Model, bool))
    requires Defined(m, sec, ptype)
    ensures r.1 <==> rule in GetRule(m, sec, ptype)
    ensures !r.1 ==> r.0 == m
    ensures Defined(r.0, sec, ptype)
    ensures r.1 ==> var rules, i := GetRule(m, sec, ptype), IndexOf(GetRule(m, sec, ptype), rule);
      GetRule(r.0, sec, ptype) == rules[..i] + rules[i + 1..]
    ensures OnlyRulesChanged(m, r.0, sec, ptype)
  {
    var (rules, removed) := RemoveRule(GetRule(m, sec, ptype), rule);
    if removed then (WithRules(m, sec, ptype, rules), true) else (m, false)
  }

  /** RemoveFilteredRule: keep the rules that do not match; report whether any matched. */
  function RemoveFilteredRule(m: Model, sec: string, ptype: string, f: Filter): (r: (Model, bool))
    requires Defined(m, sec, ptype) && ScannableAll(GetRule(m, sec, ptype), f)
    ensures r.1 <==> exists t :: t in GetRule(m, sec, ptype) && f.Matches(t)
    ensures Defined(r.0, sec, ptype)
    ensures IsSelection(GetRule(r.0, sec, ptype), GetRule(m, sec, ptype), f, false)
    ensures OnlyRulesChanged(m, r.0, sec, ptype)
  {
    var rules := GetRule(m, sec, ptype);
    var matchedAny := exists k | 0 <= k < |rules| :: f.Matches(rules[k]);
    (WithRules(m, sec, ptype, Select(rules, f, false)), matchedAny)
  }

  /** The removed rules are exactly what GetFilteredRule returns: together they make up the old list. */
  lemma RemoveFilteredComplementsGetFiltered(m: Model, sec: string, ptype: string, f: Filter)
    requires Defined(m, sec, ptype) && ScannableAll(GetRule(m, sec, ptype), f)
    ensures var left := GetRule(RemoveFilteredRule(m, sec, ptype, f).0, sec, ptype);
      multiset(GetFilteredRule(m, sec, ptype, f)) + multiset(left) == multiset(GetRule(m, sec, ptype))
    ensures forall t :: t in GetRule(RemoveFilteredRule(m, sec, ptype, f).0, sec, ptype) ==> !f.Matches(t)
  {
    var rules := GetRule(m, sec, ptype);
    SelectionUnique(GetRule(RemoveFilteredRule(m, sec, ptype, f).0, sec, ptype), Select(rules, f, false), rules, f, false);
    SelectPartitions(rules, f);
  }

  /** GetValuesForFieldInRule: the distinct values found at one field position. */
  function GetValuesForFieldInRule(m: Model, sec: string, ptype: string, fieldIndex: int): (r: seq<string>)
    requires Defined(m, sec, ptype)
    requires forall t :: t in GetRule(m, sec, ptype) ==> 0 <= fieldIndex < |t|
    ensures NoDuplicates(r)
    ensures forall v :: v in r <==> exists t :: t in GetRule(m, sec, ptype) && t[fieldIndex] == v
  {
    var values := FieldValues(GetRule(m, sec, ptype), fieldIndex);
    Dedup(values)
  }

  /** The number of "_" placeholders in an assertion's definition. */
  function PlaceholderCount(ast: Assertion): (count: nat)
    ensures count <= |ast.value|
    ensures count == 0 <==> '_' !in ast.value
  {
    CountChar(ast.value, '_')
  }

  /** The replay succeeds: no rules, or at least two placeholders and no rule shorter than their count. */
  predicate LinksBuildable(rules: seq<Rule>, count: nat) {
    |rules| == 0 || (count >= 2 && forall t :: t in rules ==> |t| >= count)
  }

  /** The link a grouping rule stands for: its first two fields, then the domain fields up to `count`. */
  function LinkOf(rule: Rule, count: nat): Roles.Link
    requires 2 <= count <= |rule|
  {
    Roles.Link(rule[0], rule[1], rule[2..count])
  }

  /** The links a rule list stands for; a definition with more than four placeholders adds none. */
  function LinksOf(rules: seq<Rule>, count: nat): set<Roles.Link>
    requires LinksBuildable(rules, count)
    decreases |rules|
  {
    if |rules| == 0 || count > 4 then {}
    else {LinkOf(rules[0], count)} + LinksOf(rules[1..], count)
  }

  /** A link spells out the rule's first `count` fields: child, parent, then the domain. */
  lemma LinkOfFields(rule: Rule, count: nat)
    requires 2 <= count <= |rule|
    ensures var l := LinkOf(rule, count); [l.child, l.parent] + l.domain == rule[..count]
  {
  }

  /** A rule list stands for at most one link per rule, and for none above four placeholders. */
  lemma {:induction false} LinksOfBound(rules: seq<Rule>, count: nat)
    requires LinksBuildable(rules, count)
    ensures count > 4 ==> LinksOf(rules, count) == {}
    ensures |LinksOf(rules, count)| <= |rules|
    decreases |rules|
  {
    if |rules| > 0 && count <= 4 {
      assert rules[0] in rules;
      LinksOfBound(rules[1..], count);
    }
  }

  /** The AddLink call for one rule: two, three or four arguments depending on `count`, none beyond four. */
  function AddRuleLink(g: Roles.RoleGraph, rule: Rule, count: nat): (g1: Roles.RoleGraph)
    requires 2 <= count <= |rule|
    ensures g1.maxHierarchyLevel == g.maxHierarchyLevel
    ensures g1.links == g.links + (if count <= 4 then {LinkOf(rule, count)} else {})
  {
    assert rule[2..2] == [];
    if count == 2 then Roles.AddLink(g, rule[0], rule[1], [])
    else if count == 3 then
      assert rule[2..3] == [rule[2]];
      Roles.AddLink(g, rule[0], rule[1], [rule[2]])
    else if count == 4 then
      assert rule[2..4] == [rule[2], rule[3]];
      Roles.AddLink(g, rule[0], rule[1], [rule[2], rule[3]])
    else g
  }

  /** How buildability and the link set of a non-empty list split into its head and tail. */
  lemma LinksOfCons(rules: seq<Rule>, count: nat)
    requires |rules| > 0 && 2 <= count <= |rules[0]|
    ensures LinksBuildable(rules, count) <==> LinksBuildable(rules[1..], count)
    ensures LinksBuildable(rules, count) ==>
      LinksOf(rules, count) == (if count <= 4 then {LinkOf(rules[0], count)} else {}) + LinksOf(rules[1..], count)
  {
    assert forall t :: t in rules <==> t == rules[0] || t in rules[1..];
  }

  /** A link comes from a rule list iff it is the link of one of its rules, for two to four placeholders. */
  lemma {:induction false} LinksOfMembers(rules: seq<Rule>, count: nat, l: Roles.Link)
    requires LinksBuildable(rules, count)
    ensures l in LinksOf(rules, count) <==>
      2 <= count <= 4 && exists k :: 0 <= k < |rules| && |rules[k]| >= count && l == LinkOf(rules[k], count)
    decreases |rules|
  {
    if |rules| > 0 && count <= 4 {
      assert rules[0] in rules;
      LinksOfCons(rules, count);
      LinksOfMembers(rules[1..], count, l);
      if exists k :: 0 <= k < |rules| && |rules[k]| >= count && l == LinkOf(rules[k], count) {
        var k :| 0 <= k < |rules| && |rules[k]| >= count && l == LinkOf(rules[k], count);
        if k > 0 {
          assert rules[1..][k - 1] == rules[k];
        }
      }
    }
  }

  /**
   Assertion.buildRoleLinks: one AddLink per rule, with the rule's first `count`
   fields; panics when there are fewer than two placeholders or a rule is
   shorter than their count.
   */
  function ReplayLinks(rules: seq<Rule>, count: nat, g: Roles.RoleGraph): (r: Result<Roles.RoleGraph>)
    ensures r.Success? <==> LinksBuildable(rules, count)
    ensures r.Success? ==> r.value == g.(links := g.links + LinksOf(rules, count))
    decreases |rules|
  {
    if |rules| == 0 then Success(g)
    else if count < 2 then Failure(TooFewPlaceholders)
    else if |rules[0]| < count then Failure(RuleTooShort(rules[0], count))
    else
      var g1 := AddRuleLink(g, rules[0], count);
      LinksOfCons(rules, count);
      assert g1 == g.(links := g.links + (if count <= 4 then {LinkOf(rules[0], count)} else {}));
      ReplayLinks(rules[1..], count, g1)
  }

  /** The grouping assertion has buildable links. */
  predicate AssertionBuildable(ast: Assertion) {
    LinksBuildable(ast.rules, PlaceholderCount(ast))
  }

  function AssertionLinks(ast: Assertion): set<Roles.Link>
    requires AssertionBuildable(ast)
  {
    LinksOf(ast.rules, PlaceholderCount(ast))
  }

  /** Every grouping assertion of the model can be replayed. */
  predicate ModelBuildable(m: Model) {
    "g" in m ==> forall p :: p in m["g"] ==> AssertionBuildable(m["g"][p])
  }

  /** The links all grouping assertions of the model stand for. */
  function ModelLinks(m: Model): set<Roles.Link>
    requires ModelBuildable(m)
  {
    if "g" !in m then {} else set p, l | p in m["g"] && l in AssertionLinks(m["g"][p]) :: l
  }

  /** `order` is an order in which Go's map iteration may visit the grouping assertions. */
  predicate IterationOrder(m: Model, order: seq<string>) {
    && NoDuplicates(order)
    && InGrouping(m, order)
    && ("g" in m ==> forall p :: p in m["g"] ==> p in order)
  }

  /** Every name in `order` is a grouping assertion of the model. */
  predicate InGrouping(m: Model, order: seq<string>) {
    |order| == 0 || ("g" in m && forall k :: 0 <= k < |order| ==> order[k] in m["g"])
  }

  /** Every assertion named in `order` can be replayed. */
  predicate AllBuildable(m: Model, order: seq<string>)
    requires InGrouping(m, order)
  {
    forall k :: 0 <= k < |order| ==> AssertionBuildable(m["g"][order[k]])
  }

  /** The links of the assertions named in `order`. */
  function LinksInOrder(m: Model, order: seq<string>): set<Roles.Link>
    requires InGrouping(m, order) && AllBuildable(m, order)
    decreases |order|
  {
    if |order| == 0 then {}
    else
      assert forall k :: 0 <= k < |order[1..]| ==> order[1..][k] == order[k + 1];
      AssertionLinks(m["g"][order[0]]) + LinksInOrder(m, order[1..])
  }

  /** The tail of a replay order is one too, and its links are the rest of the order's links. */
  lemma OrderTail(m: Model, order: seq<string>)
    requires |order| > 0 && InGrouping(m, order) && AllBuildable(m, order)
    ensures forall k :: 0 <= k < |order[1..]| ==> order[1..][k] == order[k + 1]
    ensures InGrouping(m, order[1..]) && AllBuildable(m, order[1..])
    ensures LinksInOrder(m, order) == AssertionLinks(m["g"][order[0]]) + LinksInOrder(m, order[1..])
  {
    assert forall k :: 0 <= k < |order[1..]| ==> order[1..][k] == order[k + 1];
  }

  /** A link comes from the assertions in `order` iff one of them stands for it. */
  lemma {:induction false} LinksInOrderMembers(m: Model, order: seq<string>, l: Roles.Link)
    requires InGrouping(m, order) && AllBuildable(m, order)
    ensures l in LinksInOrder(m, order) <==> exists k :: 0 <= k < |order| && l in AssertionLinks(m["g"][order[k]])
    decreases |order|
  {
    if |order| > 0 {
      var tail := order[1..];
      OrderTail(m, order);
      LinksInOrderMembers(m, tail, l);
      if l in LinksInOrder(m, order) && l !in AssertionLinks(m["g"][order[0]]) {
        var k :| 0 <= k < |tail| && l in AssertionLinks(m["g"][tail[k]]);
        assert l in AssertionLinks(m["g"][order[k + 1]]);
      }
      if exists k :: 0 <= k < |order| && l in AssertionLinks(m["g"][order[k]]) {
        var k :| 0 <= k < |order| && l in AssertionLinks(m["g"][order[k]]);
        if k > 0 {
          assert l in AssertionLinks(m["g"][tail[k - 1]]);
        }
      }
    }
  }

  /** Replay the grouping assertions named in `order`, one after the other. */
  function ReplayInOrder(m: Model, order: seq<string>, g: Roles.RoleGraph): (r: Result<Roles.RoleGraph>)
    requires InGrouping(m, order)
    ensures r.Success? <==> AllBuildable(m, order)
    ensures r.Success? ==> r.value == g.(links := g.links + LinksInOrder(m, order))
    decreases |order|
  {
    if |order| == 0 then Success(g)
    else
      var ast := m["g"][order[0]];
      assert forall k :: 0 <= k < |order[1..]| ==> order[1..][k] == order[k + 1];
      assert AllBuildable(m, order) <==> AssertionBuildable(ast) && AllBuildable(m, order[1..]) by {
        if AssertionBuildable(ast) && AllBuildable(m, order[1..]) {
          forall k | 1 <= k < |order| ensures AssertionBuildable(m["g"][order[k]]) {
            assert order[k] == order[1..][k - 1];
          }
        }
      }
      match ReplayLinks(ast.rules, PlaceholderCount(ast), g)
      case Failure(e) => Failure(e)
      case Success(g1) => ReplayInOrder(m, order[1..], g1)
  }

  /** Replaying in any iteration order covers exactly the model's grouping assertions. */
  lemma IterationOrderCoversModel(m: Model, order: seq<string>)
    requires IterationOrder(m, order)
    ensures AllBuildable(m, order) <==> ModelBuildable(m)
    ensures AllBuildable(m, order) ==> LinksInOrder(m, order) == ModelLinks(m)
  {
    if AllBuildable(m, order) && "g" in m {
      forall p | p in m["g"] ensures AssertionBuildable(m["g"][p]) {
        var k :| 0 <= k < |order| && order[k] == p;
      }
    }
    if AllBuildable(m, order) {
      forall l ensures l in LinksInOrder(m, order) <==> l in ModelLinks(m) {
        LinksInOrderMembers(m, order, l);
        if "g" in m && l in ModelLinks(m) {
          var p :| p in m["g"] && l in AssertionLinks(m["g"][p]);
          var k :| 0 <= k < |order| && order[k] == p;
        }
      }
    }
  }

  /**
   Model.buildRoleLinks: replay every grouping assertion, in map iteration
   order; the result does not depend on that order.
   */
  function BuildRoleLinks(m: Model, order: seq<string>, g: Roles.RoleGraph): (r: Result<Roles.RoleGraph>)
    requires IterationOrder(m, order)
    ensures r.Success? <==> ModelBuildable(m)
    ensures r.Success? ==> r.value == g.(links := g.links + ModelLinks(m))
  {
    IterationOrderCoversModel(m, order);
    ReplayInOrder(m, order, g)
  }

  /** A line that loadRuleLineToModel ignores: empty, or a "#" comment. */
  predicate Skipped(line: string) {
    line == "" || line[0] == '#'
  }

  /**
   loadRuleLineToModel: split the line on ", ", take the first token as the
   policy type and its first character as the section, and append the other
   tokens as a rule, without a duplicate check.
   */
  function LoadRuleLineToModel(line: string, m: Model): (r: Result<Model>)
    ensures Skipped(line) ==> r == Success(m)
    ensures r.Failure? <==>
      (!Skipped(line) && (|Split(line)[0]| == 0 || !Defined(m, Split(line)[0][..1], Split(line)[0])))
    ensures r.Success? && !Skipped(line) ==>
      var tokens := Split(line);
      var key := tokens[0];
      && |key| >= 1 && Defined(m, key[..1], key) && Defined(r.value, key[..1], key)
      && Join([key] + tokens[1..]) == line
      && GetRule(r.value, key[..1], key) == GetRule(m, key[..1], key) + [tokens[1..]]
      && OnlyRulesChanged(m, r.value, key[..1], key)
  {
    if line == "" then Success(m)
    else if line[0] == '#' then Success(m)
    else
      var tokens := Split(line);
      var key := tokens[0];
      if |key| == 0 then Failure(EmptyKey(line))
      else
        var sec := key[..1];
        if !Defined(m, sec, key) then Failure(UndefinedAssertion(sec, key))
        else
          JoinSplit(line);
          assert tokens == [key] + tokens[1..];
          Success(WithRules(m, sec, key, GetRule(m, sec, key) + [tokens[1..]]))
  }
}
