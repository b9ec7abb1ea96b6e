/**
 The rule manager of manager/rbac/role/rule.go. Grouping rules (role
 inheritance) live in assertion ("g", "g") and authorization rules in
 ("p", "p"). With auto-build on, every grouping mutation ends by clearing the
 role manager and replaying all grouping rules into it.
 */
module Manager {
  import opened Results
  import opened Text
  import opened Tuples
  import Roles
  import RuleModel

  /** A rule manager: the model, the role manager it replays into, and the auto-build switch. */
  datatype RuleManager = RuleManager(rules: RuleModel.Model, rm: Roles.RoleGraph, autoBuildRoleLinks: bool)

  /**
   The shape every manager has: the grouping and policy assertions exist and
   "g" is the only grouping assertion (no manager operation adds definitions).
   */
  predicate Valid(mgr: RuleManager) {
    && RuleModel.Defined(mgr.rules, "g", "g")
    && RuleModel.Defined(mgr.rules, "p", "p")
    && mgr.rules["g"].Keys == {"g"}
  }

  /** The grouping rules, assertion ("g", "g"). */
  function Grouping(mgr: RuleManager): seq<Rule>
    requires Valid(mgr)
  {
    RuleModel.GetRule(mgr.rules, "g", "g")
  }

  /** The authorization rules, assertion ("p", "p"). */
  function Policies(mgr: RuleManager): seq<Rule>
    requires Valid(mgr)
  {
    RuleModel.GetRule(mgr.rules, "p", "p")
  }

  /** The number of "_" in the grouping definition. */
  function GroupingCount(mgr: RuleManager): nat
    requires Valid(mgr)
  {
    RuleModel.PlaceholderCount(mgr.rules["g"]["g"])
  }

  /** The grouping rules can be replayed without a panic. */
  predicate GroupingBuildable(mgr: RuleManager)
    requires Valid(mgr)
  {
    RuleModel.LinksBuildable(Grouping(mgr), GroupingCount(mgr))
  }

  /** The links the grouping rules stand for. */
  function GroupingLinks(mgr: RuleManager): set<Roles.Link>
    requires Valid(mgr) && GroupingBuildable(mgr)
  {
    RuleModel.LinksOf(Grouping(mgr), GroupingCount(mgr))
  }

  /** The role manager holds exactly the links of the current grouping rules: nothing stale, nothing missing. */
  predicate InSync(mgr: RuleManager) {
    Valid(mgr) && GroupingBuildable(mgr) && mgr.rm.links == GroupingLinks(mgr)
  }

  /** With "g" the only grouping assertion, the model's links are those of ("g", "g"). */
  lemma SingleGroupingAssertion(mgr: RuleManager)
    requires Valid(mgr)
    ensures RuleModel.IterationOrder(mgr.rules, ["g"])
    ensures RuleModel.ModelBuildable(mgr.rules) <==> GroupingBuildable(mgr)
    ensures GroupingBuildable(mgr) ==> RuleModel.ModelLinks(mgr.rules) == GroupingLinks(mgr)
  {
    var ast := mgr.rules["g"]["g"];
    assert forall p :: p in mgr.rules["g"] <==> p == "g";
    assert RuleModel.ModelBuildable(mgr.rules) <==> RuleModel.AssertionBuildable(ast);
    if GroupingBuildable(mgr) {
      assert RuleModel.AssertionLinks(ast) == GroupingLinks(mgr);
      forall l ensures l in RuleModel.ModelLinks(mgr.rules) <==> l in GroupingLinks(mgr) {
        if l in GroupingLinks(mgr) {
          assert l in RuleModel.AssertionLinks(ast);
        }
      }
    }
  }

  /** buildRoleLinks: clear the role manager, then replay every grouping rule into it. */
  function BuildRoleLinks(mgr: RuleManager): (r: Result<RuleManager>)
    requires Valid(mgr)
    ensures r.Success? <==> GroupingBuildable(mgr)
    ensures r.Success? ==> r.value.rules == mgr.rules && r.value.autoBuildRoleLinks == mgr.autoBuildRoleLinks
    ensures r.Success? ==> InSync(r.value) && r.value.rm.maxHierarchyLevel == mgr.rm.maxHierarchyLevel
  {
    SingleGroupingAssertion(mgr);
    var g :- RuleModel.BuildRoleLinks(mgr.rules, ["g"], Roles.Clear(mgr.rm));
    Success(mgr.(rm := g))
  }

  /** The tail of every grouping mutation: rebuild when auto-build is on. */
  function AutoBuild(mgr: RuleManager): (r: Result<RuleManager>)
    requires Valid(mgr)
    ensures !mgr.autoBuildRoleLinks ==> r == Success(mgr)
    ensures mgr.autoBuildRoleLinks ==> (r.Success? <==> GroupingBuildable(mgr))
    ensures r.Success? ==> r.value.rules == mgr.rules && r.value.autoBuildRoleLinks == mgr.autoBuildRoleLinks
    ensures r.Success? && mgr.autoBuildRoleLinks ==> InSync(r.value)
  {
    if mgr.autoBuildRoleLinks then BuildRoleLinks(mgr) else Success(mgr)
  }

  /**
   addNamedGroupingRule / addRule for ptype "g": add the rule to ("g", "g")
   unless present, then rebuild (even when nothing was added). The flag says
   whether the rule was added.
   */
  function AddGroupingRule(mgr: RuleManager, rule: Rule): (r: Result<(RuleManager, bool)>)
    requires Valid(mgr)
    ensures var after := if rule in Grouping(mgr) then Grouping(mgr) else Grouping(mgr) + [rule];
      r.Success? <==> !mgr.autoBuildRoleLinks || RuleModel.LinksBuildable(after, GroupingCount(mgr))
    ensures r.Success? ==>
      var (mgr2, added) := r.value;
      && Valid(mgr2)
      && (added <==> rule !in Grouping(mgr))
      && Grouping(mgr2) == (if added then Grouping(mgr) + [rule] else Grouping(mgr))
      && RuleModel.OnlyRulesChanged(mgr.rules, mgr2.rules, "g", "g")
      && mgr2.autoBuildRoleLinks == mgr.autoBuildRoleLinks
      && (mgr.autoBuildRoleLinks ==> InSync(mgr2))
      && (!mgr.autoBuildRoleLinks ==> mgr2.rm == mgr.rm)
  {
    var (rules, added) := RuleModel.Add(mgr.rules, "g", "g", rule);
    var mgr1 := mgr.(rules := rules);
    var mgr2 :- AutoBuild(mgr1);
    Success((mgr2, added))
  }

  /**
   removeFilteredNamedGroupingRule for ptype "g": drop the grouping rules the
   filter matches, then rebuild. The flag says whether any rule matched.
   */
  function RemoveFilteredGroupingRule(mgr: RuleManager, f: Filter): (r: Result<(RuleManager, bool)>)
    requires Valid(mgr) && ScannableAll(Grouping(mgr), f)
    ensures r.Success? <==>
      !mgr.autoBuildRoleLinks || RuleModel.LinksBuildable(Select(Grouping(mgr), f, false), GroupingCount(mgr))
    ensures r.Success? ==>
      var (mgr2, removed) := r.value;
      && Valid(mgr2)
      && (removed <==> exists t :: t in Grouping(mgr) && f.Matches(t))
      && IsSelection(Grouping(mgr2), Grouping(mgr), f, false)
      && RuleModel.OnlyRulesChanged(mgr.rules, mgr2.rules, "g", "g")
      && Policies(mgr2) == Policies(mgr)
      && mgr2.autoBuildRoleLinks == mgr.autoBuildRoleLinks
      && (mgr.autoBuildRoleLinks ==> InSync(mgr2))
      && (!mgr.autoBuildRoleLinks ==> mgr2.rm == mgr.rm)
  {
    var (rules, removed) := RuleModel.RemoveFilteredRule(mgr.rules, "g", "g", f);
    SelectionUnique(RuleModel.GetRule(rules, "g", "g"), Select(Grouping(mgr), f, false), Grouping(mgr), f, false);
    var mgr1 := mgr.(rules := rules);
    var mgr2 :- AutoBuild(mgr1);
    Success((mgr2, removed))
  }

  /** A manager with the same grouping section and role manager keeps the grouping invariants. */
  lemma SameGroupingKeepsInvariants(mgr: RuleManager, mgr2: RuleManager)
    requires Valid(mgr) && Valid(mgr2)
    requires mgr2.rules["g"] == mgr.rules["g"] && mgr2.rm == mgr.rm
    requires mgr2.autoBuildRoleLinks == mgr.autoBuildRoleLinks
    ensures Grouping(mgr2) == Grouping(mgr) && GroupingCount(mgr2) == GroupingCount(mgr)
    ensures InSync(mgr) ==> InSync(mgr2)
    ensures WellFormed(mgr) ==> WellFormed(mgr2)
  {
  }

  /** removeFilteredNamedRule for ptype "p": drop the matching policy rules; no rebuild. */
  function RemoveFilteredRules(mgr: RuleManager, f: Filter): (r: (RuleManager, bool))
    requires Valid(mgr) && ScannableAll(Policies(mgr), f)
    ensures Valid(r.0)
    ensures r.1 <==> exists t :: t in Policies(mgr) && f.Matches(t)
    ensures IsSelection(Policies(r.0), Policies(mgr), f, false)
    ensures RuleModel.OnlyRulesChanged(mgr.rules, r.0.rules, "p", "p")
    ensures r.0.rm == mgr.rm && r.0.autoBuildRoleLinks == mgr.autoBuildRoleLinks
    ensures Grouping(r.0) == Grouping(mgr) && GroupingCount(r.0) == GroupingCount(mgr)
    ensures InSync(mgr) ==> InSync(r.0)
    ensures WellFormed(mgr) ==> WellFormed(r.0)
  {
    var (rules, removed) := RuleModel.RemoveFilteredRule(mgr.rules, "p", "p", f);
    assert rules["g"] == mgr.rules["g"] by {
      assert rules["g"].Keys == {"g"} && rules["g"]["g"] == mgr.rules["g"]["g"];
    }
    SameGroupingKeepsInvariants(mgr, mgr.(rules := rules));
    (mgr.(rules := rules), removed)
  }

  /** The filter DeleteUser uses: field 0 equals the user. */
  function UserFilter(user: string): Filter {
    Filter(0, [user])
  }

  /** The DeleteUser filter matches the rules whose user is `user`; "" matches every rule. */
  lemma UserFilterMatches(user: string)
    ensures forall t :: UserFilter(user).Matches(t) <==> user == "" || (|t| > 0 && t[0] == user)
  {
    OneValueFilterMatches(0, user);
  }

  /** The filter DeleteRole uses on grouping rules: field 1 equals the role. */
  function InheritedRoleFilter(role: string): Filter {
    Filter(1, [role])
  }

  /** The DeleteRole grouping filter matches the rules granting `role`; "" matches every rule. */
  lemma InheritedRoleFilterMatches(role: string)
    ensures forall t :: InheritedRoleFilter(role).Matches(t) <==> role == "" || (|t| > 1 && t[1] == role)
  {
    OneValueFilterMatches(1, role);
  }

  /** The filter DeleteRole uses on policy rules: field 0 equals the role. */
  function SubjectFilter(role: string): Filter {
    Filter(0, [role])
  }

  /**
   The built-in grouping definition "_, _, _", every grouping rule with at
   least three fields, auto-build on, and the role manager in step with the
   rules: what newRuleManager establishes and the public operations keep.
   */
  predicate WellFormed(mgr: RuleManager) {
    && Valid(mgr)
    && GroupingCount(mgr) == 3
    && (forall t :: t in Grouping(mgr) ==> |t| >= 3)
    && mgr.autoBuildRoleLinks
    && mgr.rm.links == DomainLinks(Grouping(mgr))
  }

  /** The links of three-field grouping rules: user, role, domain. */
  function DomainLinks(rules: seq<Rule>): set<Roles.Link>
    requires forall t :: t in rules ==> |t| >= 3
  {
    set t | t in rules :: Roles.Link(t[0], t[1], [t[2]])
  }

  /** How the user-role-domain links of a non-empty list split into its head and tail. */
  lemma DomainLinksCons(rules: seq<Rule>)
    requires |rules| > 0 && forall t :: t in rules ==> |t| >= 3
    ensures |rules[0]| >= 3 && forall t :: t in rules[1..] ==> |t| >= 3
    ensures RuleModel.LinkOf(rules[0], 3) == Roles.Link(rules[0][0], rules[0][1], [rules[0][2]])
    ensures DomainLinks(rules) == {RuleModel.LinkOf(rules[0], 3)} + DomainLinks(rules[1..])
  {
    var t := rules[0];
    assert t in rules && t[2..3] == [t[2]];
    assert forall u :: u in rules <==> u == t || u in rules[1..];
  }

  /** With three placeholders, replaying three-field rules gives their user-role-domain links. */
  lemma {:induction false} LinksOfThreeFields(rules: seq<Rule>)
    requires forall t :: t in rules ==> |t| >= 3
    ensures RuleModel.LinksBuildable(rules, 3)
    ensures RuleModel.LinksOf(rules, 3) == DomainLinks(rules)
    decreases |rules|
  {
    if |rules| > 0 {
      DomainLinksCons(rules);
      LinksOfThreeFields(rules[1..]);
      RuleModel.LinksOfCons(rules, 3);
    }
  }

  /** A well-formed manager is in sync, so well-formedness is the in-sync invariant for the built-in definition. */
  lemma WellFormedInSync(mgr: RuleManager)
    requires WellFormed(mgr)
    ensures InSync(mgr)
  {
    LinksOfThreeFields(Grouping(mgr));
  }

  /** The definition "_, _, _" has three placeholders. */
  lemma GroupingDefinitionCount(value: string)
    requires value == RuleModel.GroupingDefinition
    ensures CountChar(value, '_') == 3
  {
    assert value == "_, _, _";
    assert value[1..] == ", _, _";
    assert value[1..][1..] == " _, _";
    assert value[1..][1..][1..] == "_, _";
    assert value[1..][1..][1..][1..] == ", _";
    assert value[1..][1..][1..][1..][1..] == " _";
    assert value[1..][1..][1..][1..][1..][1..] == "_";
  }

  /** A manager over a model whose grouping and policy assertions are defined and still empty. */
  function EmptyManager(rules: RuleModel.Model, rm: Roles.RoleGraph): (mgr: RuleManager)
    requires RuleModel.Defined(rules, "g", "g") && RuleModel.Defined(rules, "p", "p") && rules["g"].Keys == {"g"}
    requires rules["g"]["g"].rules == [] && rules["p"]["p"].rules == []
    requires RuleModel.PlaceholderCount(rules["g"]["g"]) == 3 && rm.links == {}
    ensures WellFormed(mgr) && mgr.rules == rules && mgr.rm == rm
    ensures Grouping(mgr) == [] && Policies(mgr) == []
  {
    var mgr := RuleManager(rules, rm, true);
    assert DomainLinks(Grouping(mgr)) == {};
    mgr
  }

  /** newRuleManager: the built-in model, an empty role manager of depth 10, auto-build on. */
  function NewRuleManager(): (mgr: RuleManager)
    ensures WellFormed(mgr)
    ensures Grouping(mgr) == [] && Policies(mgr) == []
    ensures mgr.rm.links == {} && mgr.rm.maxHierarchyLevel == 10
  {
    var rules := RuleModel.NewModel().value;
    RuleModel.BuiltinKeys(RuleModel.SectionDefinitions);
    RuleModel.BuiltinValues(RuleModel.SectionDefinitions);
    GroupingDefinitionCount(rules["g"]["g"].value);
    EmptyManager(rules, Roles.NewRoleGraph(10))
  }

  /** Three-field links of a list with one rule appended. */
  lemma DomainLinksAppend(rules: seq<Rule>, rule: Rule)
    requires forall t :: t in rules ==> |t| >= 3
    requires |rule| >= 3
    ensures DomainLinks(rules + [rule]) == DomainLinks(rules) + {Roles.Link(rule[0], rule[1], [rule[2]])}
  {
    assert forall t :: t in rules + [rule] <==> t in rules || t == rule;
  }

  /** Adding a three-field rule to a list, unless it is already there, adds exactly its link. */
  lemma AddedRuleLinks(rules: seq<Rule>, rule: Rule)
    requires forall t :: t in rules ==> |t| >= 3
    requires |rule| >= 3
    ensures forall t :: t in (if rule in rules then rules else rules + [rule]) ==> |t| >= 3
    ensures DomainLinks(if rule in rules then rules else rules + [rule])
      == DomainLinks(rules) + {Roles.Link(rule[0], rule[1], [rule[2]])}
  {
    DomainLinksAppend(rules, rule);
    if rule in rules {
      assert Roles.Link(rule[0], rule[1], [rule[2]]) in DomainLinks(rules);
    }
  }

  /** An in-sync manager over three-field rules with the built-in definition and auto-build on is well formed. */
  lemma InSyncWellFormed(mgr: RuleManager)
    requires InSync(mgr) && GroupingCount(mgr) == 3 && mgr.autoBuildRoleLinks
    requires forall t :: t in Grouping(mgr) ==> |t| >= 3
    ensures WellFormed(mgr)
  {
    LinksOfThreeFields(Grouping(mgr));
  }

  /** On a well-formed manager, adding a three-field grouping rule succeeds and keeps it well formed. */
  lemma AddKeepsWellFormed(mgr: RuleManager, rule: Rule)
    requires WellFormed(mgr) && |rule| >= 3
    ensures AddGroupingRule(mgr, rule).Success?
    ensures WellFormed(AddGroupingRule(mgr, rule).value.0)
    ensures AddGroupingRule(mgr, rule).value.0.rm.links ==
      DomainLinks(if rule in Grouping(mgr) then Grouping(mgr) else Grouping(mgr) + [rule])
  {
    var after := if rule in Grouping(mgr) then Grouping(mgr) else Grouping(mgr) + [rule];
    assert forall t :: t in after ==> |t| >= 3;
    LinksOfThreeFields(after);
    var mgr2 := AddGroupingRule(mgr, rule).value.0;
    assert mgr2.rules["g"]["g"].value == mgr.rules["g"]["g"].value;
    assert Grouping(mgr2) == after && GroupingCount(mgr2) == 3;
    assert InSync(mgr2);
    InSyncWellFormed(mgr2);
  }

  /** On a well-formed manager, adding a three-field grouping rule adds exactly its link, whether or not the rule was new. */
  lemma AddLinksOneLink(mgr: RuleManager, rule: Rule)
    requires Valid(mgr)
    ensures WellFormed(mgr) && |rule| >= 3 ==>
      && AddGroupingRule(mgr, rule).Success?
      && WellFormed(AddGroupingRule(mgr, rule).value.0)
      && AddGroupingRule(mgr, rule).value.0.rm.links == mgr.rm.links + {Roles.Link(rule[0], rule[1], [rule[2]])}
  {
    if WellFormed(mgr) && |rule| >= 3 {
      AddKeepsWellFormed(mgr, rule);
      AddedRuleLinks(Grouping(mgr), rule);
    }
  }

  /**
   AddRoleForUserInDomain: the grouping rule [user, role, domain]. On a
   well-formed manager it always succeeds, keeps the manager well formed, and
   the role manager gains exactly the user-role-domain link.
   */
  function AddRoleForUserInDomain(mgr: RuleManager, user: string, role: string, domain: string): (r: Result<(RuleManager, bool)>)
    requires Valid(mgr)
    ensures r.Success? ==>
      && Valid(r.value.0)
      && (r.value.1 <==> [user, role, domain] !in Grouping(mgr))
      && Grouping(r.value.0) == (if r.value.1 then Grouping(mgr) + [[user, role, domain]] else Grouping(mgr))
      && RuleModel.OnlyRulesChanged(mgr.rules, r.value.0.rules, "g", "g")
    ensures WellFormed(mgr) ==>
      && r.Success?
      && WellFormed(r.value.0)
      && r.value.0.rm.links == mgr.rm.links + {Roles.Link(user, role, [domain])}
  {
    AddLinksOneLink(mgr, [user, role, domain]);
    AddGroupingRule(mgr, [user, role, domain])
  }

  /** On a well-formed manager, a filtered removal of grouping rules succeeds and keeps it well formed. */
  lemma RemoveKeepsWellFormed(mgr: RuleManager, f: Filter)
    requires Valid(mgr) && ScannableAll(Grouping(mgr), f)
    ensures WellFormed(mgr) ==>
      RemoveFilteredGroupingRule(mgr, f).Success? && WellFormed(RemoveFilteredGroupingRule(mgr, f).value.0)
  {
    if WellFormed(mgr) {
      var survivors := Select(Grouping(mgr), f, false);
      SelectionMembers(survivors, Grouping(mgr), f, false);
      LinksOfThreeFields(survivors);
      var r := RemoveFilteredGroupingRule(mgr, f);
      SelectionUnique(Grouping(r.value.0), survivors, Grouping(mgr), f, false);
    }
  }

  /**
   DeleteUser: remove every grouping rule whose user is `user`; the flag says
   whether there was one. Policies are untouched; a well-formed manager stays
   well formed, with exactly the links of the remaining rules.
   */
  function DeleteUser(mgr: RuleManager, user: string): (r: Result<(RuleManager, bool)>)
    requires Valid(mgr) && ScannableAll(Grouping(mgr), UserFilter(user))
    ensures r.Success? ==>
      && Valid(r.value.0)
      && (r.value.1 <==> exists t :: t in Grouping(mgr) && UserFilter(user).Matches(t))
      && IsSelection(Grouping(r.value.0), Grouping(mgr), UserFilter(user), false)
      && Policies(r.value.0) == Policies(mgr)
    ensures WellFormed(mgr) ==> r.Success? && WellFormed(r.value.0)
  {
    RemoveKeepsWellFormed(mgr, UserFilter(user));
    RemoveFilteredGroupingRule(mgr, UserFilter(user))
  }

  /** DeleteUser removes exactly the grouping rules of `user`: the others all stay. */
  lemma DeleteUserRemovesUser(mgr: RuleManager, user: string, t: Rule)
    requires Valid(mgr) && ScannableAll(Grouping(mgr), UserFilter(user)) && DeleteUser(mgr, user).Success?
    requires user != ""
    ensures t in Grouping(DeleteUser(mgr, user).value.0) <==> t in Grouping(mgr) && !(|t| >= 1 && t[0] == user)
  {
    OneValueFilter(0, user, t);
    SelectionMembers(Grouping(DeleteUser(mgr, user).value.0), Grouping(mgr), UserFilter(user), false);
  }

  /**
   DeleteRole: remove the grouping rules that grant `role` (rebuilding), then
   the policy rules whose subject is `role`.
   */
  function DeleteRole(mgr: RuleManager, role: string): (r: Result<RuleManager>)
    requires Valid(mgr)
    requires ScannableAll(Grouping(mgr), InheritedRoleFilter(role))
    requires ScannableAll(Policies(mgr), SubjectFilter(role))
    ensures r.Success? ==>
      && Valid(r.value)
      && IsSelection(Grouping(r.value), Grouping(mgr), InheritedRoleFilter(role), false)
      && IsSelection(Policies(r.value), Policies(mgr), SubjectFilter(role), false)
      && r.value.autoBuildRoleLinks == mgr.autoBuildRoleLinks
      && (mgr.autoBuildRoleLinks ==> InSync(r.value))
    ensures WellFormed(mgr) ==> r.Success? && WellFormed(r.value)
  {
    RemoveKeepsWellFormed(mgr, InheritedRoleFilter(role));
    var (mgr1, _) :- RemoveFilteredGroupingRule(mgr, InheritedRoleFilter(role));
    Success(RemoveFilteredRules(mgr1, SubjectFilter(role)).0)
  }

  /**
   DeleteRole removes exactly the grouping rules granting `role` and the policy
   rules whose subject is `role`; policy rules that mention it in another field stay.
   */
  lemma DeleteRoleRemovesRole(mgr: RuleManager, role: string, t: Rule)
    requires Valid(mgr) && role != ""
    requires ScannableAll(Grouping(mgr), InheritedRoleFilter(role))
    requires ScannableAll(Policies(mgr), SubjectFilter(role))
    requires DeleteRole(mgr, role).Success?
    ensures t in Grouping(DeleteRole(mgr, role).value) <==> t in Grouping(mgr) && !(|t| >= 2 && t[1] == role)
    ensures t in Policies(DeleteRole(mgr, role).value) <==> t in Policies(mgr) && !(|t| >= 1 && t[0] == role)
  {
    var after := DeleteRole(mgr, role).value;
    OneValueFilter(1, role, t);
    OneValueFilter(0, role, t);
    SelectionMembers(Grouping(after), Grouping(mgr), InheritedRoleFilter(role), false);
    SelectionMembers(Policies(after), Policies(mgr), SubjectFilter(role), false);
  }

  /** GetAllRoles / getAllNamedRoles: the distinct roles granted by grouping rules. */
  function GetAllRoles(mgr: RuleManager): (roles: seq<string>)
    requires Valid(mgr)
    requires forall t :: t in Grouping(mgr) ==> |t| >= 2
    ensures NoDuplicates(roles)
    ensures forall v :: v in roles <==> exists t :: t in Grouping(mgr) && t[1] == v
  {
    RuleModel.GetValuesForFieldInRule(mgr.rules, "g", "g", 1)
  }

  /** The loop HasRoleForUser and HasRoleForUserInDomain share: scan for `role`, stop at the first hit. */
  method FindRole(roles: seq<string>, role: string) returns (hasRole: bool)
    ensures hasRole <==> role in roles
  {
    hasRole := false;
    var i := 0;
    while i < |roles|
      invariant 0 <= i <= |roles|
      invariant role !in roles[..i]
    {
      if roles[i] == role {
        hasRole := true;
        break;
      }
      assert roles[..i + 1] == roles[..i] + [roles[i]];
      i := i + 1;
    }
    assert !hasRole ==> roles[..i] == roles;
  }

  /**
   HasRoleForUser: whether `role` is among the roles the role manager reports
   for `name`. The role manager's query is not part of this model and comes in
   as `getRoles`.
   */
  method HasRoleForUser(mgr: RuleManager, getRoles: (Roles.RoleGraph, string) -> seq<string>, name: string, role: string)
    returns (hasRole: bool)
    ensures hasRole <==> role in getRoles(mgr.rm, name)
  {
    var roles := getRoles(mgr.rm, name);
    hasRole := FindRole(roles, role);
  }

  /** HasRoleForUserInDomain: the same scan over the roles reported for `name` inside `domain`. */
  method HasRoleForUserInDomain(mgr: RuleManager, getRolesInDomain: (Roles.RoleGraph, string, string) -> seq<string>,
                                name: string, domain: string, role: string)
    returns (hasRole: bool)
    ensures hasRole <==> role in getRolesInDomain(mgr.rm, name, domain)
  {
    var roles := getRolesInDomain(mgr.rm, name, domain);
    hasRole := FindRole(roles, role);
  }

  /**
   The four grants of the package's test, from an empty well-formed manager
   such as NewRuleManager(): both masters are linked to their role in the domain.
   */
  lemma KungFuGrants(m0: RuleManager)
    requires WellFormed(m0) && Grouping(m0) == [] && m0.rm.links == {}
    ensures var m1 := AddRoleForUserInDomain(m0, "Bruce Lee", "master", "Kung Fu").value.0;
      var m2 := AddRoleForUserInDomain(m1, "YIP Man", "master", "Kung Fu").value.0;
      var m3 := AddRoleForUserInDomain(m2, "Peter", "fan", "Kung Fu").value.0;
      var m4 := AddRoleForUserInDomain(m3, "Tom", "fan", "Kung Fu").value.0;
      && WellFormed(m4)
      && Roles.Link("Bruce Lee", "master", ["Kung Fu"]) in m4.rm.links
      && Roles.Link("YIP Man", "master", ["Kung Fu"]) in m4.rm.links
  {
    var m1 := AddRoleForUserInDomain(m0, "Bruce Lee", "master", "Kung Fu").value.0;
    var m2 := AddRoleForUserInDomain(m1, "YIP Man", "master", "Kung Fu").value.0;
    var m3 := AddRoleForUserInDomain(m2, "Peter", "fan", "Kung Fu").value.0;
    assert Roles.Link("Bruce Lee", "master", ["Kung Fu"]) in m3.rm.links;
    assert Roles.Link("YIP Man", "master", ["Kung Fu"]) in m3.rm.links;
  }
}
