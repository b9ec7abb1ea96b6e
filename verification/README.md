# RBAC rule store of gunsluo/ladon, in Dafny

This project models the rule store behind the RBAC manager of gunsluo/ladon
(package `manager/rbac/role`):

- **Model** (`model.go`, module `RuleModel`): sections `r`, `p`, `g`, `e`, `m`
  map policy types to assertions. Each assertion holds a definition string, its
  tokens and an ordered list of rule tuples. The module covers exact-match
  lookup, de-duplicating add, remove-first, field-filtered query and removal,
  distinct values at a field, the partial `Clear`, `addDef`, the replay of
  grouping rules into the role manager, and `loadRuleLineToModel`.
- **RuleManager** (`rule.go`, module `Manager`): translates
  `AddRoleForUserInDomain`, `DeleteUser`, `DeleteRole` and `GetAllRoles` into
  tuple operations on `g`/`g` and `p`/`p`. With auto-build on, it clears and
  rebuilds the role manager after every grouping change.
- **Adapter helpers** (`adapter.go`, module `Adapter`): `saveRuleLine` flattens
  a rule into a six-column row, and `loadRuleLine` turns a row back into a
  `", "`-joined text line. The filter row of `RemoveFilteredRule` and the
  `WHERE` text and arguments of `rawDeleteAll` are modelled too.

Supporting modules:

- `Results` holds the error values that stand for Go panics.
- `Text` holds `strings.Split` and `strings.Count` with a one-character needle. Its `Join` is not
  a Go call: it is the reference definition of a `", "`-joined line, the partner of `Split`.
- `Tuples` holds the list-level rule operations and the field filter.
- `Roles` holds the role manager, reduced to its set of links. Its
  implementation (`newRoleManager`, `AddLink`, `GetRoles`, `GetUsers`) is not
  part of this model.

Everything is immutable. An operation that mutates in Go returns the new state
and its boolean result. A Go panic on data becomes either a `Failure` value or
a precondition:

- `Failure` values: the unsupported section of `loadAssertion`, the two panics
  of the replay (fewer than two placeholders, a rule shorter than their count),
  and the empty or undefined key of `loadRuleLineToModel`.
- Preconditions: the index out of range inside a filter scan
  (`Filter.Scannable`); the index out of range of `GetValuesForFieldInRule` on a
  rule shorter than `fieldIndex + 1` (`RuleModel.GetValuesForFieldInRule`, and
  `Manager.GetAllRoles` for field 1); and the nil dereference on an undefined
  `(sec, ptype)` pair (`RuleModel.Defined`) in `GetRule`, `GetFilteredRule`,
  `HasRule`, `Add`, `Remove`, `RemoveFilteredRule` and
  `GetValuesForFieldInRule`.

Behaviour worth knowing, all taken from the code:

- An empty filter value is a wildcard. So `DeleteUser("")` and `DeleteRole("")`
  match every rule; the membership lemmas therefore require a non-empty name.
- The filter loop stops at the first mismatch. A position outside a tuple
  panics only when every earlier position agreed (`Filter.Scannable`).
- `DeleteRole` rebuilds the role manager between its two removals: after the
  grouping removal, and not after the policy removal.
- The replay counts `"_"` in the definition. A count below 2 fails only when
  there are rules to replay. A count above 4 replays nothing and adds no link.
  A rule shorter than the count fails.
- A grouping add rebuilds even when the rule was already present.
- `loadRuleLineToModel` takes the section as `key[:1]`. Go takes the first
  byte; the model takes the first character. Both are the same for ASCII keys.
- A row has six value columns, so fields past the sixth are dropped on save.
  Empty columns are skipped on load, so later fields shift left.
- The filter row only covers columns 0..5. A filter value aimed at any other
  position is ignored by the database delete, although the in-memory filter
  would use it.
- `HasRoleForUserInDomain` (rule.go:164-176) passes two arguments to the
  one-argument `GetRolesForUser`, so the code as written does not compile. The
  model follows the evident intent: it queries the roles of the user inside
  the domain.

## Model

| member | source | states |
|---|---|---|
| Text.CountChar | manager/rbac/role/model.go:202 | the placeholder count is at most the length, and is zero iff the character does not occur |
| Text.CountCharAppend | manager/rbac/role/model.go:202 | the count over a concatenation is the sum of the counts |
| Text.Split | manager/rbac/role/model.go:234 | splitting on ", " always yields at least one piece |
| Text.JoinSplit | manager/rbac/role/model.go:234 | joining the pieces of a split with ", " gives the line back |
| Text.SplitJoin | manager/rbac/role/adapter.go:127-148 | splitting a join of separator-free pieces gives exactly those pieces |
| Text.SplitWithoutSeparator | manager/rbac/role/model.go:234 | a string without ", " splits into itself alone |
| Text.SplitAfterHead | manager/rbac/role/model.go:234 | the split cuts at the first separator after a separator-free head |
| Text.JoinStartsWithHead | manager/rbac/role/model.go:236-237 | a joined line starts with the first character of its first piece, the key's section letter |
| Tuples.OneValueFilter | manager/rbac/role/model.go:108-113 | a one-value filter matches iff the value is empty or the tuple carries it at that position |
| Tuples.RuleMatches | manager/rbac/role/model.go:107-113 | the scan loop returns true iff every non-empty filter value equals the tuple field it aims at |
| Tuples.Select | manager/rbac/role/model.go:103-121 | the result is the in-order subsequence of exactly the rules whose match equals the requested outcome |
| Tuples.SelectionUnique | manager/rbac/role/model.go:156-177 | only one list is an in-order selection of a given list by a given filter |
| Tuples.SelectionHead | manager/rbac/role/model.go:159-173 | a selection starts with the first rule iff that rule's match equals the requested outcome |
| Tuples.SelectionMembers | manager/rbac/role/model.go:168-172 | a rule is in a selection iff it is in the list and its match equals the requested outcome |
| Tuples.SelectPartitions | manager/rbac/role/model.go:156-177 | the matching and the surviving rules together are the original list as a multiset, and their lengths add up |
| Tuples.SubsequenceCounts | manager/rbac/role/model.go:156-177 | an in-order subsequence never holds more copies of a rule than the list |
| Tuples.SubsequenceKeepsNoDuplicates | manager/rbac/role/model.go:156-177 | a subsequence of a duplicate-free list is duplicate-free |
| Tuples.NoDuplicatesCountsOne | manager/rbac/role/model.go:134-141 | a duplicate-free list holds each rule at most once |
| Tuples.Contains | manager/rbac/role/model.go:124-132 | the exact-match lookup is true iff an equal tuple is present |
| Tuples.IndexOf | manager/rbac/role/model.go:145-146 | the index is that of the first equal tuple: no equal tuple comes before it |
| Tuples.AddRule | manager/rbac/role/model.go:134-141 | the rule is appended at the end iff it was absent, and the flag says so; otherwise the list is unchanged |
| Tuples.AddKeepsNoDuplicates | manager/rbac/role/model.go:134-141 | adding keeps a duplicate-free list duplicate-free |
| Tuples.AddIdempotent | manager/rbac/role/model.go:134-141 | adding the same rule a second time changes nothing and reports false |
| Tuples.RemoveRule | manager/rbac/role/model.go:144-153 | the first equal tuple is cut out and the rest keep their order; the flag is true iff one existed |
| Tuples.RemoveLaterOccurrence | manager/rbac/role/model.go:145-147 | removing an occurrence behind the head keeps the head in front |
| Tuples.RemoveTakesOneOccurrence | manager/rbac/role/model.go:144-153 | removing takes exactly one copy of the rule from the multiset, and nothing else |
| Tuples.RemoveFromNoDuplicates | manager/rbac/role/model.go:144-153 | in a duplicate-free list the rule is gone afterwards, every other rule stays, and order is kept |
| Tuples.RemovePrefixSubsequence | manager/rbac/role/model.go:147 | cutting one element out leaves an in-order subsequence |
| Tuples.SelectKeepsNoDuplicates | manager/rbac/role/model.go:156-177 | filtering keeps a duplicate-free list duplicate-free |
| Tuples.FieldValues | manager/rbac/role/model.go:183-185 | one value per rule, and a value occurs iff some rule carries it at the field |
| Tuples.DedupFrom | manager/rbac/role/model.go:187 | the result is duplicate-free and holds exactly the values not already seen |
| Tuples.Dedup | manager/rbac/role/model.go:187 | the result is duplicate-free and holds exactly the input's values |
| Roles.NewRoleGraph | manager/rbac/role/rule.go:18 | a new role manager has no links and the given hierarchy depth |
| Roles.Clear | manager/rbac/role/rule.go:205 | clearing drops every link and keeps the depth |
| Roles.AddLink | manager/rbac/role/model.go:211-216 | adding a link adds exactly that link |
| RuleModel.WithRules | manager/rbac/role/model.go:137 | replacing one rule list leaves every other assertion and every definition field as it was |
| RuleModel.GetRule | manager/rbac/role/model.go:97-100 | reads the rule list of the (sec, ptype) assertion; the precondition excludes an undefined pair, where Go dereferences nil; GetRuleWriteBack and WithRules give its read/write laws |
| RuleModel.GetRuleWriteBack | manager/rbac/role/model.go:97-100 | writing back the rule list GetRule reads leaves the model unchanged |
| RuleModel.PrefixTokens | manager/rbac/role/model.go:68-72 | token i is the key, "_" and field name i; there is one token per name |
| RuleModel.DropPrefixes | manager/rbac/role/model.go:68-72 | each result is the corresponding token minus its first characters |
| RuleModel.FreshAssertion | manager/rbac/role/model.go:59-82 | the new assertion has the given key and definition and no rules; an r or p definition gives one token per field, any other section none |
| RuleModel.AddDef | manager/rbac/role/model.go:59-85 | an empty definition is refused and leaves the model unchanged; otherwise the assertion is installed with no rules, tokens only for r and p, and nothing else changes |
| RuleModel.TokensSpellDefinition | manager/rbac/role/model.go:68-72 | stripping the key prefix from the tokens and joining them gives the definition back |
| RuleModel.LoadAssertion | manager/rbac/role/model.go:49-57 | a key missing from the table fails with "section not supported"; otherwise the assertion is installed in its section |
| RuleModel.LoadSections | manager/rbac/role/model.go:45-47 | loading fresh sections adds each one with one assertion named after it, and keeps the sections already present |
| RuleModel.NewModel | manager/rbac/role/model.go:34-43 | the new model has exactly the five built-in sections, each with one assertion named after it, its definition and no rules |
| RuleModel.RequestDefinitionFields | manager/rbac/role/model.go:26-27 | the request definition is the four field names joined by ", " |
| RuleModel.SplitFieldNames | manager/rbac/role/model.go:68 | splitting a join of comma-free field names gives the names back |
| RuleModel.RequestDefinitionSplits | manager/rbac/role/model.go:26-27 | the request and policy definitions split into sub, dom, obj and act |
| RuleModel.FieldTokens | manager/rbac/role/model.go:68-72 | the built-in field names prefixed with "r" are r_sub, r_dom, r_obj, r_act, and with "p" are p_sub, p_dom, p_obj, p_act |
| RuleModel.NewModelTokens | manager/rbac/role/model.go:34-43 | the built-in request tokens are r_sub, r_dom, r_obj and r_act, and the policy tokens are p_sub, p_dom, p_obj and p_act |
| RuleModel.Clear | manager/rbac/role/model.go:87-95 | every p and g assertion loses its rules; every other assertion and every definition field is kept |
| RuleModel.ClearEmptiesRules | manager/rbac/role/model.go:87-95 | after Clear no policy or grouping rule is left, the other sections keep their rules, and clearing twice is clearing once |
| RuleModel.GetFilteredRule | manager/rbac/role/model.go:103-121 | the result is the in-order subsequence of exactly the matching rules |
| RuleModel.WildcardFilterSelectsAll | manager/rbac/role/model.go:108-109 | a filter of empty values only never panics and returns every rule |
| RuleModel.HasRule | manager/rbac/role/model.go:124-132 | true iff an equal tuple is in the assertion |
| RuleModel.Add | manager/rbac/role/model.go:134-141 | appends at the end and returns true iff the rule was absent; otherwise the model is unchanged; only this rule list changes |
| RuleModel.Remove | manager/rbac/role/model.go:144-153 | cuts out the first equal tuple and returns true iff there was one; only this rule list changes |
| RuleModel.RemoveFilteredRule | manager/rbac/role/model.go:156-177 | keeps exactly the in-order non-matching rules and returns true iff some rule matched |
| RuleModel.RemoveFilteredComplementsGetFiltered | manager/rbac/role/model.go:103-177 | the removed rules and the survivors together make up the old list, and no survivor matches |
| RuleModel.GetValuesForFieldInRule | manager/rbac/role/model.go:180-191 | the result is duplicate-free and holds exactly the values found at the field |
| RuleModel.PlaceholderCount | manager/rbac/role/model.go:202 | the count of "_" is at most the definition's length, and is zero exactly when the definition has no "_" |
| RuleModel.LinkOf | manager/rbac/role/model.go:211-216 | the link a rule stands for under `count` placeholders; its fields are stated by LinkOfFields |
| RuleModel.LinkOfFields | manager/rbac/role/model.go:211-216 | child, parent and the domain fields of a rule's link spell out the rule's first `count` fields |
| RuleModel.LinksOf | manager/rbac/role/model.go:203-217 | the links a rule list stands for; LinksOfMembers characterises them and LinksOfBound bounds them |
| RuleModel.LinksOfBound | manager/rbac/role/model.go:203-217 | a rule list stands for at most one link per rule, and for none when the count is above four |
| RuleModel.AddRuleLink | manager/rbac/role/model.go:211-217 | the link has the first two fields and then the fields up to the count; a count above four adds nothing |
| RuleModel.LinksOfCons | manager/rbac/role/model.go:203-217 | buildability and the link set of a list split into its first rule and the rest |
| RuleModel.LinksOfMembers | manager/rbac/role/model.go:203-217 | a link is derived iff some rule's first count fields form it, for a count of two to four |
| RuleModel.ReplayLinks | manager/rbac/role/model.go:200-222 | succeeds iff there are no rules, or the count is at least two and no rule is shorter than it; the role manager gains exactly the derived links |
| RuleModel.LinksInOrderMembers | manager/rbac/role/model.go:194-198 | a link comes from the visited assertions iff one of them derives it |
| RuleModel.ReplayInOrder | manager/rbac/role/model.go:194-198 | replaying the visited assertions succeeds iff each of them can be replayed, and adds the union of their links |
| RuleModel.IterationOrderCoversModel | manager/rbac/role/model.go:195 | every map iteration order covers exactly the grouping assertions of the model |
| RuleModel.BuildRoleLinks | manager/rbac/role/model.go:194-198 | succeeds iff every grouping assertion can be replayed, adds exactly the model's links, and does not depend on the iteration order |
| RuleModel.LoadRuleLineToModel | manager/rbac/role/model.go:225-239 | empty and comment lines change nothing; otherwise the tokens after the key are appended to the key's assertion with no duplicate check; an empty or undefined key fails |
| Manager.SingleGroupingAssertion | manager/rbac/role/model.go:194-198 | with "g" the only grouping assertion, replaying the model is replaying ("g", "g") |
| Manager.BuildRoleLinks | manager/rbac/role/rule.go:204-207 | clear and replay succeed iff the grouping rules can be replayed; afterwards the role manager holds exactly their links |
| Manager.AutoBuild | manager/rbac/role/rule.go:52-54 | rebuilds only when auto-build is on, and then leaves the manager in sync |
| Manager.AddGroupingRule | manager/rbac/role/rule.go:39-78 | adds the rule to g/g iff it was absent and says so, rebuilds even for a duplicate, and touches no other assertion |
| Manager.RemoveFilteredGroupingRule | manager/rbac/role/rule.go:98-104 | keeps exactly the non-matching grouping rules, reports a match, leaves the policies alone and rebuilds |
| Manager.RemoveFilteredRules | manager/rbac/role/rule.go:107-115 | keeps exactly the non-matching policy rules without rebuilding; the grouping rules and the links stay |
| Manager.LinksOfThreeFields | manager/rbac/role/model.go:213-214 | with three placeholders, the replayed links are user, role and domain of each grouping rule |
| Manager.WellFormedInSync | manager/rbac/role/rule.go:52-55 | a well-formed manager's role manager holds exactly the links of its grouping rules |
| Manager.GroupingDefinitionCount | manager/rbac/role/model.go:28 | the built-in role definition has three placeholders |
| Manager.EmptyManager | manager/rbac/role/rule.go:15-21 | a manager over an empty built-in model and an empty role manager is well formed |
| Manager.NewRuleManager | manager/rbac/role/rule.go:15-21 | the new manager is well formed and empty, with auto-build on and depth 10 |
| Manager.DomainLinksAppend | manager/rbac/role/model.go:213-214 | appending a rule adds exactly its user-role-domain link |
| Manager.InSyncWellFormed | manager/rbac/role/rule.go:52-55 | an in-sync manager with the built-in definition and three-field rules is well formed |
| Manager.AddKeepsWellFormed | manager/rbac/role/rule.go:39-56 | on a well-formed manager, adding a three-field rule succeeds and keeps it well formed |
| Manager.AddedRuleLinks | manager/rbac/role/model.go:134-141 | adding a three-field rule to a list unless it is there adds exactly its user-role-domain link |
| Manager.AddLinksOneLink | manager/rbac/role/rule.go:52-55 | on a well-formed manager, adding a three-field rule adds exactly its link, new or not |
| Manager.AddRoleForUserInDomain | manager/rbac/role/rule.go:25-56 | [user, role, domain] ends up in g/g, appended iff absent (the flag says so), the policies untouched, and the role manager gains exactly that link |
| Manager.RemoveKeepsWellFormed | manager/rbac/role/rule.go:98-103 | a filtered grouping removal on a well-formed manager succeeds and keeps it well formed |
| Manager.DeleteUser | manager/rbac/role/rule.go:82-84 | keeps exactly the in-order grouping rules of other users, reports a removal, leaves the policies and keeps the manager well formed |
| Manager.UserFilter | manager/rbac/role/rule.go:83 | the DeleteUser filter, value `user` at field 0; UserFilterMatches states what it matches |
| Manager.UserFilterMatches | manager/rbac/role/rule.go:83 | the filter matches a rule iff the user is "" or is the rule's field 0 |
| Manager.DeleteUserRemovesUser | manager/rbac/role/rule.go:82-84 | a grouping rule survives iff its user is not the deleted one |
| Manager.DeleteRole | manager/rbac/role/rule.go:87-90 | keeps exactly the grouping rules not granting the role and the policy rules whose subject is not the role, and stays in sync |
| Manager.InheritedRoleFilter | manager/rbac/role/rule.go:88 | the DeleteRole grouping filter, value `role` at field 1; InheritedRoleFilterMatches states what it matches |
| Manager.InheritedRoleFilterMatches | manager/rbac/role/rule.go:88 | the filter matches a rule iff the role is "" or is the rule's field 1 |
| Manager.SubjectFilter | manager/rbac/role/rule.go:89 | the DeleteRole policy filter, value `role` at field 0: the same filter as UserFilter, applied to the policy rules, so UserFilterMatches states what it matches |
| Manager.DeleteRoleRemovesRole | manager/rbac/role/rule.go:87-90 | a grouping rule survives iff its role differs; a policy rule survives iff its subject differs, whatever its other fields |
| Manager.GetAllRoles | manager/rbac/role/rule.go:194-201 | each role granted by some grouping rule occurs exactly once, and nothing else does |
| Manager.FindRole | manager/rbac/role/rule.go:182-188 | the scan reports true iff the role is in the list |
| Manager.HasRoleForUser | manager/rbac/role/rule.go:179-191 | true iff the role is among the roles reported for the user |
| Manager.HasRoleForUserInDomain | manager/rbac/role/rule.go:164-176 | true iff the role is among the roles reported for the user in the domain |
| Manager.KungFuGrants | manager/rbac/role/rule_test.go:9-27 | after the four grants of the test, Bruce Lee and YIP Man are both linked to master in Kung Fu |
| Adapter.Columns | manager/rbac/role/adapter.go:7-15 | a row has six value columns |
| Adapter.SaveRuleLine | manager/rbac/role/adapter.go:68-92 | column j is rule field j when the rule has one, and empty otherwise; the policy type is kept |
| Adapter.SaveRuleLineKeepsPrefix | manager/rbac/role/adapter.go:72-89 | the row stores the rule's first min(len, 6) fields and leaves the remaining columns empty |
| Adapter.NonEmpty | manager/rbac/role/adapter.go:129-146 | a value is kept iff it is non-empty and in the input, and the result is no longer than the input; order and multiplicity are stated by NonEmptyAppend, NonEmptyOfFull and NonEmptyOfBlanks |
| Adapter.NonEmptyAppend | manager/rbac/role/adapter.go:129-146 | skipping empty values distributes over concatenation |
| Adapter.NonEmptyOfFull | manager/rbac/role/adapter.go:129-146 | a list without empty values is kept whole |
| Adapter.NonEmptyOfBlanks | manager/rbac/role/adapter.go:129-146 | a list of empty values vanishes |
| Adapter.AppendColumns | manager/rbac/role/adapter.go:128-146 | the unrolled `lineText += ", " + Vi` steps for the non-empty columns; AppendColumnsJoin states the result |
| Adapter.LineText | manager/rbac/role/adapter.go:127-146 | the text loadRuleLine builds from a row; LineTextJoin states it |
| Adapter.JoinCons | manager/rbac/role/adapter.go:128-130 | a join is its first piece, then ", " and the join of the rest |
| Adapter.AppendColumnsJoin | manager/rbac/role/adapter.go:128-146 | appending ", " and each non-empty column is joining with the non-empty columns |
| Adapter.LineTextJoin | manager/rbac/role/adapter.go:127-146 | the text line is the policy type and the non-empty columns, joined with ", " |
| Adapter.LoadRuleLine | manager/rbac/role/adapter.go:127-149 | a loadable row appends its non-empty columns, in order, to its policy type's rules and changes nothing else; a blank row is skipped |
| Adapter.SavedFields | manager/rbac/role/adapter.go:68-92 | the non-empty stored columns are the rule's non-empty fields among the first six |
| Adapter.SaveLoadRoundTrip | manager/rbac/role/adapter.go:127-148 | when the first six fields hold no ", ", saving then loading appends the rule's non-empty fields among its first six |
| Adapter.SaveLoadExact | manager/rbac/role/adapter.go:68-148 | a rule of at most six non-empty, separator-free fields comes back exactly |
| Adapter.FilterRow | manager/rbac/role/adapter.go:159-180 | column j holds the filter value for position j when fieldIndex <= j < fieldIndex + len(values), and is empty otherwise |
| Adapter.FilterColumn | manager/rbac/role/adapter.go:163-180 | a filter-row column is empty or one of the filter values |
| Adapter.FilterRowAgreesWithFilter | manager/rbac/role/adapter.go:159-183 | when every non-empty value aims at a column, the delete condition matches a stored rule iff the in-memory filter does |
| Adapter.StoredRowMatches | manager/rbac/role/adapter.go:195-221 | the WHERE clause as a predicate on stored rows: a row matches its own query, and a query with no filled column matches exactly the rows of its policy type |
| Adapter.ConditionPlaceholders | manager/rbac/role/adapter.go:196-219 | a column condition has one placeholder when the column is filled and none otherwise |
| Adapter.ColumnName | manager/rbac/role/adapter.go:196-219 | the name of value column j is "v" and one digit 0 to 5, with no "?" |
| Adapter.Condition | manager/rbac/role/adapter.go:196-219 | a column adds a condition iff it is filled |
| Adapter.QueryText | manager/rbac/role/adapter.go:195-219 | the query text always starts with "p_type = ?" |
| Adapter.QueryStart | manager/rbac/role/adapter.go:193-195 | the query starts with the p_type condition and the policy type as its only argument |
| Adapter.QueryStepFilled | manager/rbac/role/adapter.go:196-199 | a filled column adds its condition and its value, keeping placeholders and arguments equal in number |
| Adapter.QueryStepEmpty | manager/rbac/role/adapter.go:196-199 | an empty column adds neither condition nor argument |
| Adapter.RawDeleteAllQuery | manager/rbac/role/adapter.go:192-220 | always constrains p_type, constrains each column in order iff it is non-empty, and has as many placeholders as arguments |

## Left out

- The role manager's internals (`newRoleManager`, `AddLink`, `GetRoles`, `GetUsers`, `PrintRoles`) are not part of this model. The role manager is the set of its links. Neither the order of its searches nor the hierarchy depth of 10 is asserted; the depth is only stored.
- `GetRolesForUser`, `GetRolesForUserInDomain`, `GetUsersForRole` and `GetUsersForRoleInDomain` only delegate to the role manager, so there is nothing to state. `HasRoleForUser` and `HasRoleForUserInDomain` take the role query as a function parameter.
- `EscapeAssertion` and `RemoveComments` (model.go:74) are not part of this model. `e`, `m` and `g` definitions are installed unchanged. This matters only for the built-in `e` and `m` strings, which nothing here reads.
- `ArrayEquals` is not part of this model; it is taken as sequence equality. `ArrayRemoveDuplicates` is not part of this model either. `Tuples.Dedup` keeps first occurrences, and its contract states only the duplicate-free set of values, not an order.
- The GORM calls are I/O: `newAdapter`, `SaveRule`, `AddRule`, `LoadRule`'s `db.Find`, `createTable`, `dropTable`, and the `db.Delete` of `rawDelete` and `rawDeleteAll`. `Adapter.RemoveRule` and `rawDelete` consist of a save-row call and a database delete, so nothing of them is modelled beyond `SaveRuleLine`.
- `LogPrint` and `PrintRoles` in the replay are output only.
- The `RM` back-reference that the replay stores in each grouping assertion (model.go:201) is left out, and the model's role queries read the manager's own role manager. In Go the queries go through `m.rules["g"]["g"].RM` (rule.go:141, 147, 153, 159), which stays nil until the first rebuild. So on a fresh manager, or one with auto-build off that was never rebuilt, a Go query dereferences nil. `Manager.HasRoleForUser` and `Manager.HasRoleForUserInDomain` instead query the role manager as it stands, which is empty on a fresh manager.
- The order in which Go iterates over the grouping assertions is a parameter of `RuleModel.BuildRoleLinks`. The result is proved not to depend on it.
- The reflection in `addNamedGroupingRule` (rule.go:41-50) is modelled as a plain rule argument.
- The `ptype` parameter of the named grouping and policy helpers is fixed to `"g"` and `"p"`, the only values `rule.go` passes.
- Three panics are preconditions rather than values: the index panic inside the filter scan (`Filter.Scannable`), the index panic of `GetValuesForFieldInRule` on a rule shorter than `fieldIndex + 1` (model.go:184), and the nil dereference on an undefined `(sec, ptype)` in `GetRule`, `GetFilteredRule`, `HasRule`, `Add`, `Remove`, `RemoveFilteredRule` and `GetValuesForFieldInRule` (model.go:99, 106, 125, 137, 145, 159, 183). The panics of `loadAssertion`, of the replay and of `loadRuleLineToModel` on an empty or undefined key are `Failure` values.
- The `params` of `newRuleManager` are ignored by the code and are left out.
- Locking: the code has none.
- `example/example.go` and `manager/rbac/manager_rbac.go` are not part of this model. The first is a database demo; the second is a wrapper whose `Delete` and `FindRequestCandidates` only call themselves.
