/**
 The pure helpers of manager/rbac/role/adapter.go: the six-column row a rule
 is stored as, the text line a row is loaded back from, and the row and
 query a filtered delete is translated into. The database calls are not
 part of this model.
 */
module Adapter {
  import opened Results
  import opened Text
  import opened Tuples
  import RuleModel

  /** A row of the "rule" table: the policy type and six value columns. */
  datatype Row = Row(pType: string, v0: string, v1: string, v2: string, v3: string, v4: string, v5: string)

  /** The number of value columns of a row. */
  const ColumnCount: nat := 6

  /** The value columns of a row, in order. */
  function Columns(row: Row): (cols: seq<string>)
    ensures |cols| == ColumnCount
  {
    [row.v0, row.v1, row.v2, row.v3, row.v4, row.v5]
  }

  /** Field `j` of a rule, or "" when the rule is shorter. */
  function FieldOrEmpty(rule: Rule, j: nat): string {
    if j < |rule| then rule[j] else ""
  }

  /**
   saveRuleLine: the policy type, then the rule's first six fields, one per
   column; columns past the end of the rule stay empty and fields past the
   sixth are dropped.
   */
  function SaveRuleLine(ptype: string, rule: Rule): (row: Row)
    ensures row.pType == ptype
    ensures forall j :: 0 <= j < ColumnCount ==> Columns(row)[j] == FieldOrEmpty(rule, j)
  {
    Row(ptype, FieldOrEmpty(rule, 0), FieldOrEmpty(rule, 1), FieldOrEmpty(rule, 2),
      FieldOrEmpty(rule, 3), FieldOrEmpty(rule, 4), FieldOrEmpty(rule, 5))
  }

  /** The number of rule fields a row keeps. */
  function Kept(rule: Rule): nat {
    if |rule| < ColumnCount then |rule| else ColumnCount
  }

  /** The stored columns are the rule's first fields, padded with empty strings. */
  lemma SaveRuleLineKeepsPrefix(ptype: string, rule: Rule)
    ensures Columns(SaveRuleLine(ptype, rule))[..Kept(rule)] == rule[..Kept(rule)]
    ensures forall j :: Kept(rule) <= j < ColumnCount ==> Columns(SaveRuleLine(ptype, rule))[j] == ""
  {
  }

  /** The non-empty strings of a list, in order. */
  function NonEmpty(xs: seq<string>): (r: seq<string>)
    ensures |r| <= |xs|
    ensures forall v :: v in r <==> v in xs && v != ""
  {
    if |xs| == 0 then []
    else
      assert forall v :: v in xs <==> v == xs[0] || v in xs[1..];
      (if xs[0] != "" then [xs[0]] else []) + NonEmpty(xs[1..])
  }

  lemma {:induction false} NonEmptyAppend(a: seq<string>, b: seq<string>)
    ensures NonEmpty(a + b) == NonEmpty(a) + NonEmpty(b)
    decreases |a|
  {
    if |a| == 0 {
      assert a + b == b;
    } else {
      assert (a + b)[1..] == a[1..] + b;
      NonEmptyAppend(a[1..], b);
    }
  }

  /** A list without empty strings is kept whole. */
  lemma {:induction false} NonEmptyOfFull(xs: seq<string>)
    requires forall k :: 0 <= k < |xs| ==> xs[k] != ""
    ensures NonEmpty(xs) == xs
    decreases |xs|
  {
    if |xs| > 0 {
      NonEmptyOfFull(xs[1..]);
    }
  }

  /** Empty strings contribute nothing. */
  lemma {:induction false} NonEmptyOfBlanks(xs: seq<string>)
    requires forall k :: 0 <= k < |xs| ==> xs[k] == ""
    ensures NonEmpty(xs) == []
    decreases |xs|
  {
    if |xs| > 0 {
      NonEmptyOfBlanks(xs[1..]);
    }
  }

  /** The unrolled column loop of loadRuleLine: append ", " and each non-empty column to `text`. */
  function AppendColumns(text: string, cols: seq<string>): string
    decreases |cols|
  {
    if |cols| == 0 then text
    else AppendColumns(if cols[0] != "" then text + ", " + cols[0] else text, cols[1..])
  }

  /** The text loadRuleLine builds from a row. */
  function LineText(row: Row): string {
    AppendColumns(row.pType, Columns(row))
  }

  /** How a join decomposes at its first piece. */
  lemma JoinCons(y: string, xs: seq<string>)
    ensures Join([y] + xs) == if |xs| == 0 then y else y + ", " + Join(xs)
  {
    assert ([y] + xs)[1..] == xs;
  }

  /** Appending the columns is joining the text with the non-empty columns. */
  lemma {:induction false} AppendColumnsJoin(text: string, cols: seq<string>)
    ensures AppendColumns(text, cols) == Join([text] + NonEmpty(cols))
    decreases |cols|
  {
    if |cols| == 0 {
    } else {
      var rest := NonEmpty(cols[1..]);
      if cols[0] != "" {
        AppendColumnsJoin(text + ", " + cols[0], cols[1..]);
        JoinCons(text + ", " + cols[0], rest);
        JoinCons(cols[0], rest);
        JoinCons(text, [cols[0]] + rest);
        assert [text] + NonEmpty(cols) == [text] + ([cols[0]] + rest);
      } else {
        AppendColumnsJoin(text, cols[1..]);
        assert NonEmpty(cols) == rest;
      }
    }
  }

  /** loadRuleLine's text is the policy type and the non-empty columns, joined with ", ". */
  lemma LineTextJoin(row: Row)
    ensures LineText(row) == Join([row.pType] + NonEmpty(Columns(row)))
  {
    AppendColumnsJoin(row.pType, Columns(row));
  }

  /**
   The rows loadRuleLine reads back faithfully: a non-empty policy type that is
   not a comment, no ", " inside any value, and a model that defines the type.
   */
  predicate RowLoadable(row: Row, m: RuleModel.Model) {
    && row.pType != ""
    && row.pType[0] != '#'
    && !ContainsSeparator(row.pType)
    && (forall j :: 0 <= j < ColumnCount ==> !ContainsSeparator(Columns(row)[j]))
    && RuleModel.Defined(m, row.pType[..1], row.pType)
  }

  /**
   loadRuleLine: build the row's text line and load it into the model. A
   loadable row appends its non-empty columns, in order, to the rules of its
   policy type, and changes nothing else; a blank row is skipped.
   */
  function LoadRuleLine(row: Row, m: RuleModel.Model): (r: Result<RuleModel.Model>)
    ensures RowLoadable(row, m) ==>
      && r.Success?
      && RuleModel.Defined(r.value, row.pType[..1], row.pType)
      && RuleModel.GetRule(r.value, row.pType[..1], row.pType)
         == RuleModel.GetRule(m, row.pType[..1], row.pType) + [NonEmpty(Columns(row))]
      && RuleModel.OnlyRulesChanged(m, r.value, row.pType[..1], row.pType)
    ensures row.pType == "" && NonEmpty(Columns(row)) == [] ==> r == Success(m)
  {
    var parts := [row.pType] + NonEmpty(Columns(row));
    LineTextJoin(row);
    if RowLoadable(row, m) then
      forall k | 0 <= k < |parts| ensures !ContainsSeparator(parts[k]) {
        if k > 0 {
          assert parts[k] in Columns(row);
        }
      }
      SplitJoin(parts);
      JoinStartsWithHead(parts);
      assert parts[1..] == NonEmpty(Columns(row));
      RuleModel.LoadRuleLineToModel(LineText(row), m)
    else
      RuleModel.LoadRuleLineToModel(LineText(row), m)
  }

  /** The non-empty stored columns of a rule are its non-empty fields among the first six. */
  lemma SavedFields(ptype: string, rule: Rule)
    ensures NonEmpty(Columns(SaveRuleLine(ptype, rule))) == NonEmpty(rule[..Kept(rule)])
  {
    var cols := Columns(SaveRuleLine(ptype, rule));
    SaveRuleLineKeepsPrefix(ptype, rule);
    assert cols == cols[..Kept(rule)] + cols[Kept(rule)..];
    NonEmptyAppend(cols[..Kept(rule)], cols[Kept(rule)..]);
    NonEmptyOfBlanks(cols[Kept(rule)..]);
  }

  /**
   Saving a rule and loading the row back appends the rule's non-empty fields
   among the first six, provided the policy type is loadable and no field
   holds ", ".
   */
  lemma SaveLoadRoundTrip(ptype: string, rule: Rule, m: RuleModel.Model)
    requires ptype != "" && ptype[0] != '#' && !ContainsSeparator(ptype)
    requires forall k :: 0 <= k < Kept(rule) ==> !ContainsSeparator(rule[k])
    requires RuleModel.Defined(m, ptype[..1], ptype)
    ensures var r := LoadRuleLine(SaveRuleLine(ptype, rule), m);
      && r.Success?
      && RuleModel.GetRule(r.value, ptype[..1], ptype)
         == RuleModel.GetRule(m, ptype[..1], ptype) + [NonEmpty(rule[..Kept(rule)])]
      && RuleModel.OnlyRulesChanged(m, r.value, ptype[..1], ptype)
  {
    var row := SaveRuleLine(ptype, rule);
    forall j | 0 <= j < ColumnCount ensures !ContainsSeparator(Columns(row)[j]) {
      if j >= |rule| {
        assert Columns(row)[j] == "";
      }
    }
    assert RowLoadable(row, m);
    SavedFields(ptype, rule);
  }

  /** A rule of at most six non-empty, separator-free fields survives the round trip exactly. */
  lemma SaveLoadExact(ptype: string, rule: Rule, m: RuleModel.Model)
    requires ptype != "" && ptype[0] != '#' && !ContainsSeparator(ptype)
    requires |rule| <= ColumnCount
    requires forall k :: 0 <= k < |rule| ==> rule[k] != "" && !ContainsSeparator(rule[k])
    requires RuleModel.Defined(m, ptype[..1], ptype)
    ensures var r := LoadRuleLine(SaveRuleLine(ptype, rule), m);
      && r.Success?
      && RuleModel.GetRule(r.value, ptype[..1], ptype) == RuleModel.GetRule(m, ptype[..1], ptype) + [rule]
  {
    SaveLoadRoundTrip(ptype, rule, m);
    assert rule[..Kept(rule)] == rule;
    NonEmptyOfFull(rule);
  }

  /** Column `j` of the filter row: the filter value aimed at position `j`, if any. */
  function FilterColumn(f: Filter, j: int): (v: string)
    ensures v == "" || v in f.values
  {
    if f.fieldIndex <= j && j < f.fieldIndex + |f.values| then f.values[j - f.fieldIndex] else ""
  }

  /**
   The row Adapter.RemoveFilteredRule builds: column `j` holds the filter value
   for position `j` when the filter covers it, and is empty otherwise.
   */
  function FilterRow(ptype: string, f: Filter): (row: Row)
    ensures row.pType == ptype
    ensures forall j :: 0 <= j < ColumnCount ==>
      Columns(row)[j] == (if f.fieldIndex <= j < f.fieldIndex + |f.values| then f.values[j - f.fieldIndex] else "")
  {
    Row(ptype, FilterColumn(f, 0), FilterColumn(f, 1), FilterColumn(f, 2),
      FilterColumn(f, 3), FilterColumn(f, 4), FilterColumn(f, 5))
  }

  /**
   The WHERE clause rawDeleteAll builds from a query row, read as a predicate on
   a stored row: the same policy type, and equal values in every column the
   query row fills.
   */
  predicate StoredRowMatches(query: Row, stored: Row)
    ensures query == stored ==> StoredRowMatches(query, stored)
    ensures NonEmpty(Columns(query)) == [] ==> (StoredRowMatches(query, stored) <==> stored.pType == query.pType)
  {
    assert forall j :: 0 <= j < ColumnCount ==> Columns(query)[j] in Columns(query);
    && stored.pType == query.pType
    && forall j :: 0 <= j < ColumnCount && Columns(query)[j] != "" ==> Columns(stored)[j] == Columns(query)[j]
  }

  /**
   When every non-empty filter value aims at one of the six columns, deleting
   by the filter row removes exactly the stored rules the in-memory filter
   matches.
   */
  lemma FilterRowAgreesWithFilter(ptype: string, f: Filter, rule: Rule)
    requires forall i :: 0 <= i < |f.values| && f.values[i] != "" ==> 0 <= f.fieldIndex + i < ColumnCount
    ensures StoredRowMatches(FilterRow(ptype, f), SaveRuleLine(ptype, rule)) <==> f.Matches(rule)
  {
    var q, s := FilterRow(ptype, f), SaveRuleLine(ptype, rule);
    if StoredRowMatches(q, s) {
      forall i | 0 <= i < |f.values| ensures f.Agrees(rule, i) {
        if f.values[i] != "" {
          var j := f.fieldIndex + i;
          assert Columns(q)[j] == f.values[i];
          assert Columns(s)[j] == f.values[i];
        }
      }
    }
    if f.Matches(rule) {
      forall j | 0 <= j < ColumnCount && Columns(q)[j] != "" ensures Columns(s)[j] == Columns(q)[j] {
        assert f.Agrees(rule, j - f.fieldIndex);
      }
    }
  }

  /** The column name GORM gives value column `j`: "v0" to "v5". */
  function ColumnName(j: nat): (name: string)
    requires j < ColumnCount
    ensures |name| == 2 && name[0] == 'v' && '0' <= name[1] <= '5' && '?' !in name
  {
    "v" + [(48 + j) as char]
  }

  /** The condition rawDeleteAll adds for column `j` of a query row: none when the column is empty. */
  function Condition(cols: seq<string>, j: nat): (cond: string)
    requires |cols| == ColumnCount && j < ColumnCount
    ensures cond == "" <==> cols[j] == ""
  {
    if cols[j] != "" then " and " + ColumnName(j) + " = ?" else ""
  }

  /** The query text after the first `n` columns: the p_type condition, then theirs in column order. */
  function QueryText(cols: seq<string>, n: nat): (query: string)
    requires |cols| == ColumnCount && n <= ColumnCount
    ensures 10 <= |query| && query[..10] == "p_type = ?"
  {
    if n == 0 then "p_type = ?" else QueryText(cols, n - 1) + Condition(cols, n - 1)
  }

  /** Each condition carries one placeholder exactly when its column is filled. */
  lemma ConditionPlaceholders(cols: seq<string>, j: nat)
    requires |cols| == ColumnCount && j < ColumnCount
    ensures CountChar(Condition(cols, j), '?') == if cols[j] != "" then 1 else 0
  {
    if cols[j] != "" {
      var name := ColumnName(j);
      assert '?' !in " and " && '?' !in name && '?' !in " = ";
      CountCharAppend(" and ", name, '?');
      CountCharAppend(" and " + name, " = ", '?');
      CountCharAppend(" and " + name + " = ", "?", '?');
      assert " and " + name + " = ?" == " and " + name + " = " + "?";
    }
  }

  lemma TakeOneMore<T>(xs: seq<T>, j: nat)
    requires j < |xs|
    ensures xs[..j + 1] == xs[..j] + [xs[j]]
  {
  }

  lemma TakeAll<T>(xs: seq<T>)
    ensures xs[..|xs|] == xs
  {
  }

  /** The query and arguments after the first `j` columns of rawDeleteAll's scan. */
  predicate QueryAfter(cols: seq<string>, pType: string, j: nat, query: string, args: seq<string>)
    requires |cols| == ColumnCount && j <= ColumnCount
  {
    && query == QueryText(cols, j)
    && args == [pType] + NonEmpty(cols[..j])
    && CountChar(query, '?') == |args|
  }

  /** The scan starts with the condition on p_type and the policy type as the only argument. */
  lemma QueryStart(cols: seq<string>, pType: string)
    requires |cols| == ColumnCount
    ensures QueryAfter(cols, pType, 0, "p_type = ?", [pType])
  {
    PTypePlaceholder(QueryText(cols, 0));
    assert cols[..0] == [];
  }

  /** The p_type condition holds one placeholder. */
  lemma PTypePlaceholder(q: string)
    requires q == "p_type = ?"
    ensures CountChar(q, '?') == 1
  {
    assert q == "p_type = " + "?";
    assert '?' !in "p_type = ";
    CountCharAppend("p_type = ", "?", '?');
  }

  /** A filled column appends its condition and its value. */
  lemma QueryStepFilled(cols: seq<string>, pType: string, j: nat, query: string, args: seq<string>)
    requires |cols| == ColumnCount && j < ColumnCount && cols[j] != ""
    requires QueryAfter(cols, pType, j, query, args)
    ensures QueryAfter(cols, pType, j + 1, query + (" and " + ColumnName(j) + " = ?"), args + [cols[j]])
  {
    ConditionPlaceholders(cols, j);
    CountCharAppend(query, Condition(cols, j), '?');
    NonEmptyAppend(cols[..j], [cols[j]]);
    TakeOneMore(cols, j);
  }

  /** An empty column adds nothing. */
  lemma QueryStepEmpty(cols: seq<string>, pType: string, j: nat, query: string, args: seq<string>)
    requires |cols| == ColumnCount && j < ColumnCount && cols[j] == ""
    requires QueryAfter(cols, pType, j, query, args)
    ensures QueryAfter(cols, pType, j + 1, query, args)
  {
    NonEmptyAppend(cols[..j], [cols[j]]);
    TakeOneMore(cols, j);
  }

  /**
   rawDeleteAll's query building: the condition on p_type, then one condition
   per non-empty column, in column order, with the values as arguments; there
   is one "?" per argument.
   */
  method RawDeleteAllQuery(line: Row) returns (query: string, args: seq<string>)
    ensures query == QueryText(Columns(line), ColumnCount)
    ensures args == [line.pType] + NonEmpty(Columns(line))
    ensures CountChar(query, '?') == |args|
  {
    var cols := Columns(line);
    query := "p_type = ?";
    args := [line.pType];
    QueryStart(cols, line.pType);
    var j := 0;
    while j < ColumnCount
      invariant 0 <= j <= ColumnCount
      invariant QueryAfter(cols, line.pType, j, query, args)
    {
      if cols[j] != "" {
        QueryStepFilled(cols, line.pType, j, query, args);
        query := query + (" and " + ColumnName(j) + " = ?");
        args := args + [cols[j]];
      } else {
        QueryStepEmpty(cols, line.pType, j, query, args);
      }
      j := j + 1;
    }
    TakeAll(cols);
  }
}
