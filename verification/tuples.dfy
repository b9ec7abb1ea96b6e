/**
 Operations on one assertion's ordered list of rule tuples (the `Rule` field of
 an Assertion in manager/rbac/role/model.go), independent of where the list is
 stored in the model.
 */
module Tuples {

  /** A rule tuple: an ordered list of string fields of any length. */
  type Rule = seq<string>

  predicate NoDuplicates<T(==)>(xs: seq<T>) {
    forall i, j :: 0 <= i < j < |xs| ==> xs[i] != xs[j]
  }

  /** Dropping the head of a duplicate-free sequence keeps it duplicate-free, and the head is not in the rest. */
  lemma NoDuplicatesTail<T>(xs: seq<T>)
    requires |xs| > 0 && NoDuplicates(xs)
    ensures NoDuplicates(xs[1..]) && xs[0] !in xs[1..]
  {
    assert forall k :: 0 <= k < |xs[1..]| ==> xs[1..][k] == xs[k + 1];
  }

  /** `xs` is obtained from `ys` by deleting elements, keeping the order of the rest. */
  predicate IsSubsequence<T(==)>(xs: seq<T>, ys: seq<T>)
    decreases |ys|
  {
    if |ys| == 0 then |xs| == 0
    else IsSubsequence(xs, ys[1..]) || (|xs| > 0 && xs[0] == ys[0] && IsSubsequence(xs[1..], ys[1..]))
  }

  /**
   A field filter: `values[i]` constrains field `fieldIndex + i` of a rule and
   the empty string is a wildcard.
   */
  datatype Filter = Filter(fieldIndex: int, values: seq<string>) {

    /** Position `i` of the filter accepts `rule`. */
    predicate Agrees(rule: Rule, i: int)
      requires 0 <= i < |values|
    {
      values[i] == "" || (0 <= fieldIndex + i < |rule| && rule[fieldIndex + i] == values[i])
    }

    predicate Matches(rule: Rule) {
      forall i :: 0 <= i < |values| ==> Agrees(rule, i)
    }

    /**
     The scan of `rule` stops at the first position that disagrees, so it
     indexes out of range (a Go panic) only when it reaches a non-empty
     position outside the rule while every earlier position agreed.
     */
    predicate Scannable(rule: Rule) {
      forall i :: 0 <= i < |values| && values[i] != "" && !(0 <= fieldIndex + i < |rule|) ==>
        exists j :: 0 <= j < i && !Agrees(rule, j)
    }
  }

  /** A one-value filter matches the rules carrying that value at its position; an empty value matches every rule. */
  lemma OneValueFilter(i: int, v: string, t: Rule)
    ensures Filter(i, [v]).Matches(t) <==> v == "" || (0 <= i < |t| && t[i] == v)
  {
    assert Filter(i, [v]).Matches(t) <==> Filter(i, [v]).Agrees(t, 0);
  }

  /** The one-value filter law, for every rule at once. */
  lemma OneValueFilterMatches(i: int, v: string)
    ensures forall t :: Filter(i, [v]).Matches(t) <==> v == "" || (0 <= i < |t| && t[i] == v)
  {
    forall t ensures Filter(i, [v]).Matches(t) <==> v == "" || (0 <= i < |t| && t[i] == v) {
      OneValueFilter(i, v, t);
    }
  }

  /** Every rule of the list can be scanned by the filter without a panic. */
  predicate ScannableAll(rules: seq<Rule>, f: Filter) {
    forall k :: 0 <= k < |rules| ==> f.Scannable(rules[k])
  }

  /**
   The inner loop of GetFilteredRule and RemoveFilteredRule: compare the
   filter position by position and stop at the first mismatch.
   */
  method RuleMatches(f: Filter, rule: Rule) returns (matched: bool)
    requires f.Scannable(rule)
    ensures matched <==> f.Matches(rule)
  {
    matched := true;
    var i := 0;
    while i < |f.values|
      invariant 0 <= i <= |f.values|
      invariant forall j :: 0 <= j < i ==> f.Agrees(rule, j)
    {
      var fieldValue := f.values[i];
      if fieldValue != "" && rule[f.fieldIndex + i] != fieldValue {
        assert !f.Agrees(rule, i);
        matched := false;
        break;
      }
      i := i + 1;
    }
  }

  /**
   `r` lists, in their original order, exactly the rules of `rules` whose
   match against `f` equals `keep`, each as often as it occurs in `rules`.
   */
  ghost predicate IsSelection(r: seq<Rule>, rules: seq<Rule>, f: Filter, keep: bool) {
    && IsSubsequence(r, rules)
    && forall t :: multiset(r)[t] == (if f.Matches(t) == keep then multiset(rules)[t] else 0)
  }

  /** The rules that match `f` (keep = true) or do not match it (keep = false). */
  function Select(rules: seq<Rule>, f: Filter, keep: bool): (r: seq<Rule>)
    ensures IsSelection(r, rules, f, keep)
    ensures forall t :: t in r <==> t in rules && f.Matches(t) == keep
    ensures |r| <= |rules|
  {
    if |rules| == 0 then []
    else
      assert rules == [rules[0]] + rules[1..];
      if f.Matches(rules[0]) == keep then [rules[0]] + Select(rules[1..], f, keep)
      else Select(rules[1..], f, keep)
  }

  lemma {:induction false} SubsequenceCounts<T>(xs: seq<T>, ys: seq<T>)
    requires IsSubsequence(xs, ys)
    ensures multiset(xs) <= multiset(ys)
    decreases |ys|
  {
    if |ys| > 0 {
      assert ys == [ys[0]] + ys[1..];
      if IsSubsequence(xs, ys[1..]) {
        SubsequenceCounts(xs, ys[1..]);
      } else {
        assert xs == [xs[0]] + xs[1..];
        SubsequenceCounts(xs[1..], ys[1..]);
      }
    }
  }

  /** The selection contract determines its result: no other list satisfies it. */
  lemma {:induction false} SelectionUnique(a: seq<Rule>, b: seq<Rule>, rules: seq<Rule>, f: Filter, keep: bool)
    requires IsSelection(a, rules, f, keep) && IsSelection(b, rules, f, keep)
    ensures a == b
    decreases |rules|
  {
    if |rules| == 0 {
    } else {
      var h, tail := rules[0], rules[1..];
      assert rules == [h] + tail;
      SelectionHead(a, rules, f, keep);
      SelectionHead(b, rules, f, keep);
      if f.Matches(h) == keep {
        SelectionUnique(a[1..], b[1..], tail, f, keep);
        assert a == [a[0]] + a[1..];
        assert b == [b[0]] + b[1..];
      } else {
        SelectionUnique(a, b, tail, f, keep);
      }
    }
  }

  /** How a selection from a non-empty list starts. */
  lemma SelectionHead(a: seq<Rule>, rules: seq<Rule>, f: Filter, keep: bool)
    requires |rules| > 0 && IsSelection(a, rules, f, keep)
    ensures f.Matches(rules[0]) == keep ==>
      |a| > 0 && a[0] == rules[0] && IsSelection(a[1..], rules[1..], f, keep)
    ensures f.Matches(rules[0]) != keep ==> IsSelection(a, rules[1..], f, keep)
  {
    var h, tail := rules[0], rules[1..];
    assert rules == [h] + tail;
    if f.Matches(h) == keep {
      if IsSubsequence(a, tail) {
        SubsequenceCounts(a, tail);
        assert false;
      }
      DropHeadCounts(a, h);
    } else {
      if !IsSubsequence(a, tail) {
        assert false;
      }
    }
  }

  lemma DropHeadCounts(a: seq<Rule>, h: Rule)
    requires |a| > 0 && a[0] == h
    ensures multiset(a) == multiset(a[1..]) + multiset{h}
  {
    assert a == [h] + a[1..];
  }

  /** The members of a selection: the rules of the list whose match equals `keep`. */
  lemma SelectionMembers(r: seq<Rule>, rules: seq<Rule>, f: Filter, keep: bool)
    requires IsSelection(r, rules, f, keep)
    ensures forall t :: t in r <==> t in rules && f.Matches(t) == keep
  {
    forall t ensures t in r <==> t in rules && f.Matches(t) == keep {
      assert t in r <==> multiset(r)[t] > 0;
      assert t in rules <==> multiset(rules)[t] > 0;
    }
  }

  /** A filter splits a list into its matching and non-matching rules. */
  lemma SelectPartitions(rules: seq<Rule>, f: Filter)
    ensures multiset(Select(rules, f, true)) + multiset(Select(rules, f, false)) == multiset(rules)
    ensures |Select(rules, f, true)| + |Select(rules, f, false)| == |rules|
  {
    var a, b := Select(rules, f, true), Select(rules, f, false);
    assert forall t :: (multiset(a) + multiset(b))[t] == multiset(rules)[t];
    assert multiset(a) + multiset(b) == multiset(rules);
    assert |multiset(a) + multiset(b)| == |a| + |b|;
  }

  lemma {:induction false} SubsequenceKeepsNoDuplicates<T>(xs: seq<T>, ys: seq<T>)
    requires IsSubsequence(xs, ys) && NoDuplicates(ys)
    ensures NoDuplicates(xs)
  {
    SubsequenceCounts(xs, ys);
    forall i, j | 0 <= i < j < |xs| ensures xs[i] != xs[j] {
      if xs[i] == xs[j] {
        MultisetCountOfRepeat(xs, i, j);
        NoDuplicatesCountsOne(ys, xs[i]);
        assert false;
      }
    }
  }

  lemma MultisetCountOfRepeat<T>(xs: seq<T>, i: int, j: int)
    requires 0 <= i < j < |xs| && xs[i] == xs[j]
    ensures multiset(xs)[xs[i]] >= 2
  {
    assert xs == xs[..i] + [xs[i]] + xs[i + 1..j] + [xs[j]] + xs[j + 1..];
  }

  lemma {:induction false} NoDuplicatesCountsOne<T>(ys: seq<T>, x: T)
    requires NoDuplicates(ys)
    ensures multiset(ys)[x] <= 1
    decreases |ys|
  {
    if |ys| > 0 {
      assert ys == [ys[0]] + ys[1..];
      NoDuplicatesCountsOne(ys[1..], x);
      if ys[0] == x {
        assert x !in ys[1..];
      }
    }
  }

  /** The exact-match lookup of HasRule. */
  function Contains(rules: seq<Rule>, rule: Rule): (found: bool)
    ensures found <==> rule in rules
  {
    |rules| > 0 && (rules[0] == rule || Contains(rules[1..], rule))
  }

  /** Position of the first rule equal to `rule`. */
  function IndexOf(rules: seq<Rule>, rule: Rule): (i: nat)
    requires rule in rules
    ensures i < |rules| && rules[i] == rule && rule !in rules[..i]
  {
    if rules[0] == rule then 0
    else
      var i := 1 + IndexOf(rules[1..], rule);
      assert rules[..i] == [rules[0]] + rules[1..][..i - 1];
      i
  }

  /** Add: append `rule` unless an equal rule is present; report whether it was appended. */
  function AddRule(rules: seq<Rule>, rule: Rule): (r: (seq<Rule>, bool))
    ensures r.1 <==> rule !in rules
    ensures r.0 == if r.1 then rules + [rule] else rules
  {
    if !Contains(rules, rule) then (rules + [rule], true) else (rules, false)
  }

  /** Remove: delete the first rule equal to `rule`; report whether there was one. */
  function RemoveRule(rules: seq<Rule>, rule: Rule): (r: (seq<Rule>, bool))
    ensures r.1 <==> rule in rules
    ensures !r.1 ==> r.0 == rules
    ensures r.1 ==> r.0 == rules[..IndexOf(rules, rule)] + rules[IndexOf(rules, rule) + 1..]
  {
    if |rules| == 0 then (rules, false)
    else if rules[0] == rule then (rules[1..], true)
    else
      var (tail, removed) := RemoveRule(rules[1..], rule);
      if removed then
        RemoveLaterOccurrence(rules, rule, tail);
        ([rules[0]] + tail, true)
      else ([rules[0]] + tail, false)
  }

  /** Removing an occurrence after the head keeps the head in front. */
  lemma RemoveLaterOccurrence(rules: seq<Rule>, rule: Rule, tail: seq<Rule>)
    requires |rules| > 0 && rules[0] != rule && rule in rules[1..]
    requires tail == rules[1..][..IndexOf(rules[1..], rule)] + rules[1..][IndexOf(rules[1..], rule) + 1..]
    ensures [rules[0]] + tail == rules[..IndexOf(rules, rule)] + rules[IndexOf(rules, rule) + 1..]
  {
    var i := IndexOf(rules[1..], rule);
    assert IndexOf(rules, rule) == 1 + i;
    assert rules[..1 + i] == [rules[0]] + rules[1..][..i];
    assert rules[1 + i + 1..] == rules[1..][i + 1..];
  }

  /** Adding keeps a duplicate-free list duplicate-free (uniqueness of assertion rules). */
  lemma AddKeepsNoDuplicates(rules: seq<Rule>, rule: Rule)
    requires NoDuplicates(rules)
    ensures NoDuplicates(AddRule(rules, rule).0)
  {
  }

  /** A second Add of the same rule changes nothing and reports false. */
  lemma AddIdempotent(rules: seq<Rule>, rule: Rule)
    ensures var once := AddRule(rules, rule).0;
      AddRule(once, rule) == (once, false)
  {
  }

  /** Removing takes away one occurrence of the rule and nothing else. */
  lemma RemoveTakesOneOccurrence(rules: seq<Rule>, rule: Rule)
    ensures multiset(RemoveRule(rules, rule).0) == multiset(rules) - multiset{rule}
  {
    if rule in rules {
      var i := IndexOf(rules, rule);
      assert rules == rules[..i] + [rules[i]] + rules[i + 1..];
    }
  }

  /** In a duplicate-free list, Remove deletes the rule entirely and keeps the rest in order. */
  lemma RemoveFromNoDuplicates(rules: seq<Rule>, rule: Rule)
    requires NoDuplicates(rules)
    ensures rule !in RemoveRule(rules, rule).0
    ensures IsSubsequence(RemoveRule(rules, rule).0, rules)
    ensures forall t :: t in rules && t != rule ==> t in RemoveRule(rules, rule).0
  {
    RemoveTakesOneOccurrence(rules, rule);
    NoDuplicatesCountsOne(rules, rule);
    var r := RemoveRule(rules, rule).0;
    assert multiset(r)[rule] == 0;
    if rule in rules {
      RemovePrefixSubsequence(rules, IndexOf(rules, rule));
    } else {
      SubsequenceReflexive(rules);
    }
  }

  lemma {:induction false} SubsequenceReflexive<T>(xs: seq<T>)
    ensures IsSubsequence(xs, xs)
    decreases |xs|
  {
    if |xs| > 0 {
      SubsequenceReflexive(xs[1..]);
    }
  }

  /** Dropping one element keeps the rest as a subsequence. */
  lemma {:induction false} RemovePrefixSubsequence<T>(xs: seq<T>, i: int)
    requires 0 <= i < |xs|
    ensures IsSubsequence(xs[..i] + xs[i + 1..], xs)
    decreases i
  {
    if i == 0 {
      SubsequenceReflexive(xs[1..]);
      assert xs[..0] + xs[1..] == xs[1..];
    } else {
      RemovePrefixSubsequence(xs[1..], i - 1);
      var r := xs[..i] + xs[i + 1..];
      assert r[1..] == xs[1..][..i - 1] + xs[1..][i..];
      assert r[0] == xs[0];
    }
  }

  /** The rules left by a filtered removal stay duplicate-free. */
  lemma SelectKeepsNoDuplicates(rules: seq<Rule>, f: Filter, keep: bool)
    requires NoDuplicates(rules)
    ensures NoDuplicates(Select(rules, f, keep))
  {
    SubsequenceKeepsNoDuplicates(Select(rules, f, keep), rules);
  }

  /** The values found at one field position of every rule, in rule order. */
  function FieldValues(rules: seq<Rule>, fieldIndex: int): (values: seq<string>)
    requires forall t :: t in rules ==> 0 <= fieldIndex < |t|
    ensures |values| == |rules|
    ensures forall v :: v in values <==> exists t :: t in rules && t[fieldIndex] == v
  {
    if |rules| == 0 then []
    else
      assert forall t :: t in rules <==> t == rules[0] || t in rules[1..];
      [rules[0][fieldIndex]] + FieldValues(rules[1..], fieldIndex)
  }

  /**
   ArrayRemoveDuplicates: keep the first occurrence of each value, in order.
   `seen` holds the values already kept.
   */
  function DedupFrom(xs: seq<string>, seen: set<string>): (r: seq<string>)
    ensures NoDuplicates(r)
    ensures forall v :: v in r <==> v in xs && v !in seen
  {
    if |xs| == 0 then []
    else if xs[0] in seen then DedupFrom(xs[1..], seen)
    else [xs[0]] + DedupFrom(xs[1..], seen + {xs[0]})
  }

  function Dedup(xs: seq<string>): (r: seq<string>)
    ensures NoDuplicates(r)
    ensures forall v :: v in r <==> v in xs
  {
    DedupFrom(xs, {})
  }
}
