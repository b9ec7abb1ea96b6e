/**
 The two Go string functions the rule store relies on, specialised to the way it
 uses them: strings.Split with the separator ", " and strings.Count with a
 one-character needle.
 */
module Text {

  /** Number of occurrences of `c` in `s`. */
  function CountChar(s: string, c: char): (n: nat)
    ensures n <= |s|
    ensures n == 0 <==> c !in s
  {
    if |s| == 0 then 0 else (if s[0] == c then 1 else 0) + CountChar(s[1..], c)
  }

  lemma {:induction false} CountCharAppend(a: string, b: string, c: char)
    ensures CountChar(a + b, c) == CountChar(a, c) + CountChar(b, c)
    decreases |a|
  {
    if |a| == 0 {
      assert a + b == b;
    } else {
      assert (a + b)[1..] == a[1..] + b;
      CountCharAppend(a[1..], b, c);
    }
  }

  /** The separator ", " starts at index `i` of `s`. */
  predicate SeparatorAt(s: string, i: int) {
    0 <= i && i + 1 < |s| && s[i] == ',' && s[i + 1] == ' '
  }

  predicate ContainsSeparator(s: string) {
    exists i | 0 <= i < |s| :: SeparatorAt(s, i)
  }

  /**
   strings.Split(s, ", "): the pieces between the leftmost non-overlapping
   occurrences of the separator; a string without separator is one piece, so
   the empty string splits into [""].
   */
  function Split(s: string): (parts: seq<string>)
    ensures |parts| >= 1
    decreases |s|
  {
    if |s| < 2 then [s]
    else if s[0] == ',' && s[1] == ' ' then [""] + Split(s[2..])
    else
      var rest := Split(s[1..]);
      [[s[0]] + rest[0]] + rest[1..]
  }

  /** strings.Join(parts, ", "). */
  function Join(parts: seq<string>): string
    requires |parts| >= 1
  {
    if |parts| == 1 then parts[0] else parts[0] + ", " + Join(parts[1..])
  }

  /** Joining the pieces of a split restores the original string. */
  lemma {:induction false} JoinSplit(s: string)
    ensures Join(Split(s)) == s
    decreases |s|
  {
    if |s| < 2 {
    } else if s[0] == ',' && s[1] == ' ' {
      JoinSplit(s[2..]);
      assert s == ", " + s[2..];
    } else {
      var rest := Split(s[1..]);
      JoinSplit(s[1..]);
      if |rest| == 1 {
        assert s == [s[0]] + s[1..];
      } else {
        assert Join(rest) == rest[0] + ", " + Join(rest[1..]);
        assert s == [s[0]] + s[1..];
      }
    }
  }

  /** A piece without separator is not split. */
  lemma {:induction false} SplitWithoutSeparator(p: string)
    requires !ContainsSeparator(p)
    ensures Split(p) == [p]
    decreases |p|
  {
    if |p| >= 2 {
      assert !SeparatorAt(p, 0);
      assert !ContainsSeparator(p[1..]) by {
        forall i | SeparatorAt(p[1..], i) ensures SeparatorAt(p, i + 1) { }
      }
      SplitWithoutSeparator(p[1..]);
      assert p == [p[0]] + p[1..];
    }
  }

  /** Splitting cuts at the first separator after a separator-free head. */
  lemma {:induction false} SplitAfterHead(p: string, rest: string)
    requires !ContainsSeparator(p)
    ensures Split(p + ", " + rest) == [p] + Split(rest)
    decreases |p|
  {
    var s := p + ", " + rest;
    if |p| == 0 {
      assert s[2..] == rest;
    } else {
      if |p| >= 2 {
        assert !SeparatorAt(p, 0);
      }
      assert !(s[0] == ',' && s[1] == ' ');
      assert !ContainsSeparator(p[1..]) by {
        forall i | SeparatorAt(p[1..], i) ensures SeparatorAt(p, i + 1) { }
      }
      assert s[1..] == p[1..] + ", " + rest;
      SplitAfterHead(p[1..], rest);
      assert [p[0]] + p[1..] == p;
    }
  }

  /** Splitting the join of separator-free pieces gives the pieces back. */
  lemma {:induction false} SplitJoin(parts: seq<string>)
    requires |parts| >= 1
    requires forall k :: 0 <= k < |parts| ==> !ContainsSeparator(parts[k])
    ensures Split(Join(parts)) == parts
    decreases |parts|
  {
    if |parts| == 1 {
      SplitWithoutSeparator(parts[0]);
    } else {
      SplitJoin(parts[1..]);
      SplitAfterHead(parts[0], Join(parts[1..]));
      assert parts == [parts[0]] + parts[1..];
    }
  }

  /** A join starts with the first piece. */
  lemma JoinStartsWithHead(parts: seq<string>)
    requires |parts| >= 1 && |parts[0]| >= 1
    ensures |Join(parts)| >= 1 && Join(parts)[0] == parts[0][0]
  {
  }
}
