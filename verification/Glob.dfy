/** Segment globs of the access-control trie: `*` stands for any string, possibly empty. */
module Glob {

  function Stars(p: string): (n: nat)
  {
    if p == "" then 0 else Stars(p[..|p| - 1]) + (if p[|p| - 1] == '*' then 1 else 0)
  }

  /** The pattern with its i-th star replaced by the i-th filler. */
  function Substitute(p: string, fillers: seq<string>): (t: string)
    requires |fillers| == Stars(p)
  {
    if p == "" then ""
    else
      var q := p[..|p| - 1];
      if p[|p| - 1] == '*' then Substitute(q, fillers[..|fillers| - 1]) + fillers[|fillers| - 1]
      else Substitute(q, fillers) + [p[|p| - 1]]
  }

  /** What the wildcard promises: some filling of the stars turns the pattern into the target. */
  ghost predicate Matches(target: string, pattern: string)
  {
    exists fillers: seq<string> :: |fillers| == Stars(pattern) && Substitute(pattern, fillers) == target
  }

  /** The recurrence that the match table follows, on prefixes of both strings. */
  predicate Recurrence(t: string, p: string)
    decreases |t| + |p|
  {
    if p == "" then t == ""
    else if p[|p| - 1] == '*' then
      Recurrence(t, p[..|p| - 1]) || (t != "" && Recurrence(t[..|t| - 1], p))
    else
      t != "" && t[|t| - 1] == p[|p| - 1] && Recurrence(t[..|t| - 1], p[..|p| - 1])
  }

  lemma {:induction false} RecurrenceFills(t: string, p: string) returns (fillers: seq<string>)
    requires Recurrence(t, p)
    ensures |fillers| == Stars(p) && Substitute(p, fillers) == t
    decreases |t| + |p|
  {
    if p == "" {
      fillers := [];
    } else if p[|p| - 1] == '*' {
      if Recurrence(t, p[..|p| - 1]) {
        var fs := RecurrenceFills(t, p[..|p| - 1]);
        fillers := fs + [""];
        assert fillers[..|fs|] == fs;
        assert t + "" == t;
      } else {
        var fs := RecurrenceFills(t[..|t| - 1], p);
        var n := |fs| - 1;
        fillers := fs[..n] + [fs[n] + [t[|t| - 1]]];
        assert fillers[..n] == fs[..n];
        assert t == t[..|t| - 1] + [t[|t| - 1]];
      }
    } else {
      fillers := RecurrenceFills(t[..|t| - 1], p[..|p| - 1]);
      assert t == t[..|t| - 1] + [t[|t| - 1]];
    }
  }

  lemma {:induction false} FillsRecurrence(p: string, fillers: seq<string>)
    requires |fillers| == Stars(p)
    ensures Recurrence(Substitute(p, fillers), p)
    decreases |p|
  {
    if p != "" {
      var q := p[..|p| - 1];
      var t := Substitute(p, fillers);
      if p[|p| - 1] == '*' {
        FillsRecurrence(q, fillers[..|fillers| - 1]);
        StarAbsorbs(Substitute(q, fillers[..|fillers| - 1]), fillers[|fillers| - 1], p);
      } else {
        FillsRecurrence(q, fillers);
        assert t[..|t| - 1] == Substitute(q, fillers);
      }
    }
  }

  lemma {:induction false} StarAbsorbs(t: string, tail: string, p: string)
    requires p != "" && p[|p| - 1] == '*' && Recurrence(t, p[..|p| - 1])
    ensures Recurrence(t + tail, p)
    decreases |tail|
  {
    if tail == "" {
      assert t + tail == t;
    } else {
      StarAbsorbs(t, tail[..|tail| - 1], p);
      assert (t + tail)[..|t + tail| - 1] == t + tail[..|tail| - 1];
    }
  }

  lemma RecurrenceIsGlob(t: string, p: string)
    ensures Recurrence(t, p) <==> Matches(t, p)
  {
    if Recurrence(t, p) {
      var fillers := RecurrenceFills(t, p);
    }
    if Matches(t, p) {
      var fillers: seq<string> :| |fillers| == Stars(p) && Substitute(p, fillers) == t;
      FillsRecurrence(p, fillers);
    }
  }

  /** A row of the table whose pattern prefixes are compared with the empty target. */
  lemma {:induction false} EmptyTarget(p: string, j: nat)
    requires j <= |p|
    ensures Recurrence("", p[..j]) <==> forall k :: 0 <= k < j ==> p[k] == '*'
  {
    if j > 0 {
      EmptyTarget(p, j - 1);
      assert p[..j][..j - 1] == p[..j - 1];
    }
  }

  predicate Cell(target: string, pattern: string, i: nat, j: nat)
    requires i <= |target| && j <= |pattern|
  {
    Recurrence(target[..i], pattern[..j])
  }

  lemma CellStep(target: string, pattern: string, i: nat, j: nat)
    requires 1 <= i <= |target| && 1 <= j <= |pattern|
    ensures Cell(target, pattern, i, j) ==
            if pattern[j - 1] == '*' then Cell(target, pattern, i, j - 1) || Cell(target, pattern, i - 1, j)
            else target[i - 1] == pattern[j - 1] && Cell(target, pattern, i - 1, j - 1)
  {
    assert target[..i][..i - 1] == target[..i - 1];
    assert pattern[..j][..j - 1] == pattern[..j - 1];
  }

  /** Row i of the table is right in its first `upto` columns and still false after them. */
  ghost predicate RowFilled(table: array2<bool>, target: string, pattern: string, i: nat, upto: nat)
    requires table.Length0 == |target| + 1 && table.Length1 == |pattern| + 1
    requires i <= |target| && upto <= |pattern| + 1
    reads table
  {
    forall j {:trigger table[i, j]} :: 0 <= j <= |pattern| ==>
                                         table[i, j] == (j < upto && Cell(target, pattern, i, j))
  }

  /** `isMatch`: fills the table row by row. */
  method IsMatch(target: string, pattern: string) returns (matched: bool)
    ensures matched <==> Matches(target, pattern)
  {
    var tl, pl := |target|, |pattern|;
    var table := new bool[tl + 1, pl + 1]((i, j) => false);
    FillFirstRow(table, target, pattern);
    var i := 1;
    ghost var full := pl + 1;
    while i <= tl
      invariant 1 <= i <= tl + 1
      invariant RowFilled(table, target, pattern, i - 1, full)
      invariant forall r :: i <= r <= tl ==> RowFilled(table, target, pattern, r, 0)
    {
      label before:
      FillRow(table, target, pattern, i);
      i := i + 1;
      forall r | i <= r <= tl
        ensures RowFilled(table, target, pattern, r, 0)
      {
        assert old@before(RowFilled(table, target, pattern, r, 0));
      }
    }
    assert target[..tl] == target && pattern[..pl] == pattern;
    RecurrenceIsGlob(target, pattern);
    return table[tl, pl];
  }

  method FillFirstRow(table: array2<bool>, target: string, pattern: string)
    requires table.Length0 == |target| + 1 && table.Length1 == |pattern| + 1
    requires forall r :: 0 <= r <= |target| ==> RowFilled(table, target, pattern, r, 0)
    modifies table
    ensures RowFilled(table, target, pattern, 0, |pattern| + 1)
    ensures forall r :: 1 <= r <= |target| ==> RowFilled(table, target, pattern, r, 0)
  {
    var pl := |pattern|;
    assert RowFilled(table, target, pattern, 0, 0);
    table[0, 0] := true;
    var i := 1;
    while i <= pl
      invariant 1 <= i <= pl + 1
      invariant forall k :: 0 <= k < i - 1 ==> pattern[k] == '*'
      invariant forall j :: 0 <= j <= pl ==> table[0, j] == (j < i)
      invariant forall r, j :: 1 <= r <= |target| && 0 <= j <= pl ==> table[r, j] == old(table[r, j])
    {
      if pattern[i - 1] != '*' {
        break;
      }
      table[0, i] := true;
      i := i + 1;
    }
    forall j | 0 <= j <= pl
      ensures table[0, j] == Cell(target, pattern, 0, j)
    {
      EmptyTarget(pattern, j);
      assert target[..0] == "";
    }
    forall r | 1 <= r <= |target|
      ensures RowFilled(table, target, pattern, r, 0)
    {
      assert old(RowFilled(table, target, pattern, r, 0));
    }
  }

  method FillRow(table: array2<bool>, target: string, pattern: string, i: nat)
    requires table.Length0 == |target| + 1 && table.Length1 == |pattern| + 1
    requires 1 <= i <= |target|
    requires RowFilled(table, target, pattern, i - 1, |pattern| + 1)
    requires RowFilled(table, target, pattern, i, 0)
    modifies table
    ensures RowFilled(table, target, pattern, i, |pattern| + 1)
    ensures forall r, j :: 0 <= r <= |target| && r != i && 0 <= j <= |pattern| ==> table[r, j] == old(table[r, j])
  {
    var j := 1;
    assert target[..i] != "" && pattern[..0] == "";
    while j <= |pattern|
      invariant 1 <= j <= |pattern| + 1
      invariant RowFilled(table, target, pattern, i, j)
      invariant forall r, k :: 0 <= r <= |target| && r != i && 0 <= k <= |pattern| ==> table[r, k] == old(table[r, k])
    {
      CellStep(target, pattern, i, j);
      if pattern[j - 1] == '*' {
        table[i, j] := table[i, j - 1] || table[i - 1, j];
      } else if target[i - 1] == pattern[j - 1] {
        table[i, j] := table[i - 1, j - 1];
      }
      j := j + 1;
    }
  }

  /** Every string matches itself read as a pattern: each star is filled with a star. */
  lemma {:induction false} SelfMatch(s: string)
    ensures Matches(s, s)
  {
    var fillers := seq(Stars(s), i => "*");
    SelfSubstitute(s);
    assert Substitute(s, fillers) == s;
  }

  lemma {:induction false} SelfSubstitute(s: string)
    ensures Substitute(s, seq(Stars(s), i => "*")) == s
  {
    if s != "" {
      var q := s[..|s| - 1];
      SelfSubstitute(q);
      var fillers := seq(Stars(s), i => "*");
      assert s == q + [s[|s| - 1]];
      if s[|s| - 1] == '*' {
        assert fillers[..|fillers| - 1] == seq(Stars(q), i => "*");
      } else {
        assert fillers == seq(Stars(q), i => "*");
      }
    }
  }

  /** A pattern without a star matches only itself. */
  lemma {:induction false} LiteralMatch(t: string, p: string)
    requires '*' !in p
    ensures Matches(t, p) <==> t == p
  {
    RecurrenceIsGlob(t, p);
    LiteralRecurrence(t, p);
  }

  lemma {:induction false} LiteralRecurrence(t: string, p: string)
    requires '*' !in p
    ensures Recurrence(t, p) <==> t == p
    decreases |p|
  {
    if p != "" {
      assert p == p[..|p| - 1] + [p[|p| - 1]];
      if t != "" {
        assert t == t[..|t| - 1] + [t[|t| - 1]];
        LiteralRecurrence(t[..|t| - 1], p[..|p| - 1]);
      }
    }
  }

  /** A literal prefix followed by stars only matches every string that has the prefix. */
  lemma {:induction false} PrefixStars(prefix: string, n: nat, t: string)
    requires n >= 1 && prefix <= t
    ensures Matches(t, prefix + seq(n, i => '*'))
  {
    if n == 1 {
      OneStar(prefix, t);
    } else {
      PrefixStars(prefix, n - 1, t);
      OneMoreStar(prefix + seq(n - 1, i => '*'), t);
      assert prefix + seq(n - 1, i => '*') + "*" == prefix + seq(n, i => '*');
    }
  }

  lemma OneStar(prefix: string, t: string)
    requires prefix <= t
    ensures Matches(t, prefix + seq(1, i => '*'))
  {
    SelfMatch(prefix);
    RecurrenceIsGlob(prefix, prefix);
    var p := prefix + seq(1, i => '*');
    assert p[..|p| - 1] == prefix;
    StarAbsorbs(prefix, t[|prefix|..], p);
    assert prefix + t[|prefix|..] == t;
    RecurrenceIsGlob(t, p);
  }

  lemma OneMoreStar(p: string, t: string)
    requires Matches(t, p)
    ensures Matches(t, p + "*")
  {
    assert (p + "*")[..|p|] == p;
    RecurrenceIsGlob(t, p);
    RecurrenceIsGlob(t, p + "*");
  }
}
