/** What an answer of the walk over a rule list means in terms of the rules themselves. */
module RuleLaws {
  import opened Text
  import opened RuleList
  import Glob

  /** Some put of this path carries this answer. */
  ghost predicate Has<D>(rules: Rules<D>, path: seq<string>, d: D)
  {
    match rules
    case NoRules => false
    case Put(before, p, data) => Has(before, path, d) || (p == path && data == Some(d))
  }

  /** The first put for exactly this path that carries an answer. */
  function FirstPut<D>(rules: Rules<D>, path: seq<string>): (data: Option<D>)
  {
    match rules
    case NoRules => None
    case Put(before, p, data) =>
      if FirstPut(before, path).Some? then FirstPut(before, path) else if p == path then data else None
  }

  lemma {:induction false} HereIsFirstPut<D>(rules: Rules<D>, p: seq<string>)
    ensures Here(At(rules, p)) == FirstPut(rules, p)
  {
    match rules
    case NoRules =>
    case Put(before, path, data) =>
      HereIsFirstPut(before, p);
      if p <= path && path[|p|..] == [] {
        assert path == p;
      }
  }

  lemma {:induction false} FirstPutHas<D>(rules: Rules<D>, path: seq<string>)
    ensures FirstPut(rules, path).Some? ==> Has(rules, path, FirstPut(rules, path).value)
    ensures FirstPut(rules, path).None? ==> forall d :: !Has(rules, path, d)
  {
    match rules
    case NoRules =>
    case Put(before, _, _) => FirstPutHas(before, path);
  }

  /** A segment as operations are split: a slash and then none. */
  predicate WellFormed(segment: string)
  {
    segment != "" && segment[0] == '/' && '/' !in segment[1..]
  }

  predicate AllStars(segment: string)
  {
    |segment| >= 2 && segment[0] == '/' && forall i :: 1 <= i < |segment| ==> segment[i] == '*'
  }

  predicate WellFormedRules<D>(rules: Rules<D>)
  {
    match rules
    case NoRules => true
    case Put(before, path, _) => WellFormedRules(before) && forall s <- path :: WellFormed(s)
  }

  /** The rule's segments glob-match the leading requested segments, or all of them with one
      more segment made of stars only. */
  ghost predicate Covers(path: seq<string>, segments: seq<string>)
  {
    && 1 <= |path| <= |segments| + 1
    && (forall i :: 0 <= i < |path| && i < |segments| ==> Glob.Matches(segments[i], path[i]))
    && (|path| > |segments| ==> AllStars(path[|segments|]))
  }

  lemma {:induction false} HasBelow<D>(rules: Rules<D>, p: seq<string>, q: seq<string>, d: D)
    requires Has(At(rules, p), q, d)
    ensures Has(rules, p + q, d)
  {
    match rules
    case Put(before, path, data) =>
      if Has(At(before, p), q, d) {
        HasBelow(before, p, q, d);
      } else {
        assert path == p + path[|p|..];
      }
  }

  lemma {:induction false} HereHas<D>(rules: Rules<D>)
    ensures Here(rules).Some? ==> Has(rules, [], Here(rules).value)
  {
    match rules
    case NoRules =>
    case Put(before, _, _) => HereHas(before);
  }

  lemma {:induction false} WellFormedBelow<D>(rules: Rules<D>, p: seq<string>)
    requires WellFormedRules(rules)
    ensures WellFormedRules(At(rules, p))
  {
    match rules
    case NoRules =>
    case Put(before, _, _) => WellFormedBelow(before, p);
  }

  lemma {:induction false} FirstHeadWellFormed<D>(rules: Rules<D>, target: string, isEnd: bool)
    requires WellFormedRules(rules)
    ensures FirstHead(rules, target, isEnd).Some? ==> WellFormed(FirstHead(rules, target, isEnd).value)
  {
    match rules
    case NoRules =>
    case Put(before, _, _) => FirstHeadWellFormed(before, target, isEnd);
  }

  /** Every way a segment can answer is a glob match, the two wildcard segments included. */
  lemma AnswersIsGlob(segment: string, target: string, isEnd: bool)
    requires Answers(segment, target, isEnd) && WellFormed(target)
    ensures Glob.Matches(target, segment)
  {
    if segment == target {
      Glob.SelfMatch(target);
    } else if segment == SINGLE_STAGE_WILDCARD || segment == MULTI_STAGE_WILDCARD {
      var n := |segment| - 1;
      Glob.PrefixStars("/", n, target);
      assert "/" + seq(n, i => '*') == segment;
    }
  }

  lemma {:induction false} StarSegment(t: string, s: string)
    requires t == "" || t == "/" || t == "/*"
    requires WellFormed(s) && Glob.Recurrence(t, s)
    ensures forall i :: 1 <= i < |s| ==> s[i] == '*'
    ensures t == "/*" ==> |s| >= 2
    decreases |t| + |s|
  {
    if |s| >= 2 {
      var front := s[..|s| - 1];
      assert front[1..] == s[1..|s| - 1];
      assert s[|s| - 1] == s[1..][|s| - 2];
      assert s[|s| - 1] == '*';
      if Glob.Recurrence(t, front) {
        StarSegment(t, front);
      } else {
        StarSegment(t[..|t| - 1], s);
      }
    } else {
      assert s == "/";
      assert s[..0] == "";
    }
  }

  /** The rule found at the end of a walk whose last node has nothing to say. */
  lemma StarChildIsSound<D>(rules: Rules<D>, head: string) returns (path: seq<string>)
    requires WellFormedRules(rules)
    requires FirstHead(At(rules, [head]), SINGLE_STAGE_WILDCARD, true).Some?
    requires Here(At(At(rules, [head]), [FirstHead(At(rules, [head]), SINGLE_STAGE_WILDCARD, true).value])).Some?
    ensures |path| == 2 && path[0] == head && AllStars(path[1])
    ensures Has(rules, path,
                Here(At(At(rules, [head]), [FirstHead(At(rules, [head]), SINGLE_STAGE_WILDCARD, true).value])).value)
  {
    var below := At(rules, [head]);
    var star := FirstHead(below, SINGLE_STAGE_WILDCARD, true).value;
    WellFormedBelow(rules, [head]);
    FirstHeadWellFormed(below, SINGLE_STAGE_WILDCARD, true);
    AnswersIsGlob(star, SINGLE_STAGE_WILDCARD, true);
    Glob.RecurrenceIsGlob(SINGLE_STAGE_WILDCARD, star);
    StarSegment(SINGLE_STAGE_WILDCARD, star);
    HereHas(At(below, [star]));
    var d := Here(At(below, [star])).value;
    HasBelow(below, [star], [], d);
    HasBelow(rules, [head], [star] + [], d);
    path := [head] + ([star] + []);
  }

  lemma CoversCons(head: string, rest: seq<string>, segments: seq<string>)
    requires segments != [] && Glob.Matches(segments[0], head) && Covers(rest, segments[1..])
    ensures Covers([head] + rest, segments)
  {
    var path := [head] + rest;
    forall i | 0 <= i < |path| && i < |segments|
      ensures Glob.Matches(segments[i], path[i])
    {
      assert i > 0 ==> path[i] == rest[i - 1] && segments[i] == segments[1..][i - 1];
    }
  }

  /** Soundness: what the walk answers was put, with a path that covers the request. */
  lemma {:induction false} WalkIsSound<D>(rules: Rules<D>, segments: seq<string>) returns (path: seq<string>)
    requires WellFormedRules(rules) && forall s <- segments :: WellFormed(s)
    requires Walk(rules, segments).Some?
    ensures Has(rules, path, Walk(rules, segments).value) && Covers(path, segments)
    decreases |segments|
  {
    var isEnd := |segments| == 1;
    var head := FirstHead(rules, segments[0], isEnd).value;
    AnswersIsGlob(head, segments[0], isEnd);
    var below := At(rules, [head]);
    var found := Here(below);
    if found.Some? && (isEnd || !SingleStage(head)) {
      HereHas(below);
      HasBelow(rules, [head], [], found.value);
      path := [head] + [];
    } else if found.None? && isEnd {
      path := StarChildIsSound(rules, head);
    } else {
      WellFormedBelow(rules, [head]);
      assert forall s <- segments[1..] :: WellFormed(s);
      var rest := WalkIsSound(below, segments[1..]);
      HasBelow(rules, [head], rest, Walk(rules, segments).value);
      CoversCons(head, rest, segments);
      path := [head] + rest;
    }
  }

  predicate StarFree<D>(rules: Rules<D>)
  {
    match rules
    case NoRules => true
    case Put(before, path, _) => StarFree(before) && forall s <- path :: '*' !in s
  }

  lemma {:induction false} StarFreeBelow<D>(rules: Rules<D>, p: seq<string>)
    requires StarFree(rules)
    ensures StarFree(At(rules, p))
  {
    match rules
    case NoRules =>
    case Put(before, _, _) => StarFreeBelow(before, p);
  }

  /** Without stars the only head that can answer is the requested segment itself. */
  lemma {:induction false} StarFreeHead<D>(rules: Rules<D>, target: string, isEnd: bool)
    requires StarFree(rules)
    ensures FirstHead(rules, target, isEnd) == if At(rules, [target]).Put? then Some(target) else None
    ensures '*' in target ==> At(rules, [target]).NoRules?
  {
    match rules
    case NoRules =>
    case Put(before, path, _) =>
      StarFreeHead(before, target, isEnd);
      if path != [] {
        assert path[0] in path;
        Glob.LiteralMatch(target, path[0]);
        assert [target] <= path <==> path[0] == target;
        assert SINGLE_STAGE_WILDCARD[1] == '*' && MULTI_STAGE_WILDCARD[1] == '*';
        assert Answers(path[0], target, isEnd) <==> path[0] == target;
      }
  }

  lemma SingleStageHasStar(segment: string)
    ensures SingleStage(segment) ==> '*' in segment
  {
    if SingleStage(segment) {
      assert segment[|segment| - 2..][1] == '*';
    }
  }

  /** Number of leading segments of the shortest put rule that is a segment prefix, if any. */
  ghost predicate ShortestPrefix<D>(rules: Rules<D>, segments: seq<string>, k: int)
  {
    && 1 <= k <= |segments|
    && FirstPut(rules, segments[..k]).Some?
    && forall j :: 1 <= j < k ==> FirstPut(rules, segments[..j]).None?
  }

  /** When no rule has a star, the walk answers with the shortest rule that is a segment prefix of
      the request, and with nothing exactly when there is none. */
  lemma {:induction false} StarFreeWalk<D>(rules: Rules<D>, segments: seq<string>)
    requires StarFree(rules)
    ensures Walk(rules, segments).Some? ==>
              exists k :: ShortestPrefix(rules, segments, k) && Walk(rules, segments) == FirstPut(rules, segments[..k])
    ensures Walk(rules, segments).None? ==>
              forall k :: 1 <= k <= |segments| ==> FirstPut(rules, segments[..k]).None?
    decreases |segments|
  {
    if segments != [] {
      var head, rest := segments[0], segments[1..];
      var isEnd := |segments| == 1;
      var below := At(rules, [head]);
      StarFreeHead(rules, head, isEnd);
      StarFreeBelow(rules, [head]);
      forall k | 1 <= k <= |segments|
        ensures FirstPut(rules, segments[..k]) == FirstPut(below, rest[..k - 1])
      {
        assert segments[..k] == [head] + rest[..k - 1];
        FirstPutBelow(rules, head, rest[..k - 1]);
      }
      HereIsFirstPut(below, []);
      AtRoot(below);
      assert rest[..0] == [] && segments[..1] == [head];
      if below.NoRules? {
      } else if FirstPut(below, []).Some? {
        SingleStageHasStar(head);
        assert ShortestPrefix(rules, segments, 1);
      } else if isEnd {
        StarFreeHead(below, SINGLE_STAGE_WILDCARD, true);
        assert SINGLE_STAGE_WILDCARD[1] == '*';
      } else {
        StarFreeWalk(below, rest);
        if Walk(rules, segments).Some? {
          var k :| ShortestPrefix(below, rest, k) && Walk(below, rest) == FirstPut(below, rest[..k]);
          forall j | 1 <= j < k + 1
            ensures FirstPut(rules, segments[..j]).None?
          {
            assert j > 1 ==> FirstPut(below, rest[..j - 1]).None?;
          }
          assert ShortestPrefix(rules, segments, k + 1);
        } else {
          forall k | 1 <= k <= |segments|
            ensures FirstPut(rules, segments[..k]).None?
          {
            assert k > 1 ==> FirstPut(below, rest[..k - 1]).None?;
          }
        }
      }
    }
  }

  lemma {:induction false} FirstPutBelow<D>(rules: Rules<D>, head: string, q: seq<string>)
    ensures FirstPut(At(rules, [head]), q) == FirstPut(rules, [head] + q)
  {
    match rules
    case NoRules =>
    case Put(before, path, _) =>
      FirstPutBelow(before, head, q);
      if [head] <= path {
        assert path == [head] + path[1..];
      } else {
        assert path != [head] + q;
      }
  }

  /** Without stars, and with one answer per path, only which rules were put matters: two lists with
      the same rules in any order, with any repetition, answer every request alike. */
  lemma StarFreeOrder<D>(rules: Rules<D>, others: Rules<D>, segments: seq<string>)
    requires StarFree(rules) && StarFree(others)
    requires forall p, d :: Has(rules, p, d) <==> Has(others, p, d)
    requires forall p, d, e :: Has(rules, p, d) && Has(rules, p, e) ==> d == e
    ensures Walk(rules, segments) == Walk(others, segments)
  {
    forall p
      ensures FirstPut(rules, p) == FirstPut(others, p)
    {
      FirstPutHas(rules, p);
      FirstPutHas(others, p);
    }
    StarFreeWalk(rules, segments);
    StarFreeWalk(others, segments);
    if Walk(rules, segments).Some? && Walk(others, segments).Some? {
      var k :| ShortestPrefix(rules, segments, k) && Walk(rules, segments) == FirstPut(rules, segments[..k]);
      var j :| ShortestPrefix(others, segments, j) && Walk(others, segments) == FirstPut(others, segments[..j]);
      assert FirstPut(rules, segments[..j]).Some? && FirstPut(others, segments[..k]).Some?;
      assert j == k;
    }
  }

  /** One put, and then another, both of a single segment: the earlier of those that answer wins. */
  lemma TwoSegments<D>(first: string, d: D, second: string, e: D, target: string)
    requires first != second && Answers(first, target, true)
    ensures Walk(Put(Put(NoRules, [first], Some(d)), [second], Some(e)), [target]) == Some(d)
  {
    var one := Put(NoRules, [first], Some(d));
    assert FirstHead(one, target, true) == Some(first);
    assert [second][0] != [first][0];
    assert [first] <= [first] && [first][1..] == [] && !([first] <= [second]);
    assert At(one, [first]) == Put(NoRules, [], Some(d));
    var two := Put(one, [second], Some(e));
    assert FirstHead(two, target, true) == Some(first) && At(two, [first]) == At(one, [first]);
    assert Here(At(two, [first])) == Some(d);
  }

  /** With stars the put order decides, and a rule that names the request exactly can be missed:
      the walk follows `/a*` first and does not come back for `/ab/y`. */
  lemma StarsMakeOrderMatter()
    ensures Walk(Put(Put(NoRules, ["/a*"], Some(0)), ["/ab"], Some(1)), ["/ab"]) == Some(0)
    ensures Walk(Put(Put(NoRules, ["/ab"], Some(1)), ["/a*"], Some(0)), ["/ab"]) == Some(1)
    ensures Walk(Put(Put(NoRules, ["/a*", "/x"], Some(0)), ["/ab", "/y"], Some(1)), ["/ab", "/y"]) == None
  {
    Glob.PrefixStars("/a", 1, "/ab");
    assert "/a" + seq(1, i => '*') == "/a*";
    TwoSegments("/a*", 0, "/ab", 1, "/ab");
    TwoSegments("/ab", 1, "/a*", 0, "/ab");
    Glob.LiteralMatch("/y", "/x");
    NoWayBack("/a*", "/x", 0, "/ab", "/y", 1);
  }

  lemma NoWayBack<D>(h: string, x: string, d: D, g: string, y: string, e: D)
    requires h != g && Answers(h, g, false) && !SingleStage(h) && !Answers(x, y, true)
    ensures Walk(Put(Put(NoRules, [h, x], Some(d)), [g, y], Some(e)), [g, y]) == None
  {
    var one := Put(NoRules, [h, x], Some(d));
    assert FirstHead(one, g, false) == Some(h);
    assert [h] <= [h, x] && [h, x][1..] == [x] && !([h] <= [g, y]) && [g, y][1..] == [y];
    assert At(one, [h]) == Put(NoRules, [x], Some(d));
    var two := Put(one, [g, y], Some(e));
    assert FirstHead(two, g, false) == Some(h) && At(two, [h]) == At(one, [h]);
    assert Here(At(two, [h])) == None && Walk(two, [g, y]) == Walk(At(two, [h]), [y]);
    assert FirstHead(Put(NoRules, [x], Some(d)), y, true) == None;
  }

  // ----- lists that no walk can tell apart -----

  /** Both lists read alike at every path: the same first answer and the same heads in the same order. */
  ghost predicate Same<D>(rules: Rules<D>, others: Rules<D>)
  {
    forall p :: Here(At(rules, p)) == Here(At(others, p)) && Heads(At(rules, p)) == Heads(At(others, p))
  }

  lemma {:induction false} SameWalk<D>(rules: Rules<D>, others: Rules<D>, segments: seq<string>)
    requires Same(rules, others)
    ensures Walk(rules, segments) == Walk(others, segments)
    decreases |segments|
  {
    if segments != [] {
      var isEnd := |segments| == 1;
      SameHead(rules, others, segments[0], isEnd);
      var head := FirstHead(rules, segments[0], isEnd);
      if head.Some? {
        SameBelow(rules, others, [head.value]);
        var below, beside := At(rules, [head.value]), At(others, [head.value]);
        SameWalk(below, beside, segments[1..]);
        SameHead(below, beside, SINGLE_STAGE_WILDCARD, true);
      }
    }
  }

  lemma SameHead<D>(rules: Rules<D>, others: Rules<D>, target: string, isEnd: bool)
    requires Same(rules, others)
    ensures FirstHead(rules, target, isEnd) == FirstHead(others, target, isEnd)
    ensures Here(rules) == Here(others)
  {
    AtRoot(rules);
    AtRoot(others);
    FirstHeadIsFirstAnsweringHead(rules, target, isEnd);
    FirstHeadIsFirstAnsweringHead(others, target, isEnd);
  }

  lemma SameBelow<D>(rules: Rules<D>, others: Rules<D>, p: seq<string>)
    requires Same(rules, others)
    ensures Same(At(rules, p), At(others, p))
  {
    forall q
      ensures Here(At(At(rules, p), q)) == Here(At(At(others, p), q))
      ensures Heads(At(At(rules, p), q)) == Heads(At(At(others, p), q))
    {
      AtAt(rules, p, q);
      AtAt(others, p, q);
    }
  }

  lemma SamePut<D>(rules: Rules<D>, others: Rules<D>, path: seq<string>, data: Option<D>)
    requires Same(rules, others)
    ensures Same(Put(rules, path, data), Put(others, path, data))
  {
    forall p
      ensures Here(At(Put(rules, path, data), p)) == Here(At(Put(others, path, data), p))
      ensures Heads(At(Put(rules, path, data), p)) == Heads(At(Put(others, path, data), p))
    {
      assert Here(At(rules, p)) == Here(At(others, p)) && Heads(At(rules, p)) == Heads(At(others, p));
    }
  }

  /** Putting a path again, once it has an answer, changes nothing that a walk can see. */
  lemma RepeatedPut<D>(rules: Rules<D>, path: seq<string>, data: Option<D>)
    requires FirstPut(rules, path).Some?
    ensures Same(Put(rules, path, data), rules)
  {
    forall p
      ensures Here(At(Put(rules, path, data), p)) == Here(At(rules, p))
      ensures Heads(At(Put(rules, path, data), p)) == Heads(At(rules, p))
    {
      if p <= path {
        HereIsFirstPut(rules, p);
        assert path[|p|..] == [] ==> p == path;
        if p != path {
          HeadTaken(rules, path, p);
          assert path[|p|..][0] == path[|p|];
        }
      }
    }
  }

  lemma {:induction false} HeadTaken<D>(rules: Rules<D>, path: seq<string>, p: seq<string>)
    requires FirstPut(rules, path).Some? && p < path
    ensures path[|p|] in Heads(At(rules, p))
  {
    match rules
    case Put(before, q, _) =>
      if FirstPut(before, path).Some? {
        HeadTaken(before, path, p);
      } else {
        assert q[|p|..][0] == path[|p|];
      }
  }

  /** The walk treats answers as opaque: renaming them renames what it returns. */
  function Rename<D, E>(rules: Rules<D>, f: D -> E): (renamed: Rules<E>)
  {
    match rules
    case NoRules => NoRules
    case Put(before, path, data) => Put(Rename(before, f), path, RenameData(data, f))
  }

  function RenameData<D, E>(data: Option<D>, f: D -> E): (renamed: Option<E>)
  {
    if data.Some? then Some(f(data.value)) else None
  }

  lemma {:induction false} RenameReads<D, E>(rules: Rules<D>, f: D -> E, p: seq<string>)
    ensures At(Rename(rules, f), p) == Rename(At(rules, p), f)
    ensures Here(Rename(rules, f)) == RenameData(Here(rules), f)
  {
    match rules
    case NoRules =>
    case Put(before, _, _) => RenameReads(before, f, p);
  }

  lemma {:induction false} RenameHead<D, E>(rules: Rules<D>, f: D -> E, target: string, isEnd: bool)
    ensures FirstHead(Rename(rules, f), target, isEnd) == FirstHead(rules, target, isEnd)
  {
    match rules
    case NoRules =>
    case Put(before, _, _) => RenameHead(before, f, target, isEnd);
  }

  lemma {:induction false} RenameWalk<D, E>(rules: Rules<D>, f: D -> E, segments: seq<string>)
    ensures Walk(Rename(rules, f), segments) == RenameData(Walk(rules, segments), f)
    decreases |segments|
  {
    if segments != [] {
      var isEnd := |segments| == 1;
      RenameHead(rules, f, segments[0], isEnd);
      var head := FirstHead(rules, segments[0], isEnd);
      if head.Some? {
        var below := At(rules, [head.value]);
        RenameReads(rules, f, [head.value]);
        RenameReads(below, f, []);
        RenameWalk(below, f, segments[1..]);
        RenameHead(below, f, SINGLE_STAGE_WILDCARD, true);
        var star := FirstHead(below, SINGLE_STAGE_WILDCARD, true);
        if star.Some? {
          RenameReads(below, f, [star.value]);
          RenameReads(At(below, [star.value]), f, []);
        }
      }
    }
  }
}
