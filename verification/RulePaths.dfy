/**
 What the walk over a rule list means for operations as they are written. An operation is the concatenation of its
 segments, and one is a segment prefix of another when it ends where a slash follows.
 */
module RulePaths {
  import opened Text
  import opened RuleList
  import opened RuleLaws
  import opened AclTrie
  import Glob

  predicate Rooted(operation: string)
  {
    operation != "" && operation[0] == '/'
  }

  /** `r` is `q` or an ancestor of it. */
  predicate Under(r: string, q: string)
  {
    r == q || r + "/" <= q
  }

  // ----- an operation and its segments -----

  /** Splitting at a separator in the middle. */
  lemma {:induction false} SplitMiddle(s: string, t: string, sep: char)
    ensures Split(s + [sep] + t, sep) == Split(s, sep) + Split(t, sep)
  {
    if s == "" {
      SplitStep(sep, t, sep);
      assert "" + [sep] + t == [sep] + t;
    } else {
      SplitMiddle(s[1..], t, sep);
      ConsMiddle(s, t, sep);
      OneMore(s[0], s[1..], s[1..] + [sep] + t, Split(t, sep), sep);
    }
  }

  lemma OneMore(c: char, tail: string, whole: string, more: seq<string>, sep: char)
    requires Split(whole, sep) == Split(tail, sep) + more
    ensures Split([c] + whole, sep) == Split([c] + tail, sep) + more
  {
    SplitStep(c, tail, sep);
    SplitStep(c, whole, sep);
    Grown(c, Split(tail, sep), more);
  }

  lemma Grown(c: char, parts: seq<string>, more: seq<string>)
    requires |parts| >= 1
    ensures [""] + (parts + more) == ([""] + parts) + more
    ensures Lengthened([c], parts + more) == Lengthened([c], parts) + more
  {
    LongerFirst([c], parts, more);
  }

  lemma ConsMiddle(s: string, t: string, sep: char)
    requires s != ""
    ensures s == [s[0]] + s[1..] && s + [sep] + t == [s[0]] + (s[1..] + [sep] + t)
  {
  }

  lemma LongerFirst(p: string, parts: seq<string>, more: seq<string>)
    requires |parts| >= 1
    ensures Lengthened(p, parts + more) == Lengthened(p, parts) + more
  {
  }

  lemma SlashedMiddle(p: seq<string>, q: seq<string>)
    requires |p| >= 1
    ensures Slashed(p + q) == Slashed(p) + Slashed([""] + q)
  {
    var whole, parts := Slashed(p + q), Slashed(p) + Slashed([""] + q);
    assert |whole| == |parts|;
    forall i | 0 <= i < |whole| ensures whole[i] == parts[i] {
      if i >= |p| - 1 {
        assert (p + q)[i + 1] == q[i + 1 - |p|] == ([""] + q)[i + 2 - |p|];
      }
    }
  }

  /** The segments of a longer operation begin with those of a shorter one. */
  lemma PathMiddle(r: string, t: string)
    requires Rooted(t)
    ensures Path(r + t) == Path(r) + Path(t)
  {
    var rest := t[1..];
    assert t == ['/'] + rest && r + t == r + ['/'] + rest && "" + ['/'] + rest == t;
    SplitMiddle(r, rest, '/');
    SplitMiddle("", rest, '/');
    SlashedMiddle(Split(r, '/'), Split(rest, '/'));
  }

  lemma {:induction false} JoinPaths(p: seq<string>, q: seq<string>)
    ensures Join(p + q, "") == Join(p, "") + Join(q, "")
  {
    if p == [] {
      assert p + q == q;
    } else if |p| == 1 && q == [] {
      assert p + q == p;
    } else {
      JoinPaths(p[1..], q);
      assert (p + q)[1..] == p[1..] + q;
      JoinFirst(p + q);
      JoinFirst(p);
    }
  }

  lemma JoinFirst(p: seq<string>)
    requires p != []
    ensures Join(p, "") == p[0] + Join(p[1..], "")
  {
    assert p[0] + "" == p[0];
  }

  /** An operation is the concatenation of its segments, in order. */
  lemma SegmentsInOrder(operation: string)
    requires Rooted(operation)
    ensures Join(Path(operation), "") == operation
  {
    var parts := Split(operation[1..], '/');
    SplitMiddle("", operation[1..], '/');
    assert "" + ['/'] + operation[1..] == operation;
    SlashedJoin(parts, Slashed([""] + parts));
  }

  lemma {:induction false} SlashedJoin(parts: seq<string>, path: seq<string>)
    requires |parts| >= 1 && |path| == |parts| && forall i :: 0 <= i < |parts| ==> path[i] == "/" + parts[i]
    ensures Join(path, "") == "/" + Join(parts, "/")
  {
    JoinFirst(path);
    if |parts| > 1 {
      SlashedJoin(parts[1..], path[1..]);
      assert "/" + parts[0] + ("/" + Join(parts[1..], "/")) == "/" + (parts[0] + "/" + Join(parts[1..], "/"));
    } else {
      assert path[1..] == [];
    }
  }

  /** An operation is a segment prefix of another exactly when it is the other or an ancestor of it. */
  lemma UnderIsPrefix(r: string, q: string)
    requires Rooted(r) && Rooted(q)
    ensures Under(r, q) <==> Path(r) <= Path(q)
    ensures Under(r, q) ==> r == Join(Path(q)[..|Path(r)|], "")
  {
    SegmentsInOrder(r);
    SegmentsInOrder(q);
    if Under(r, q) {
      if r != q {
        assert Rooted(q[|r|..]) && r + q[|r|..] == q;
        PathMiddle(r, q[|r|..]);
      }
      assert Path(q)[..|Path(r)|] == Path(r);
    }
    if Path(r) <= Path(q) {
      PrefixIsUnder(r, q);
    }
  }

  lemma PrefixIsUnder(r: string, q: string)
    requires Rooted(r) && Rooted(q) && Path(r) <= Path(q)
    ensures Under(r, q)
  {
    var rest := Path(q)[|Path(r)|..];
    assert Path(q) == Path(r) + rest;
    SegmentsInOrder(r);
    SegmentsInOrder(q);
    JoinPaths(Path(r), rest);
    if rest == [] {
      assert r + "" == r;
    } else {
      assert rest[0] == Path(q)[|Path(r)|];
      JoinFirst(rest);
      LongerIsUnder(r, Join(rest, ""));
    }
  }

  lemma LongerIsUnder(r: string, t: string)
    requires Rooted(t)
    ensures Under(r, r + t)
  {
    assert t == "/" + t[1..];
    assert r + t == (r + "/") + t[1..];
  }

  // ----- the shortest rule, as written -----

  /** The rule list of puts, the first put first. */
  function PutAll<D>(puts: seq<(string, D)>): (rules: Rules<D>)
  {
    if puts == [] then NoRules
    else
      var (operation, data) := puts[|puts| - 1];
      Put(PutAll(puts[..|puts| - 1]), Path(operation), Some(data))
  }

  ghost predicate AllRooted<D>(puts: seq<(string, D)>)
  {
    forall i :: 0 <= i < |puts| ==> Rooted(puts[i].0)
  }

  ghost predicate NoStars<D>(puts: seq<(string, D)>)
  {
    forall i :: 0 <= i < |puts| ==> '*' !in puts[i].0
  }

  /** The rule that answers a request without stars in the rules: of those that are the request or an ancestor of it the
      shortest, and of those that are written alike the first. */
  ghost predicate Shortest<D>(puts: seq<(string, D)>, request: string, i: int)
  {
    && 0 <= i < |puts| && Under(puts[i].0, request)
    && forall j :: 0 <= j < |puts| && Under(puts[j].0, request) ==>
                     |puts[i].0| < |puts[j].0| || (|puts[i].0| == |puts[j].0| && i <= j)
  }

  lemma {:induction false} PutAllStarFree<D>(puts: seq<(string, D)>)
    requires NoStars(puts)
    ensures StarFree(PutAll(puts))
  {
    if puts != [] {
      var last := puts[|puts| - 1].0;
      PutAllStarFree(puts[..|puts| - 1]);
      forall s <- Path(last) ensures '*' !in s {
        StarFreeSegment(last, s);
      }
    }
  }

  lemma StarFreeSegment(operation: string, s: string)
    requires '*' !in operation && s in Path(operation)
    ensures '*' !in s
  {
    var parts := Split(operation, '/');
    var i :| 0 <= i < |Path(operation)| && Path(operation)[i] == s;
    if '*' in parts[i + 1] {
      JoinHolds(parts, "/", parts[i + 1], '*');
    }
  }

  lemma {:induction false} JoinHolds(parts: seq<string>, sep: string, p: string, c: char)
    requires p in parts && c in p
    ensures c in Join(parts, sep)
  {
    if |parts| > 1 && p != parts[0] {
      JoinHolds(parts[1..], sep, p, c);
    }
  }

  /** The first put written with these segments. */
  ghost predicate FirstWritten<D>(puts: seq<(string, D)>, path: seq<string>, i: int)
  {
    && 0 <= i < |puts| && Path(puts[i].0) == path
    && forall j :: 0 <= j < i ==> Path(puts[j].0) != path
  }

  lemma {:induction false} FirstPutOfPuts<D>(puts: seq<(string, D)>, path: seq<string>) returns (i: int)
    ensures FirstPut(PutAll(puts), path).Some? ==>
              FirstWritten(puts, path, i) && FirstPut(PutAll(puts), path) == Some(puts[i].1)
    ensures FirstPut(PutAll(puts), path).None? ==> NotWritten(puts, path)
  {
    i := 0;
    if puts != [] {
      var front := puts[..|puts| - 1];
      i := FirstPutOfPuts(front, path);
      WrittenFront(puts, path, i);
      if FirstPut(PutAll(front), path).None? {
        i := |puts| - 1;
      }
    }
  }

  ghost predicate NotWritten<D>(puts: seq<(string, D)>, path: seq<string>)
  {
    forall i :: 0 <= i < |puts| ==> Path(puts[i].0) != path
  }

  lemma WrittenFront<D>(puts: seq<(string, D)>, path: seq<string>, i: int)
    requires puts != []
    ensures FirstWritten(puts[..|puts| - 1], path, i) ==> FirstWritten(puts, path, i)
    ensures NotWritten(puts[..|puts| - 1], path) && Path(puts[|puts| - 1].0) == path ==>
              FirstWritten(puts, path, |puts| - 1)
    ensures NotWritten(puts[..|puts| - 1], path) && Path(puts[|puts| - 1].0) != path ==> NotWritten(puts, path)
  {
    assert forall j :: 0 <= j < |puts| - 1 ==> puts[j] == puts[..|puts| - 1][j];
  }

  lemma RootedPath(operation: string)
    requires Rooted(operation)
    ensures Path(operation) != []
  {
    SegmentsInOrder(operation);
  }

  /** Of two rules on the way to a request, the one with fewer segments is the shorter one. */
  lemma FewerIsShorter(r: string, q: string, request: string)
    requires Rooted(r) && Rooted(q) && Rooted(request) && Under(r, request) && Under(q, request)
    requires |Path(r)| <= |Path(q)|
    ensures |r| <= |q| && (|Path(r)| < |Path(q)| ==> |r| < |q|) && (|Path(r)| == |Path(q)| ==> r == q)
  {
    UnderIsPrefix(r, request);
    UnderIsPrefix(q, request);
    assert Path(r) <= Path(q);
    UnderIsPrefix(r, q);
  }

  lemma WrittenIsShortest<D>(puts: seq<(string, D)>, request: string, k: int, i: int)
    requires AllRooted(puts) && Rooted(request)
    requires ShortestPrefix(PutAll(puts), Path(request), k) && FirstWritten(puts, Path(request)[..k], i)
    ensures Shortest(puts, request, i)
  {
    var segments := Path(request);
    UnderIsPrefix(puts[i].0, request);
    forall j | 0 <= j < |puts| && Under(puts[j].0, request)
      ensures |puts[i].0| < |puts[j].0| || (|puts[i].0| == |puts[j].0| && i <= j)
    {
      UnderIsPrefix(puts[j].0, request);
      RootedPath(puts[j].0);
      var n := |Path(puts[j].0)|;
      assert Path(puts[j].0) == segments[..n];
      var first := FirstPutOfPuts(puts, segments[..n]);
      assert n >= k;
      FewerIsShorter(puts[i].0, puts[j].0, request);
    }
  }

  /** Without stars in the rules, the walk answers with the shortest rule that is the request or an ancestor of it, in
      terms of the operations as written, and with nothing exactly when there is none. */
  lemma StarFreeAsWritten<D>(puts: seq<(string, D)>, request: string)
    requires AllRooted(puts) && NoStars(puts) && Rooted(request)
    ensures Walk(PutAll(puts), Path(request)).Some? ==>
              exists i :: Shortest(puts, request, i) && Walk(PutAll(puts), Path(request)) == Some(puts[i].1)
    ensures Walk(PutAll(puts), Path(request)).None? ==> forall i :: 0 <= i < |puts| ==> !Under(puts[i].0, request)
  {
    var rules, segments := PutAll(puts), Path(request);
    PutAllStarFree(puts);
    StarFreeWalk(rules, segments);
    if Walk(rules, segments).Some? {
      var k :| ShortestPrefix(rules, segments, k) && Walk(rules, segments) == FirstPut(rules, segments[..k]);
      var i := FirstPutOfPuts(puts, segments[..k]);
      WrittenIsShortest(puts, request, k, i);
    } else {
      forall i | 0 <= i < |puts| ensures !Under(puts[i].0, request) {
        NotUnder(puts, request, i);
      }
    }
  }

  lemma NotUnder<D>(puts: seq<(string, D)>, request: string, i: nat)
    requires AllRooted(puts) && Rooted(request) && i < |puts|
    requires forall k :: 1 <= k <= |Path(request)| ==> FirstPut(PutAll(puts), Path(request)[..k]).None?
    ensures !Under(puts[i].0, request)
  {
    if Under(puts[i].0, request) {
      UnderIsPrefix(puts[i].0, request);
      RootedPath(puts[i].0);
      var n := |Path(puts[i].0)|;
      assert Path(request)[..n] == Path(puts[i].0);
      var first := FirstPutOfPuts(puts, Path(request)[..n]);
    }
  }

  /** The trie from puts to an answer. */
  method PutAndSearch<D>(puts: seq<(string, D)>, request: string) returns (data: Option<D>)
    requires AllRooted(puts)
    ensures data == Walk(PutAll(puts), Path(request))
    ensures NoStars(puts) && Rooted(request) ==>
              if data.Some? then exists i :: Shortest(puts, request, i) && data == Some(puts[i].1)
              else forall i :: 0 <= i < |puts| ==> !Under(puts[i].0, request)
  {
    var trie := new Trie<D>();
    TakeAll(puts);
    for i := 0 to |puts|
      invariant fresh(trie) && fresh(trie.nodes) && trie.Valid() && trie.rules == PutAll(puts[..i])
    {
      RootedPath(puts[i].0);
      TakeNext(puts, i);
      SnocFront(puts[..i], puts[i]);
      trie.PutOperationAction(puts[i].0, Some(puts[i].1));
    }
    data := trie.Search(request);
    if NoStars(puts) && Rooted(request) {
      StarFreeAsWritten(puts, request);
    }
  }

  // ----- one rule, with or without stars -----

  /** A rule segment fits a requested one: as a glob, except that a lone star fits the last one only, or its own text. */
  ghost predicate Fits(segment: string, target: string, last: bool)
  {
    Glob.Matches(target, segment) && (segment == "/*" ==> last || target == "/*")
  }

  lemma AnswersFits(segment: string, target: string, last: bool)
    requires WellFormed(target)
    ensures Answers(segment, target, last) <==> Fits(segment, target, last)
  {
    if Answers(segment, target, last) {
      AnswersIsGlob(segment, target, last);
    }
  }

  lemma SlashInside(segment: string, i: nat)
    requires WellFormed(segment) && i < |segment| && segment[i] == '/'
    ensures i == 0
  {
  }

  lemma SingleStageIsStar(segment: string)
    requires WellFormed(segment)
    ensures SingleStage(segment) <==> segment == "/*"
  {
    if SingleStage(segment) {
      var n := |segment|;
      assert segment[n - 2..][0] == '/' && segment[n - 2..][1] == '*';
      SlashInside(segment, n - 2);
      assert segment == [segment[0], segment[1]];
    }
  }

  /** A rule of these segments covers a request of those: segment by segment up to the end of the rule, where a lone star
      must be the end of the request too; or with one more segment, that fits a star. */
  ghost predicate RuleCovers(path: seq<string>, segments: seq<string>)
  {
    && path != [] && segments != []
    && AllFit(path, segments)
    && if |path| <= |segments| then path[|path| - 1] == "/*" ==> |path| == |segments|
       else |path| == |segments| + 1 && Glob.Matches("/*", path[|segments|])
  }

  ghost predicate AllFit(path: seq<string>, segments: seq<string>)
  {
    forall i :: 0 <= i < |path| && i < |segments| ==> Fits(path[i], segments[i], i == |segments| - 1)
  }

  lemma AllFitTail(path: seq<string>, segments: seq<string>)
    requires |path| > 1 && |segments| > 1 && AllFit(path, segments)
    ensures AllFit(path[1..], segments[1..])
  {
    var p, s := path[1..], segments[1..];
    forall i | 0 <= i < |p| && i < |s| ensures Fits(p[i], s[i], i == |s| - 1) {
      assert Fits(path[i + 1], segments[i + 1], i + 1 == |segments| - 1);
    }
  }

  lemma AllFitCons(path: seq<string>, segments: seq<string>)
    requires |path| > 1 && |segments| > 1 && Fits(path[0], segments[0], false) && AllFit(path[1..], segments[1..])
    ensures AllFit(path, segments)
  {
    var p, s := path[1..], segments[1..];
    forall i | 0 <= i < |path| && i < |segments| ensures Fits(path[i], segments[i], i == |segments| - 1) {
      if i > 0 {
        assert Fits(p[i - 1], s[i - 1], i - 1 == |s| - 1);
      }
    }
  }

  lemma CoversTail(path: seq<string>, segments: seq<string>)
    requires |path| > 1 && |segments| > 1
    ensures RuleCovers(path, segments) <==> Fits(path[0], segments[0], false) && RuleCovers(path[1..], segments[1..])
  {
    if AllFit(path, segments) {
      AllFitTail(path, segments);
    } else if Fits(path[0], segments[0], false) && AllFit(path[1..], segments[1..]) {
      AllFitCons(path, segments);
    }
  }

  lemma OneRuleStep<D>(path: seq<string>, d: D, target: string, last: bool)
    requires path != [] && WellFormed(target)
    ensures var rules := Put(NoRules, path, Some(d));
            && FirstHead(rules, target, last) == (if Fits(path[0], target, last) then Some(path[0]) else None)
            && At(rules, [path[0]]) == Put(NoRules, path[1..], Some(d))
            && Here(At(rules, [path[0]])) == (if |path| == 1 then Some(d) else None)
  {
    AnswersFits(path[0], target, last);
    assert [path[0]] <= path;
  }

  lemma NothingBelow<D>(d: D, segments: seq<string>)
    ensures Walk(Put(NoRules, [], Some(d)), segments) == None
  {
    if segments != [] {
      assert FirstHead(Put(NoRules, [], Some(d)), segments[0], |segments| == 1) == None;
    }
  }

  /** A single rule answers exactly the requests that it covers. */
  lemma {:induction false} OneRule<D>(path: seq<string>, d: D, segments: seq<string>)
    requires (forall s <- path :: WellFormed(s)) && (forall s <- segments :: WellFormed(s))
    requires path != [] && segments != []
    ensures Walk(Put(NoRules, path, Some(d)), segments) == if RuleCovers(path, segments) then Some(d) else None
    decreases |segments|
  {
    var last := |segments| == 1;
    OneRuleStep(path, d, segments[0], last);
    if !Fits(path[0], segments[0], last) {
    } else if |path| == 1 {
      SingleStageIsStar(path[0]);
      NothingBelow(d, segments[1..]);
    } else if last {
      assert WellFormed("/*");
      OneRuleStep(path[1..], d, "/*", true);
    } else {
      assert (forall s <- path[1..] :: WellFormed(s)) && (forall s <- segments[1..] :: WellFormed(s));
      OneRule(path[1..], d, segments[1..]);
      CoversTail(path, segments);
    }
  }

  lemma StarPath(r: string, star: string)
    requires Rooted(r) && (star == "/*" || star == "/**")
    ensures Path(r + star) == Path(r) + [star] && Path(r) != []
  {
    RootedPath(r);
    PathMiddle(r, star);
    SegmentsInOrder(star);
    SplitMiddle("", star[1..], '/');
    assert "" + ['/'] + star[1..] == star;
    SplitNone(star[1..], '/');
    assert "/" + star[1..] == star;
    assert Path(star) == [star];
  }

  /** What a last segment must fit, behind segments without stars. */
  ghost predicate EndCovers(star: string, n: nat, segments: seq<string>)
  {
    && n <= |segments|
    && if n == |segments| then Glob.Matches("/*", star)
       else Fits(star, segments[n], n == |segments| - 1) && (star == "/*" ==> |segments| == n + 1)
  }

  lemma LiteralFits(s: string, target: string, last: bool)
    requires '*' !in s
    ensures Fits(s, target, last) <==> s == target
  {
    Glob.LiteralMatch(target, s);
    assert "/*"[1] == '*';
  }

  lemma LiteralThenStar(p: seq<string>, star: string, segments: seq<string>)
    requires p != [] && segments != [] && (forall s <- p :: '*' !in s)
    requires p <= segments && EndCovers(star, |p|, segments)
    ensures RuleCovers(p + [star], segments)
  {
    var path := p + [star];
    forall i | 0 <= i < |path| && i < |segments| ensures Fits(path[i], segments[i], i == |segments| - 1) {
      if i < |p| {
        assert p[i] in p;
        LiteralFits(p[i], segments[i], i == |segments| - 1);
      }
    }
  }

  lemma StarNeedsLiteral(p: seq<string>, star: string, segments: seq<string>)
    requires p != [] && segments != [] && (forall s <- p :: '*' !in s)
    requires RuleCovers(p + [star], segments)
    ensures p <= segments && EndCovers(star, |p|, segments)
  {
    var path := p + [star];
    assert |p| <= |segments|;
    forall i | 0 <= i < |p| ensures p[i] == segments[i] {
      assert Fits(path[i], segments[i], i == |segments| - 1) && p[i] in p;
      LiteralFits(p[i], segments[i], i == |segments| - 1);
    }
    if |segments| > |p| {
      assert Fits(path[|p|], segments[|p|], |p| == |segments| - 1);
    }
  }

  lemma StarFits(target: string)
    requires WellFormed(target)
    ensures Glob.Matches(target, "/*") && Glob.Matches(target, "/**")
  {
    Glob.PrefixStars("/", 1, target);
    Glob.PrefixStars("/", 2, target);
    assert "/" + seq(1, i => '*') == "/*" && "/" + seq(2, i => '*') == "/**";
  }

  lemma EndStars(n: nat, segments: seq<string>)
    requires forall s <- segments :: WellFormed(s)
    ensures EndCovers("/*", n, segments) <==> n <= |segments| <= n + 1
    ensures EndCovers("/**", n, segments) <==> n <= |segments|
  {
    StarFits("/*");
    if n < |segments| {
      assert segments[n] in segments;
      StarFits(segments[n]);
    }
  }

  /** A rule that ends in a lone star covers the operation before the star and those one segment below it; one that ends
      in a double star covers the operation and everything below it. */
  lemma StarCovers(p: seq<string>, segments: seq<string>)
    requires p != [] && segments != [] && (forall s <- p :: '*' !in s) && (forall s <- segments :: WellFormed(s))
    ensures RuleCovers(p + ["/*"], segments) <==> p <= segments && |segments| <= |p| + 1
    ensures RuleCovers(p + ["/**"], segments) <==> p <= segments
  {
    EndStars(|p|, segments);
    OneStarCovers(p, "/*", segments);
    OneStarCovers(p, "/**", segments);
  }

  lemma OneStarCovers(p: seq<string>, star: string, segments: seq<string>)
    requires p != [] && segments != [] && (forall s <- p :: '*' !in s)
    ensures RuleCovers(p + [star], segments) <==> p <= segments && EndCovers(star, |p|, segments)
  {
    if RuleCovers(p + [star], segments) {
      StarNeedsLiteral(p, star, segments);
    } else if p <= segments && EndCovers(star, |p|, segments) {
      LiteralThenStar(p, star, segments);
    }
  }

  /** The two wildcards as they are written: behind an operation without stars, a lone star stands for the operation and
      whatever is one segment below it, a double star for the operation and everything below it. */
  lemma WildcardsAsWritten<D>(r: string, d: D, request: string)
    requires Rooted(r) && Rooted(request) && '*' !in r
    ensures Walk(PutAll([(r + "/*", d)]), Path(request)) ==
            if Under(r, request) && Count(request, '/') <= Count(r, '/') + 1 then Some(d) else None
    ensures Walk(PutAll([(r + "/**", d)]), Path(request)) == if Under(r, request) then Some(d) else None
  {
    var p, segments := Path(r), Path(request);
    StarPath(r, "/*");
    StarPath(r, "/**");
    RootedPath(request);
    UnderIsPrefix(r, request);
    forall s <- p ensures '*' !in s {
      StarFreeSegment(r, s);
    }
    StarCovers(p, segments);
    OneRule(p + ["/*"], d, segments);
    OneRule(p + ["/**"], d, segments);
    OnePut(r + "/*", d);
    OnePut(r + "/**", d);
  }

  lemma OnePut<D>(operation: string, d: D)
    ensures PutAll([(operation, d)]) == Put(NoRules, Path(operation), Some(d))
  {
    assert [(operation, d)][..0] == [];
  }
}
