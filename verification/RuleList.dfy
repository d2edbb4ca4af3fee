/**
 The flat reading of an access-control trie: the ordered list of the rules that were put into
 it, and the walk that a request makes over that list. No node, no sharing: the trie of module
 AclTrie is proved to answer exactly as this walk does.
 */
module RuleList {
  import opened Text
  import Glob

  const SINGLE_STAGE_WILDCARD := "/*"
  const MULTI_STAGE_WILDCARD := "/**"

  /** The puts so far, latest outermost: each is the segments of an operation, with their leading
      slashes, and what to answer. */
  datatype Rules<+D> = NoRules | Put(before: Rules<D>, path: seq<string>, data: Option<D>)

  /** The segments of an operation as the trie sees them; what precedes the first slash is dropped. */
  function Path(operation: string): (path: seq<string>)
    ensures |path| == Count(operation, '/')
    ensures forall i :: 0 <= i < |path| ==> |path[i]| >= 1 && path[i][0] == '/' && '/' !in path[i][1..]
  {
    Slashed(Split(operation, '/'))
  }

  /** All parts but the first, with a slash before each. */
  function Slashed(parts: seq<string>): (path: seq<string>)
    requires |parts| >= 1
    ensures |path| == |parts| - 1 && forall i :: 0 <= i < |path| ==> path[i] == "/" + parts[i + 1]
  {
    seq(|parts| - 1, i requires 0 <= i < |parts| - 1 => "/" + parts[i + 1])
  }

  /** The rules below p, in put order, with p taken off their paths. */
  function At<D>(rules: Rules<D>, p: seq<string>): (below: Rules<D>)
  {
    match rules
    case NoRules => NoRules
    case Put(before, path, data) =>
      if p <= path then Put(At(before, p), path[|p|..], data) else At(before, p)
  }

  /** What the first rule that ends here, and has something to say, says. */
  function Here<D>(rules: Rules<D>): (data: Option<D>)
  {
    match rules
    case NoRules => None
    case Put(before, path, data) =>
      if Here(before).Some? then Here(before) else if path == [] then data else None
  }

  /** The distinct first segments, in the order in which they first appear. */
  function Heads<D>(rules: Rules<D>): (heads: seq<string>)
  {
    match rules
    case NoRules => []
    case Put(before, path, _) =>
      if path == [] || path[0] in Heads(before) then Heads(before) else Heads(before) + [path[0]]
  }

  /** Whether a rule segment answers a requested segment. */
  ghost predicate Answers(segment: string, target: string, isEnd: bool)
  {
    || segment == target
    || (if segment == SINGLE_STAGE_WILDCARD then isEnd
        else segment == MULTI_STAGE_WILDCARD || Glob.Matches(target, segment))
  }

  /** The first segment of the earliest rule whose first segment answers the target. */
  ghost function FirstHead<D>(rules: Rules<D>, target: string, isEnd: bool): (head: Option<string>)
    ensures head.Some? ==> Answers(head.value, target, isEnd)
  {
    match rules
    case NoRules => None
    case Put(before, path, _) =>
      var earlier := FirstHead(before, target, isEnd);
      if earlier.Some? then earlier
      else if path != [] && Answers(path[0], target, isEnd) then Some(path[0])
      else None
  }

  predicate HasSuffix(s: string, suffix: string)
  {
    |suffix| <= |s| && s[|s| - |suffix|..] == suffix
  }

  /** A rule segment that answers the last requested segment only. */
  predicate SingleStage(segment: string)
  {
    HasSuffix(segment, SINGLE_STAGE_WILDCARD) && !HasSuffix(segment, MULTI_STAGE_WILDCARD)
  }

  /** The walk: the first answering segment is followed and never reconsidered. */
  ghost function Walk<D>(rules: Rules<D>, segments: seq<string>): (data: Option<D>)
    decreases |segments|
  {
    if segments == [] then None
    else
      var isEnd := |segments| == 1;
      match FirstHead(rules, segments[0], isEnd)
      case None => None
      case Some(head) =>
        var below := At(rules, [head]);
        var found := Here(below);
        if found.Some? && (isEnd || !SingleStage(head)) then found
        else if found.None? && isEnd then
          match FirstHead(below, SINGLE_STAGE_WILDCARD, true)
          case None => None
          case Some(star) => Here(At(below, [star]))
        else Walk(below, segments[1..])
  }

  lemma {:induction false} AtRoot<D>(rules: Rules<D>)
    ensures At(rules, []) == rules
  {
    match rules
    case NoRules =>
    case Put(before, path, _) =>
      AtRoot(before);
      assert path[0..] == path;
  }

  /** Going below p and then below q is going below p + q. */
  lemma {:induction false} AtAt<D>(rules: Rules<D>, p: seq<string>, q: seq<string>)
    ensures At(At(rules, p), q) == At(rules, p + q)
  {
    match rules
    case NoRules =>
    case Put(before, path, _) =>
      AtAt(before, p, q);
      if p <= path {
        assert path == p + path[|p|..];
        if q <= path[|p|..] {
          assert p + q <= path && path[|p|..][|q|..] == path[|p + q|..];
        } else {
          assert !(p + q <= path);
        }
      } else {
        assert !(p + q <= path);
      }
  }

  /** A segment is among the heads exactly when some rule lies below it. */
  lemma {:induction false} HeadsPresent<D>(rules: Rules<D>, h: string)
    ensures h in Heads(rules) <==> At(rules, [h]).Put?
  {
    match rules
    case NoRules =>
    case Put(before, path, _) =>
      HeadsPresent(before, h);
      assert path != [] ==> ([h] <= path <==> path[0] == h);
  }

  /** The earliest answering rule and the earliest answering head are the same choice. */
  lemma {:induction false} FirstHeadIsFirstAnsweringHead<D>(rules: Rules<D>, target: string, isEnd: bool)
    ensures FirstHead(rules, target, isEnd) == FirstAnswer(Heads(rules), target, isEnd)
  {
    match rules
    case NoRules =>
    case Put(before, path, _) =>
      FirstHeadIsFirstAnsweringHead(before, target, isEnd);
      if path != [] {
        if path[0] in Heads(before) {
          FirstAnswerSome(Heads(before), path[0], target, isEnd);
        } else {
          FirstAnswerAppend(Heads(before), path[0], target, isEnd);
        }
      }
  }

  ghost function FirstAnswer(heads: seq<string>, target: string, isEnd: bool): (head: Option<string>)
  {
    if heads == [] then None
    else if Answers(heads[0], target, isEnd) then Some(heads[0])
    else FirstAnswer(heads[1..], target, isEnd)
  }

  lemma {:induction false} FirstAnswerAppend(heads: seq<string>, h: string, target: string, isEnd: bool)
    ensures FirstAnswer(heads + [h], target, isEnd) ==
            if FirstAnswer(heads, target, isEnd).Some? then FirstAnswer(heads, target, isEnd)
            else if Answers(h, target, isEnd) then Some(h) else None
  {
    if heads != [] {
      assert (heads + [h])[1..] == heads[1..] + [h];
      FirstAnswerAppend(heads[1..], h, target, isEnd);
    }
  }

  lemma {:induction false} FirstAnswerSome(heads: seq<string>, h: string, target: string, isEnd: bool)
    requires h in heads
    ensures Answers(h, target, isEnd) ==> FirstAnswer(heads, target, isEnd).Some?
  {
    if heads[0] != h {
      FirstAnswerSome(heads[1..], h, target, isEnd);
    }
  }
}
