/**
 When a rule that names a request exactly answers it, and when the order of puts decides. Both conditions are exact and
 speak of the rules alone.
 */
module RuleOrder {
  import opened Text
  import opened RuleList
  import opened RuleLaws

  // ----- the rule that names the request -----

  /** The walk stays on the request's own segments up to step `i`: each is the first that answers, and no rule ends on the
      way, unless in a segment that answers the last requested segment only. */
  ghost predicate Unhidden<D>(rules: Rules<D>, segments: seq<string>, i: int)
    requires 0 <= i < |segments|
  {
    && FirstHead(At(rules, segments[..i]), segments[i], i == |segments| - 1) == Some(segments[i])
    && (i < |segments| - 1 && Here(At(rules, segments[..i + 1])).Some? ==> SingleStage(segments[i]))
  }

  /** An answer was put under the head that the walk followed first. */
  lemma {:induction false} WalkHas<D>(rules: Rules<D>, segments: seq<string>) returns (path: seq<string>)
    requires Walk(rules, segments).Some?
    ensures Has(rules, path, Walk(rules, segments).value)
    ensures path != [] && FirstHead(rules, segments[0], |segments| == 1) == Some(path[0])
    decreases |segments|
  {
    var isEnd := |segments| == 1;
    var head := FirstHead(rules, segments[0], isEnd).value;
    var below := At(rules, [head]);
    var found := Here(below);
    var rest: seq<string>;
    if found.Some? && (isEnd || !SingleStage(head)) {
      HereHas(below);
      rest := [];
    } else if found.None? && isEnd {
      var star := FirstHead(below, SINGLE_STAGE_WILDCARD, true).value;
      HereHas(At(below, [star]));
      HasBelow(below, [star], [], Walk(rules, segments).value);
      rest := [star] + [];
    } else {
      rest := WalkHas(below, segments[1..]);
    }
    HasBelow(rules, [head], rest, Walk(rules, segments).value);
    path := [head] + rest;
  }

  ghost predicate UnhiddenFrom<D>(rules: Rules<D>, segments: seq<string>, i: int)
    requires 0 <= i
  {
    forall j :: i <= j < |segments| ==> Unhidden(rules, segments, j)
  }

  /** If the walk leaves the request's segments at step `i`, it does not find the answer put under them. */
  lemma LeavesTheRule<D(!new)>(rules: Rules<D>, segments: seq<string>, d: D, i: nat)
    requires i < |segments| && forall p :: Has(rules, p, d) ==> p == segments
    requires FirstHead(At(rules, segments[..i]), segments[i..][0], |segments[i..]| == 1) != Some(segments[i])
    ensures Walk(At(rules, segments[..i]), segments[i..]) != Some(d)
  {
    if Walk(At(rules, segments[..i]), segments[i..]) == Some(d) {
      var path := WalkHas(At(rules, segments[..i]), segments[i..]);
      assert (segments[..i] + path)[i] == path[0] != segments[i];
      HasBelow(rules, segments[..i], path, d);
    }
  }

  /** One step of the walk along the request's segments, up to the last but one. */
  lemma StepAlong<D>(rules: Rules<D>, segments: seq<string>, i: nat)
    requires i + 1 < |segments|
    requires FirstHead(At(rules, segments[..i]), segments[i], false) == Some(segments[i])
    ensures Walk(At(rules, segments[..i]), segments[i..]) ==
            if Here(At(rules, segments[..i + 1])).Some? && !SingleStage(segments[i]) then Here(At(rules, segments[..i + 1]))
            else Walk(At(rules, segments[..i + 1]), segments[i + 1..])
  {
    AtAt(rules, segments[..i], [segments[i]]);
    TakeNext(segments, i);
    DropNext(segments, i);
  }

  lemma LastStep<D>(rules: Rules<D>, segments: seq<string>, d: D)
    requires segments != [] && FirstPut(rules, segments) == Some(d)
    requires FirstHead(At(rules, segments[..|segments| - 1]), segments[|segments| - 1], true) ==
             Some(segments[|segments| - 1])
    ensures Walk(At(rules, segments[..|segments| - 1]), segments[|segments| - 1..]) == Some(d)
  {
    var i := |segments| - 1;
    AtAt(rules, segments[..i], [segments[i]]);
    assert segments[..i] + [segments[i]] == segments;
    HereIsFirstPut(rules, segments);
  }

  lemma {:induction false} WalkFrom<D(!new)>(rules: Rules<D>, segments: seq<string>, d: D, i: nat)
    requires i < |segments| && FirstPut(rules, segments) == Some(d)
    requires forall p :: Has(rules, p, d) ==> p == segments
    ensures Walk(At(rules, segments[..i]), segments[i..]) == Some(d) <==> UnhiddenFrom(rules, segments, i)
    decreases |segments| - i
  {
    var isEnd := i == |segments| - 1;
    if FirstHead(At(rules, segments[..i]), segments[i], isEnd) != Some(segments[i]) {
      assert !Unhidden(rules, segments, i);
      LeavesTheRule(rules, segments, d, i);
    } else if isEnd {
      assert Unhidden(rules, segments, i);
      LastStep(rules, segments, d);
    } else {
      StepAlong(rules, segments, i);
      if Here(At(rules, segments[..i + 1])).Some? && !SingleStage(segments[i]) {
        assert !Unhidden(rules, segments, i);
        HereIsFirstPut(rules, segments[..i + 1]);
        FirstPutHas(rules, segments[..i + 1]);
        assert segments[..i + 1] != segments;
      } else {
        assert Unhidden(rules, segments, i);
        WalkFrom(rules, segments, d, i + 1);
      }
    }
  }

  /** A rule that names a request exactly, and whose answer no other rule gives, answers it if and only if it is hidden at
      no step. */
  lemma ExactRuleAnswers<D(!new)>(rules: Rules<D>, segments: seq<string>, d: D)
    requires segments != [] && FirstPut(rules, segments) == Some(d)
    requires forall p :: Has(rules, p, d) ==> p == segments
    ensures Walk(rules, segments) == Some(d) <==> forall i :: 0 <= i < |segments| ==> Unhidden(rules, segments, i)
  {
    AtRoot(rules);
    assert segments[..0] == [] && segments[0..] == segments;
    WalkFrom(rules, segments, d, 0);
  }

  // ----- the order of puts -----

  /** The puts of a list, without their order. */
  ghost function Puts<D>(rules: Rules<D>): (puts: multiset<(seq<string>, Option<D>)>)
  {
    match rules
    case NoRules => multiset{}
    case Put(before, path, data) => Puts(before) + multiset{(path, data)}
  }

  /** The same puts in another order. */
  ghost predicate Reordered<D>(rules: Rules<D>, others: Rules<D>)
  {
    Puts(rules) == Puts(others)
  }

  ghost predicate In<D>(rules: Rules<D>, path: seq<string>, data: Option<D>)
  {
    match rules
    case NoRules => false
    case Put(before, p, e) => In(before, path, data) || (p == path && e == data)
  }

  ghost predicate SamePuts<D(!new)>(rules: Rules<D>, others: Rules<D>)
  {
    forall p, data :: In(rules, p, data) <==> In(others, p, data)
  }

  /** No path was put with two answers. */
  ghost predicate OneAnswer<D(!new)>(rules: Rules<D>)
  {
    forall p, d, e :: In(rules, p, Some(d)) && In(rules, p, Some(e)) ==> d == e
  }

  lemma {:induction false} InPuts<D>(rules: Rules<D>, path: seq<string>, data: Option<D>)
    ensures In(rules, path, data) <==> (path, data) in Puts(rules)
  {
    match rules
    case NoRules =>
    case Put(before, _, _) => InPuts(before, path, data);
  }

  lemma ReorderedSamePuts<D(!new)>(rules: Rules<D>, others: Rules<D>)
    requires Reordered(rules, others)
    ensures SamePuts(rules, others)
  {
    forall p, data ensures In(rules, p, data) <==> In(others, p, data) {
      InPuts(rules, p, data);
      InPuts(others, p, data);
    }
  }

  lemma {:induction false} InBelow<D>(rules: Rules<D>, p: seq<string>, q: seq<string>, data: Option<D>)
    ensures In(At(rules, p), q, data) <==> In(rules, p + q, data)
  {
    match rules
    case NoRules =>
    case Put(before, path, _) =>
      InBelow(before, p, q, data);
      if p <= path {
        assert path == p + path[|p|..];
        assert path[|p|..] == q <==> path == p + q;
      } else {
        assert path != p + q;
      }
  }

  lemma SamePutsBelow<D(!new)>(rules: Rules<D>, others: Rules<D>, p: seq<string>)
    requires SamePuts(rules, others)
    ensures SamePuts(At(rules, p), At(others, p))
  {
    forall q, data ensures In(At(rules, p), q, data) <==> In(At(others, p), q, data) {
      InBelow(rules, p, q, data);
      InBelow(others, p, q, data);
    }
  }

  lemma OneAnswerBelow<D(!new)>(rules: Rules<D>, p: seq<string>)
    requires OneAnswer(rules)
    ensures OneAnswer(At(rules, p))
  {
    forall q, d, e | In(At(rules, p), q, Some(d)) && In(At(rules, p), q, Some(e)) ensures d == e {
      InBelow(rules, p, q, Some(d));
      InBelow(rules, p, q, Some(e));
    }
  }

  lemma {:induction false} InHas<D>(rules: Rules<D>, path: seq<string>, d: D)
    ensures In(rules, path, Some(d)) <==> Has(rules, path, d)
  {
    match rules
    case NoRules =>
    case Put(before, _, _) => InHas(before, path, d);
  }

  /** Lists of the same puts, one answer to a path, say the same at their root. */
  lemma SameHere<D(!new)>(rules: Rules<D>, others: Rules<D>)
    requires SamePuts(rules, others) && OneAnswer(rules)
    ensures Here(rules) == Here(others)
  {
    AtRoot(rules);
    AtRoot(others);
    HereIsFirstPut(rules, []);
    HereIsFirstPut(others, []);
    FirstPutHas(rules, []);
    FirstPutHas(others, []);
    if Here(rules).Some? {
      InHas(rules, [], Here(rules).value);
      InHas(others, [], Here(rules).value);
    }
    if Here(others).Some? {
      InHas(others, [], Here(others).value);
      InHas(rules, [], Here(others).value);
    }
  }

  /** Some rule begins with this segment. */
  ghost predicate Starts<D>(rules: Rules<D>, h: string)
  {
    At(rules, [h]).Put?
  }

  lemma {:induction false} SomeIn<D>(rules: Rules<D>) returns (path: seq<string>, data: Option<D>)
    requires rules.Put?
    ensures In(rules, path, data)
  {
    path, data := rules.path, rules.data;
  }

  lemma SameStarts<D(!new)>(rules: Rules<D>, others: Rules<D>, h: string)
    requires SamePuts(rules, others) && Starts(rules, h)
    ensures Starts(others, h)
  {
    SamePutsBelow(rules, others, [h]);
    var path, data := SomeIn(At(rules, [h]));
    assert In(At(others, [h]), path, data);
  }

  lemma {:induction false} FirstHeadStarts<D>(rules: Rules<D>, target: string, isEnd: bool)
    ensures FirstHead(rules, target, isEnd).Some? ==> Starts(rules, FirstHead(rules, target, isEnd).value)
    ensures FirstHead(rules, target, isEnd).None? ==> forall h :: Starts(rules, h) ==> !Answers(h, target, isEnd)
  {
    match rules
    case NoRules =>
    case Put(before, path, _) =>
      FirstHeadStarts(before, target, isEnd);
      forall h ensures Starts(rules, h) <==> Starts(before, h) || (path != [] && path[0] == h) {
        assert [h] <= path <==> path != [] && path[0] == h;
      }
  }

  /** One answer of some order: at every step any answering head may be the first. */
  ghost predicate CanAnswer<D(!new)>(rules: Rules<D>, segments: seq<string>, v: Option<D>)
    decreases |segments|
  {
    if segments == [] then v == None
    else
      var isEnd := |segments| == 1;
      || (v == None && forall h :: Starts(rules, h) ==> !Answers(h, segments[0], isEnd))
      || (exists h :: Starts(rules, h) && Answers(h, segments[0], isEnd) && CanGoOn(rules, segments, h, v))
  }

  ghost predicate CanGoOn<D(!new)>(rules: Rules<D>, segments: seq<string>, h: string, v: Option<D>)
    requires segments != []
    decreases |segments|, 0
  {
    var isEnd := |segments| == 1;
    var below := At(rules, [h]);
    var found := Here(below);
    if found.Some? && (isEnd || !SingleStage(h)) then v == found
    else if found.None? && isEnd then CanEnd(below, v)
    else CanAnswer(below, segments[1..], v)
  }

  /** The last look, for a rule with one more segment of stars. */
  ghost predicate CanEnd<D(!new)>(below: Rules<D>, v: Option<D>)
  {
    || (v == None && forall h :: Starts(below, h) ==> !Answers(h, SINGLE_STAGE_WILDCARD, true))
    || (exists h :: Starts(below, h) && Answers(h, SINGLE_STAGE_WILDCARD, true) && v == Here(At(below, [h])))
  }

  /** Whatever order the puts are in, the walk gives an answer that some order can give. */
  lemma {:induction false} WalkCanAnswer<D(!new)>(rules: Rules<D>, others: Rules<D>, segments: seq<string>)
    requires SamePuts(rules, others) && OneAnswer(rules)
    ensures CanAnswer(rules, segments, Walk(others, segments))
    decreases |segments|
  {
    if segments != [] {
      var isEnd := |segments| == 1;
      FirstHeadStarts(others, segments[0], isEnd);
      match FirstHead(others, segments[0], isEnd)
      case None =>
        forall h | Starts(rules, h) ensures !Answers(h, segments[0], isEnd) {
          SameStarts(rules, others, h);
        }
      case Some(h) =>
        SameStarts(others, rules, h);
        SamePutsBelow(rules, others, [h]);
        OneAnswerBelow(rules, [h]);
        SameHere(At(rules, [h]), At(others, [h]));
        if Here(At(rules, [h])).None? && isEnd {
          EndCanAnswer(At(rules, [h]), At(others, [h]));
        } else {
          WalkCanAnswer(At(rules, [h]), At(others, [h]), segments[1..]);
        }
        assert CanGoOn(rules, segments, h, Walk(others, segments));
    }
  }

  ghost function StarAnswer<D>(below: Rules<D>): (v: Option<D>)
  {
    match FirstHead(below, SINGLE_STAGE_WILDCARD, true)
    case None => None
    case Some(star) => Here(At(below, [star]))
  }

  lemma EndCanAnswer<D(!new)>(below: Rules<D>, beside: Rules<D>)
    requires SamePuts(below, beside) && OneAnswer(below)
    ensures CanEnd(below, StarAnswer(beside))
  {
    FirstHeadStarts(beside, SINGLE_STAGE_WILDCARD, true);
    match FirstHead(beside, SINGLE_STAGE_WILDCARD, true)
    case None =>
      forall h | Starts(below, h) ensures !Answers(h, SINGLE_STAGE_WILDCARD, true) {
        SameStarts(below, beside, h);
      }
    case Some(h) =>
      SameStarts(beside, below, h);
      SamePutsBelow(below, beside, [h]);
      OneAnswerBelow(below, [h]);
      SameHere(At(below, [h]), At(beside, [h]));
  }

  // ----- putting one rule first -----

  ghost function First<D>(path: seq<string>, data: Option<D>, rules: Rules<D>): (r: Rules<D>)
  {
    match rules
    case NoRules => Put(NoRules, path, data)
    case Put(before, p, e) => Put(First(path, data, before), p, e)
  }

  lemma {:induction false} FirstHeadOfFirst<D>(path: seq<string>, data: Option<D>, rules: Rules<D>, target: string,
                                               isEnd: bool)
    requires path != [] && Answers(path[0], target, isEnd)
    ensures FirstHead(First(path, data, rules), target, isEnd) == Some(path[0])
  {
    match rules
    case NoRules =>
    case Put(before, _, _) => FirstHeadOfFirst(path, data, before, target, isEnd);
  }

  lemma {:induction false} AtFirst<D>(h: string, path: seq<string>, data: Option<D>, rules: Rules<D>)
    ensures At(First([h] + path, data, rules), [h]) == First(path, data, At(rules, [h]))
  {
    match rules
    case NoRules => assert ([h] + path)[1..] == path;
    case Put(before, _, _) => AtFirst(h, path, data, before);
  }

  /** A rule that, put first, makes the walk give the answer. */
  ghost predicate Steers<D(!new)>(rules: Rules<D>, segments: seq<string>, v: Option<D>, path: seq<string>, data: Option<D>)
  {
    forall rest :: SamePuts(rules, First(path, data, rest)) ==> Walk(First(path, data, rest), segments) == v
  }

  /** With a rule under `h` put first, the walk goes to `h` and finds the same rules below, that rule first. */
  lemma GoesTo<D(!new)>(rules: Rules<D>, h: string, path: seq<string>, data: Option<D>, rest: Rules<D>, target: string,
                        isEnd: bool)
    requires SamePuts(rules, First([h] + path, data, rest)) && OneAnswer(rules) && Answers(h, target, isEnd)
    ensures var r := First([h] + path, data, rest);
            && FirstHead(r, target, isEnd) == Some(h)
            && At(r, [h]) == First(path, data, At(rest, [h]))
            && SamePuts(At(rules, [h]), At(r, [h])) && Here(At(rules, [h])) == Here(At(r, [h]))
  {
    var r := First([h] + path, data, rest);
    FirstHeadOfFirst([h] + path, data, rest, target, isEnd);
    AtFirst(h, path, data, rest);
    SamePutsBelow(rules, r, [h]);
    OneAnswerBelow(rules, [h]);
    SameHere(At(rules, [h]), At(r, [h]));
  }

  /** If no rule's first segment answers, none does in any order. */
  lemma NoneAnswers<D(!new)>(rules: Rules<D>, others: Rules<D>, target: string, isEnd: bool)
    requires SamePuts(rules, others) && forall h :: Starts(rules, h) ==> !Answers(h, target, isEnd)
    ensures FirstHead(others, target, isEnd).None?
  {
    FirstHeadStarts(others, target, isEnd);
    if FirstHead(others, target, isEnd).Some? {
      SameStarts(others, rules, FirstHead(others, target, isEnd).value);
    }
  }

  lemma SteerEnd<D(!new)>(below: Rules<D>, v: Option<D>) returns (path: seq<string>, data: Option<D>)
    requires below.Put? && OneAnswer(below) && CanEnd(below, v)
    ensures In(below, path, data)
    ensures forall rest :: SamePuts(below, First(path, data, rest)) ==> StarAnswer(First(path, data, rest)) == v
  {
    if h :| Starts(below, h) && Answers(h, SINGLE_STAGE_WILDCARD, true) && v == Here(At(below, [h])) {
      var p;
      p, data := SomeIn(At(below, [h]));
      path := [h] + p;
      InBelow(below, [h], p, data);
      forall rest | SamePuts(below, First(path, data, rest)) ensures StarAnswer(First(path, data, rest)) == v {
        GoesTo(below, h, p, data, rest, SINGLE_STAGE_WILDCARD, true);
      }
    } else {
      path, data := SomeIn(below);
      forall rest | SamePuts(below, First(path, data, rest)) ensures StarAnswer(First(path, data, rest)) == v {
        NoneAnswers(below, First(path, data, rest), SINGLE_STAGE_WILDCARD, true);
      }
    }
  }

  /** Below `h`, a rule that makes the walk go on to the answer. */
  ghost predicate SteersBelow<D(!new)>(rules: Rules<D>, segments: seq<string>, h: string, v: Option<D>, path: seq<string>,
                                       data: Option<D>)
    requires segments != []
  {
    var below, isEnd := At(rules, [h]), |segments| == 1;
    var found := Here(below);
    if found.Some? && (isEnd || !SingleStage(h)) then v == found
    else if found.None? && isEnd then
      forall rest :: SamePuts(below, First(path, data, rest)) ==> StarAnswer(First(path, data, rest)) == v
    else Steers(below, segments[1..], v, path, data)
  }

  lemma SteersAbove<D(!new)>(rules: Rules<D>, segments: seq<string>, h: string, v: Option<D>, path: seq<string>,
                             data: Option<D>)
    requires segments != [] && OneAnswer(rules) && Answers(h, segments[0], |segments| == 1)
    requires SteersBelow(rules, segments, h, v, path, data)
    ensures Steers(rules, segments, v, [h] + path, data)
  {
    forall rest | SamePuts(rules, First([h] + path, data, rest))
      ensures Walk(First([h] + path, data, rest), segments) == v
    {
      GoesTo(rules, h, path, data, rest, segments[0], |segments| == 1);
    }
  }

  /** For every answer that some order can give there is a rule that, put first, makes the walk give it. */
  lemma {:induction false} Steer<D(!new)>(rules: Rules<D>, segments: seq<string>, v: Option<D>)
    returns (path: seq<string>, data: Option<D>)
    requires rules.Put? && OneAnswer(rules) && CanAnswer(rules, segments, v)
    ensures In(rules, path, data) && Steers(rules, segments, v, path, data)
    decreases |segments|
  {
    if segments == [] {
      path, data := SomeIn(rules);
    } else if h :| Starts(rules, h) && Answers(h, segments[0], |segments| == 1) && CanGoOn(rules, segments, h, v) {
      var below, p := At(rules, [h]), [];
      OneAnswerBelow(rules, [h]);
      if Here(below).Some? && (|segments| == 1 || !SingleStage(h)) {
        p, data := SomeIn(below);
      } else if Here(below).None? && |segments| == 1 {
        p, data := SteerEnd(below, v);
      } else {
        p, data := Steer(below, segments[1..], v);
      }
      path := [h] + p;
      InBelow(rules, [h], p, data);
      SteersAbove(rules, segments, h, v, p, data);
    } else {
      path, data := SomeIn(rules);
      forall rest | SamePuts(rules, First(path, data, rest))
        ensures Walk(First(path, data, rest), segments) == v
      {
        NoneAnswers(rules, First(path, data, rest), segments[0], |segments| == 1);
      }
    }
  }

  /** The list with one occurrence of a put taken out. */
  ghost function Without<D>(rules: Rules<D>, path: seq<string>, data: Option<D>): (r: Rules<D>)
    requires In(rules, path, data)
    ensures Puts(rules) == Puts(r) + multiset{(path, data)}
  {
    match rules
    case Put(before, p, e) =>
      if p == path && e == data then before else Put(Without(before, path, data), p, e)
  }

  lemma {:induction false} PutsOfFirst<D>(path: seq<string>, data: Option<D>, rules: Rules<D>)
    ensures Puts(First(path, data, rules)) == Puts(rules) + multiset{(path, data)}
  {
    match rules
    case NoRules =>
    case Put(before, _, _) => PutsOfFirst(path, data, before);
  }

  /** An answer can be given exactly when some order of the puts gives it. */
  lemma SomeOrderAnswers<D(!new)>(rules: Rules<D>, segments: seq<string>, v: Option<D>)
    requires OneAnswer(rules)
    ensures CanAnswer(rules, segments, v) <==> exists others :: Reordered(rules, others) && Walk(others, segments) == v
  {
    if others :| Reordered(rules, others) && Walk(others, segments) == v {
      ReorderedSamePuts(rules, others);
      WalkCanAnswer(rules, others, segments);
    }
    if CanAnswer(rules, segments, v) {
      if rules.NoRules? {
        NothingStarts(segments, v);
        assert Reordered(rules, rules);
      } else {
        var path, data := Steer(rules, segments, v);
        var others := First(path, data, Without(rules, path, data));
        PutsOfFirst(path, data, Without(rules, path, data));
        ReorderedSamePuts(rules, others);
        assert Reordered(rules, others) && Walk(others, segments) == v;
      }
    }
  }

  lemma NothingStarts<D(!new)>(segments: seq<string>, v: Option<D>)
    requires CanAnswer(NoRules, segments, v)
    ensures v == None
  {
  }

  /** All ways of choosing among answering segments lead to the answer of the walk. */
  ghost predicate OneChoice<D(!new)>(rules: Rules<D>, segments: seq<string>)
  {
    forall v :: CanAnswer(rules, segments, v) ==> v == Walk(rules, segments)
  }

  /** The order of puts does not matter for a request, if and only if all ways of choosing among answering segments lead
      to one answer. */
  lemma OrderMatters<D(!new)>(rules: Rules<D>, segments: seq<string>)
    requires OneAnswer(rules)
    ensures (forall others :: Reordered(rules, others) ==> Walk(others, segments) == Walk(rules, segments)) <==>
            OneChoice(rules, segments)
  {
    if OneChoice(rules, segments) {
      forall others | Reordered(rules, others) ensures Walk(others, segments) == Walk(rules, segments) {
        SomeOrderAnswers(rules, segments, Walk(others, segments));
      }
    } else {
      var v :| CanAnswer(rules, segments, v) && v != Walk(rules, segments);
      SomeOrderAnswers(rules, segments, v);
    }
  }
}
