/**
 Access decisions read straight off an access-control spec: no compiled list, no trie. A decision
 scans the policies, scans the operations of the policy found, and asks whether every action
 declared for the matched name and verb allows.
 */
module AclSpec {
  import opened Text
  import opened RuleList
  import opened RuleLaws
  import opened RuleOrder
  import Canonical
  import RulePaths
  import Glob

  const ALLOW := "allow"
  const DENY := "deny"
  const DEFAULT_TRUST_DOMAIN := "public"
  const ACTION_POLICY_APP := "app"
  const ACTION_POLICY_GLOBAL := "global"
  const ANY_VERB := "*"

  datatype AppOperation = AppOperation(operation: string, httpVerbs: seq<string>, action: string)

  datatype AppPolicy = AppPolicy(appName: string, defaultAction: string, trustDomain: string,
                                 namespace: string, operations: seq<AppOperation>)

  /** `policies` is None for an absent list, which the code tells from an empty one. */
  datatype Spec = Spec(defaultAction: string, trustDomain: string, policies: Option<seq<AppPolicy>>)

  /** The SPIFFE identity of the calling app. */
  datatype Caller = Caller(appId: string, namespace: string, trustDomain: string)

  /** Neither the app id nor the namespace holds a bar. A caller without an identity has neither. */
  predicate BarFree(caller: Option<Caller>)
  {
    caller.Some? ==> '|' !in caller.value.appId && '|' !in caller.value.namespace
  }

  datatype Decision = Decision(allowed: bool, policy: string)

  predicate IsActionAllowed(action: string)
  {
    ToLower(action) == ALLOW
  }

  // ----- merging the actions of rules that share a name -----

  function MergeAction(current: string, next: string): (merged: string)
    ensures IsActionAllowed(merged) ==> IsActionAllowed(next)
  {
    if current != "" && !IsActionAllowed(current) then current else next
  }

  function MergeAll(actions: seq<string>): (merged: string)
  {
    if actions == [] then "" else MergeAction(MergeAll(actions[..|actions| - 1]), actions[|actions| - 1])
  }

  /** Deny wins: no declared action refuses. An empty action refuses only when it is the last. */
  predicate MergedAllows(actions: seq<string>)
  {
    && actions != []
    && IsActionAllowed(actions[|actions| - 1])
    && forall a <- actions :: a != "" ==> IsActionAllowed(a)
  }

  lemma {:induction false} MergeAllows(actions: seq<string>)
    ensures IsActionAllowed(MergeAll(actions)) <==> MergedAllows(actions)
    ensures actions != [] ==>
              (MergeAll(actions) != "" && !IsActionAllowed(MergeAll(actions)) <==>
               exists a <- actions :: a != "" && !IsActionAllowed(a))
  {
    if actions != [] {
      var front, last := actions[..|actions| - 1], actions[|actions| - 1];
      MergeAllows(front);
      assert actions == front + [last];
      assert forall a <- actions :: a in front || a == last;
      assert last in actions && forall a <- front :: a in actions;
      if front != [] && (exists a <- front :: a != "" && !IsActionAllowed(a)) {
        var a :| a in front && a != "" && !IsActionAllowed(a);
        assert a in actions;
      }
    }
  }

  /** With every action named, a merged entry allows exactly when all of them do, in any order. */
  lemma NamedActionsMerge(actions: seq<string>, permuted: seq<string>)
    requires "" !in actions && multiset(actions) == multiset(permuted)
    ensures IsActionAllowed(MergeAll(actions)) <==> actions != [] && forall a <- actions :: IsActionAllowed(a)
    ensures IsActionAllowed(MergeAll(actions)) == IsActionAllowed(MergeAll(permuted))
  {
    MergeAllows(actions);
    MergeAllows(permuted);
    assert forall a :: a in actions <==> a in multiset(actions);
    assert forall a :: a in permuted <==> a in multiset(permuted);
    assert |multiset(actions)| == |actions| && |multiset(permuted)| == |permuted|;
    if actions != [] {
      assert actions[|actions| - 1] in actions && permuted[|permuted| - 1] in permuted;
    }
  }

  /** Without names it is not so: an empty action is forgotten unless it comes last. */
  lemma EmptyActionIsForgotten()
    ensures IsActionAllowed(MergeAll(["", ALLOW])) && !IsActionAllowed(MergeAll([ALLOW, ""]))
  {
    MergeAllows(["", ALLOW]);
    MergeAllows([ALLOW, ""]);
  }

  // ----- the operations of one policy -----

  function WithSlash(operation: string): (s: string)
    ensures s != "" && s[0] == '/'
    ensures s == operation || (s == "/" + operation && !("/" <= operation))
  {
    if operation != "" && operation[0] == '/' then operation else "/" + operation
  }

  /** The name under which an operation is filed. */
  function Name(op: AppOperation, isHttp: bool): (name: string)
  {
    if isHttp then Canonical.Read(WithSlash(op.operation)).stripped else WithSlash(op.operation)
  }

  /** The actions declared for a name, in order. */
  function Actions(ops: seq<AppOperation>, isHttp: bool, name: string): (actions: seq<string>)
  {
    if ops == [] then []
    else
      var last := ops[|ops| - 1];
      Actions(ops[..|ops| - 1], isHttp, name) + if Name(last, isHttp) == name then [last.action] else []
  }

  /** The actions declared for a name and a verb, in order. */
  function VerbActions(ops: seq<AppOperation>, isHttp: bool, name: string, verb: string): (actions: seq<string>)
  {
    if ops == [] then []
    else
      var last := ops[|ops| - 1];
      VerbActions(ops[..|ops| - 1], isHttp, name, verb)
      + if Name(last, isHttp) == name && verb in last.httpVerbs then [last.action] else []
  }

  /** Every declared operation as a rule that answers with its name. */
  function NameRules(ops: seq<AppOperation>, isHttp: bool): (rules: Rules<string>)
  {
    if ops == [] then NoRules
    else
      var name := Name(ops[|ops| - 1], isHttp);
      Put(NameRules(ops[..|ops| - 1], isHttp), Path(name), Some(name))
  }

  lemma {:induction false} NameRulesWellFormed(ops: seq<AppOperation>, isHttp: bool)
    ensures WellFormedRules(NameRules(ops, isHttp))
  {
    if ops != [] {
      NameRulesWellFormed(ops[..|ops| - 1], isHttp);
    }
  }

  /** A rule stands for a declared operation, under the path of its name. */
  lemma {:induction false} NameRulesHave(ops: seq<AppOperation>, isHttp: bool, path: seq<string>, name: string)
    returns (i: nat)
    requires Has(NameRules(ops, isHttp), path, name)
    ensures i < |ops| && Name(ops[i], isHttp) == name && path == Path(name)
  {
    var last := |ops| - 1;
    if Has(NameRules(ops[..last], isHttp), path, name) {
      i := NameRulesHave(ops[..last], isHttp, path, name);
    } else {
      i := last;
    }
  }

  /** Soundness of every match: the name that a request is decided by is that of a declared operation, whose segments
      glob-match the leading segments of the request, or all of them with one more segment made of stars. */
  lemma MatchIsSound(ops: seq<AppOperation>, isHttp: bool, operation: string) returns (i: nat)
    requires Walk(NameRules(ops, isHttp), Path(operation)).Some?
    ensures i < |ops| && Walk(NameRules(ops, isHttp), Path(operation)) == Some(Name(ops[i], isHttp))
    ensures Covers(Path(Name(ops[i], isHttp)), Path(operation))
  {
    NameRulesWellFormed(ops, isHttp);
    var path := WalkIsSound(NameRules(ops, isHttp), Path(operation));
    i := NameRulesHave(ops, isHttp, path, Walk(NameRules(ops, isHttp), Path(operation)).value);
  }

  lemma NameHasSlash(op: AppOperation, isHttp: bool)
    ensures Name(op, isHttp) != "" && Name(op, isHttp)[0] == '/'
  {
    if isHttp {
      Canonical.FirstSlash(WithSlash(op.operation));
    }
  }

  /** Operations that start with a slash are told apart by their segments. */
  lemma SameSegments(a: string, b: string)
    requires a != "" && a[0] == '/' && b != "" && b[0] == '/' && Path(a) == Path(b)
    ensures a == b
  {
    var s, t := Split(a, '/'), Split(b, '/');
    assert s[0] == "" && t[0] == "";
    assert |s| == |Path(a)| + 1 && |t| == |Path(b)| + 1;
    forall i | 1 <= i < |s| ensures s[i] == t[i] {
      assert s[i] == Path(a)[i - 1][1..] && t[i] == Path(b)[i - 1][1..];
    }
    assert s == t;
  }

  /** The rules are those of the declared operations. */
  lemma {:induction false} RuleOfOperation(ops: seq<AppOperation>, isHttp: bool, path: seq<string>, data: Option<string>)
    returns (i: nat)
    requires In(NameRules(ops, isHttp), path, data)
    ensures i < |ops| && path == Path(Name(ops[i], isHttp)) && data == Some(Name(ops[i], isHttp))
  {
    var last := |ops| - 1;
    if In(NameRules(ops[..last], isHttp), path, data) {
      i := RuleOfOperation(ops[..last], isHttp, path, data);
    } else {
      i := last;
    }
  }

  lemma {:induction false} OperationHasRule(ops: seq<AppOperation>, isHttp: bool, i: nat)
    requires i < |ops|
    ensures In(NameRules(ops, isHttp), Path(Name(ops[i], isHttp)), Some(Name(ops[i], isHttp)))
  {
    if i < |ops| - 1 {
      OperationHasRule(ops[..|ops| - 1], isHttp, i);
    }
  }

  lemma OneNameToAPath(ops: seq<AppOperation>, isHttp: bool)
    ensures OneAnswer(NameRules(ops, isHttp))
  {
    var rules := NameRules(ops, isHttp);
    forall p, d, e | In(rules, p, Some(d)) && In(rules, p, Some(e)) ensures d == e {
      var i := RuleOfOperation(ops, isHttp, p, Some(d));
      var j := RuleOfOperation(ops, isHttp, p, Some(e));
      NameHasSlash(ops[i], isHttp);
      NameHasSlash(ops[j], isHttp);
      SameSegments(d, e);
    }
  }

  lemma SomeRules(ops: seq<AppOperation>, others: seq<AppOperation>, isHttp: bool, p: seq<string>, data: Option<string>)
    requires multiset(others) == multiset(ops) && In(NameRules(ops, isHttp), p, data)
    ensures In(NameRules(others, isHttp), p, data)
  {
    var i := RuleOfOperation(ops, isHttp, p, data);
    assert ops[i] in multiset(ops) && ops[i] in multiset(others);
    var j :| 0 <= j < |others| && others[j] == ops[i];
    OperationHasRule(others, isHttp, j);
  }

  lemma PermutedRules(ops: seq<AppOperation>, others: seq<AppOperation>, isHttp: bool)
    requires multiset(others) == multiset(ops)
    ensures SamePuts(NameRules(ops, isHttp), NameRules(others, isHttp))
  {
    forall p, data ensures In(NameRules(ops, isHttp), p, data) <==> In(NameRules(others, isHttp), p, data) {
      if In(NameRules(ops, isHttp), p, data) {
        SomeRules(ops, others, isHttp, p, data);
      }
      if In(NameRules(others, isHttp), p, data) {
        SomeRules(others, ops, isHttp, p, data);
      }
    }
  }

  lemma NameRulesSnoc(ops: seq<AppOperation>, op: AppOperation, isHttp: bool)
    ensures NameRules(ops + [op], isHttp) == Put(NameRules(ops, isHttp), Path(Name(op, isHttp)), Some(Name(op, isHttp)))
  {
    SnocFront(ops, op);
  }

  lemma {:induction false} RulesOfFront(op: AppOperation, rest: seq<AppOperation>, isHttp: bool)
    ensures NameRules([op] + rest, isHttp) == First(Path(Name(op, isHttp)), Some(Name(op, isHttp)), NameRules(rest, isHttp))
  {
    if rest == [] {
      NameRulesSnoc([], op, isHttp);
      assert [op] + rest == [] + [op];
    } else {
      var front, last := rest[..|rest| - 1], rest[|rest| - 1];
      RulesOfFront(op, front, isHttp);
      ConsSnoc(op, rest);
      NameRulesSnoc([op] + front, last, isHttp);
      NameRulesSnoc(front, last, isHttp);
    }
  }

  /** The operations with the one at `i` moved to the front. */
  function ToFront(ops: seq<AppOperation>, i: nat): (others: seq<AppOperation>)
    requires i < |ops|
    ensures multiset(others) == multiset(ops)
  {
    assert ops == ops[..i] + ([ops[i]] + ops[i + 1..]);
    [ops[i]] + (ops[..i] + ops[i + 1..])
  }

  /** For every name that some choice leads to, some order of the operations gives it. */
  lemma OrderForAnswer(ops: seq<AppOperation>, isHttp: bool, segments: seq<string>, v: Option<string>)
    returns (others: seq<AppOperation>)
    requires CanAnswer(NameRules(ops, isHttp), segments, v)
    ensures multiset(others) == multiset(ops) && Walk(NameRules(others, isHttp), segments) == v
  {
    if ops == [] {
      NothingStarts(segments, v);
      return ops;
    }
    OneNameToAPath(ops, isHttp);
    var path, data := Steer(NameRules(ops, isHttp), segments, v);
    var i := RuleOfOperation(ops, isHttp, path, data);
    others := ToFront(ops, i);
    RulesOfFront(ops[i], ops[..i] + ops[i + 1..], isHttp);
    PermutedRules(ops, others, isHttp);
  }

  /** Every order of the operations gives a name that some choice leads to. */
  lemma OrderIsAChoice(ops: seq<AppOperation>, others: seq<AppOperation>, isHttp: bool, segments: seq<string>)
    requires multiset(others) == multiset(ops)
    ensures CanAnswer(NameRules(ops, isHttp), segments, Walk(NameRules(others, isHttp), segments))
  {
    OneNameToAPath(ops, isHttp);
    PermutedRules(ops, others, isHttp);
    WalkCanAnswer(NameRules(ops, isHttp), NameRules(others, isHttp), segments);
  }

  /** All orders of the operations match a request alike. */
  ghost predicate AnyOrder(ops: seq<AppOperation>, isHttp: bool, segments: seq<string>)
  {
    forall others | multiset(others) == multiset(ops) ::
      Walk(NameRules(others, isHttp), segments) == Walk(NameRules(ops, isHttp), segments)
  }

  lemma ChoiceIsAnOrder(ops: seq<AppOperation>, isHttp: bool, segments: seq<string>, v: Option<string>)
    requires AnyOrder(ops, isHttp, segments) && CanAnswer(NameRules(ops, isHttp), segments, v)
    ensures v == Walk(NameRules(ops, isHttp), segments)
  {
    var others := OrderForAnswer(ops, isHttp, segments, v);
  }

  lemma AnyOrderOneChoice(ops: seq<AppOperation>, isHttp: bool, segments: seq<string>)
    requires AnyOrder(ops, isHttp, segments)
    ensures OneChoice(NameRules(ops, isHttp), segments)
  {
    forall v | CanAnswer(NameRules(ops, isHttp), segments, v) ensures v == Walk(NameRules(ops, isHttp), segments) {
      ChoiceIsAnOrder(ops, isHttp, segments, v);
    }
  }

  lemma OneChoiceAnyOrder(ops: seq<AppOperation>, isHttp: bool, segments: seq<string>)
    requires OneChoice(NameRules(ops, isHttp), segments)
    ensures AnyOrder(ops, isHttp, segments)
  {
    forall others | multiset(others) == multiset(ops)
      ensures Walk(NameRules(others, isHttp), segments) == Walk(NameRules(ops, isHttp), segments)
    {
      OrderIsAChoice(ops, others, isHttp, segments);
    }
  }

  /** The order of the declared operations does not matter to a request, if and only if all ways of choosing among
      answering segments lead to one name. */
  lemma DeclaredOrder(ops: seq<AppOperation>, isHttp: bool, operation: string)
    ensures AnyOrder(ops, isHttp, Path(operation)) <==> OneChoice(NameRules(ops, isHttp), Path(operation))
  {
    if AnyOrder(ops, isHttp, Path(operation)) {
      AnyOrderOneChoice(ops, isHttp, Path(operation));
    } else if OneChoice(NameRules(ops, isHttp), Path(operation)) {
      OneChoiceAnyOrder(ops, isHttp, Path(operation));
    }
  }

  /** Whether the actions declared for a matched name let a request through; `verb` is None for a request
      without an HTTP verb. */
  predicate NameAllows(policy: AppPolicy, isHttp: bool, name: string, verb: Option<string>, fallback: bool)
  {
    var ops := policy.operations;
    if !isHttp then MergedAllows(Actions(ops, isHttp, name))
    else if verb.None? then IsActionAllowed(policy.defaultAction)
    else if VerbActions(ops, isHttp, name, verb.value) != [] then
      MergedAllows(VerbActions(ops, isHttp, name, verb.value))
    else if VerbActions(ops, isHttp, name, ANY_VERB) != [] then
      MergedAllows(VerbActions(ops, isHttp, name, ANY_VERB))
    else fallback
  }

  /** Whether a policy lets one operation through: by the name that the walk over the declared ones
      answers with, or else by the fallback. */
  ghost predicate RuleAllows(policy: AppPolicy, isHttp: bool, operation: string, verb: Option<string>, fallback: bool)
  {
    match Walk(NameRules(policy.operations, isHttp), Path(operation))
    case None => fallback
    case Some(name) => NameAllows(policy, isHttp, name, verb, fallback)
  }

  /** The decision once the policy of the caller is known. */
  ghost function DecideBy(policy: AppPolicy, globalAction: string, isHttp: bool, operation: string,
                          verb: Option<string>): (d: Decision)
  {
    var byApp := policy.defaultAction != "";
    var fallback := IsActionAllowed(if byApp then policy.defaultAction else globalAction);
    var tag := if byApp then ACTION_POLICY_APP else ACTION_POLICY_GLOBAL;
    if isHttp then
      var r := Canonical.Read(WithSlash(operation));
      Decision(&& r.ok
               && RuleAllows(policy, isHttp, r.stripped, verb, fallback)
               && RuleAllows(policy, isHttp, r.decoded, verb, fallback), tag)
    else
      Decision(RuleAllows(policy, isHttp, WithSlash(operation), verb, fallback), tag)
  }

  // ----- the decision of a policy, by the operations that it declares -----

  /** The operation at `i` is filed under the name. */
  ghost predicate DeclaredAs(ops: seq<AppOperation>, isHttp: bool, name: string, i: int)
  {
    0 <= i < |ops| && Name(ops[i], isHttp) == name
  }

  /** Some operation of that name lists the verb. */
  ghost predicate Declares(ops: seq<AppOperation>, name: string, verb: string)
  {
    exists i :: DeclaredAs(ops, true, name, i) && verb in ops[i].httpVerbs
  }

  /** Every operation of that name that lists the verb allows. */
  ghost predicate AllAllow(ops: seq<AppOperation>, name: string, verb: string)
  {
    forall i :: DeclaredAs(ops, true, name, i) && verb in ops[i].httpVerbs ==> ToLower(ops[i].action) == "allow"
  }

  lemma {:induction false} VerbActionsOf(ops: seq<AppOperation>, isHttp: bool, name: string, verb: string, a: string)
    ensures a in VerbActions(ops, isHttp, name, verb) <==>
            exists i :: DeclaredAs(ops, isHttp, name, i) && verb in ops[i].httpVerbs && ops[i].action == a
  {
    if ops != [] {
      var front, last := ops[..|ops| - 1], |ops| - 1;
      VerbActionsOf(front, isHttp, name, verb, a);
      if i :| DeclaredAs(front, isHttp, name, i) && verb in front[i].httpVerbs && front[i].action == a {
        assert DeclaredAs(ops, isHttp, name, i) && verb in ops[i].httpVerbs && ops[i].action == a;
      }
      if i :| DeclaredAs(ops, isHttp, name, i) && verb in ops[i].httpVerbs && ops[i].action == a && i != last {
        assert DeclaredAs(front, isHttp, name, i) && verb in front[i].httpVerbs && front[i].action == a;
      }
      assert Name(ops[last], isHttp) == name ==> DeclaredAs(ops, isHttp, name, last);
    }
  }

  lemma {:induction false} ActionsOf(ops: seq<AppOperation>, isHttp: bool, name: string, a: string)
    ensures a in Actions(ops, isHttp, name) <==> exists i :: DeclaredAs(ops, isHttp, name, i) && ops[i].action == a
  {
    if ops != [] {
      var front, last := ops[..|ops| - 1], |ops| - 1;
      ActionsOf(front, isHttp, name, a);
      if i :| DeclaredAs(front, isHttp, name, i) && front[i].action == a {
        assert DeclaredAs(ops, isHttp, name, i) && ops[i].action == a;
      }
      if i :| DeclaredAs(ops, isHttp, name, i) && ops[i].action == a && i != last {
        assert DeclaredAs(front, isHttp, name, i) && front[i].action == a;
      }
      assert Name(ops[last], isHttp) == name ==> DeclaredAs(ops, isHttp, name, last);
    }
  }

  /** No declared action is empty. */
  ghost predicate AllNamed(ops: seq<AppOperation>)
  {
    forall i :: 0 <= i < |ops| ==> ops[i].action != ""
  }

  lemma MergedIsAll(actions: seq<string>)
    requires "" !in actions && actions != []
    ensures MergedAllows(actions) <==> forall a <- actions :: ToLower(a) == "allow"
  {
    assert actions[|actions| - 1] in actions;
  }

  lemma MergedVerb(ops: seq<AppOperation>, name: string, verb: string)
    requires AllNamed(ops)
    ensures VerbActions(ops, true, name, verb) != [] <==> Declares(ops, name, verb)
    ensures Declares(ops, name, verb) ==> (MergedAllows(VerbActions(ops, true, name, verb)) <==> AllAllow(ops, name, verb))
  {
    var actions := VerbActions(ops, true, name, verb);
    if actions != [] {
      VerbActionsOf(ops, true, name, verb, actions[0]);
      VerbActionsOf(ops, true, name, verb, "");
      MergedIsAll(actions);
      if AllAllow(ops, name, verb) {
        forall a <- actions ensures ToLower(a) == "allow" {
          VerbActionsOf(ops, true, name, verb, a);
        }
      }
    }
    forall i | DeclaredAs(ops, true, name, i) && verb in ops[i].httpVerbs ensures ops[i].action in actions {
      VerbActionsOf(ops, true, name, verb, ops[i].action);
    }
  }

  /** What applies when nothing declared does: the policy's own default action if it has one, else the global one. */
  predicate Unmatched(policy: AppPolicy, globalAction: string)
  {
    ToLower(if policy.defaultAction != "" then policy.defaultAction else globalAction) == "allow"
  }

  /** One form of a request with a verb: by the operations of the matched name that list the verb; if none does, by those
      that list the wildcard verb; if none does or no name matches, by what applies to unmatched requests. */
  ghost predicate FormAllowed(policy: AppPolicy, globalAction: string, form: string, verb: string)
  {
    match Walk(NameRules(policy.operations, true), Path(form))
    case None => Unmatched(policy, globalAction)
    case Some(name) =>
      if Declares(policy.operations, name, verb) then AllAllow(policy.operations, name, verb)
      else if Declares(policy.operations, name, "*") then AllAllow(policy.operations, name, "*")
      else Unmatched(policy, globalAction)
  }

  lemma FormDecision(policy: AppPolicy, globalAction: string, form: string, verb: string)
    requires AllNamed(policy.operations)
    ensures RuleAllows(policy, true, form, Some(verb), Unmatched(policy, globalAction)) <==>
            FormAllowed(policy, globalAction, form, verb)
  {
    match Walk(NameRules(policy.operations, true), Path(form))
    case None =>
    case Some(name) =>
      MergedVerb(policy.operations, name, verb);
      MergedVerb(policy.operations, name, "*");
  }

  /** The decision for a request with a verb: it is accepted as written, and allowed both without and with its
      parameters. It is credited to the app exactly when the policy has a default action of its own. */
  lemma HttpDecision(policy: AppPolicy, globalAction: string, operation: string, verb: string)
    requires AllNamed(policy.operations)
    ensures var r := Canonical.Read(WithSlash(operation));
            DecideBy(policy, globalAction, true, operation, Some(verb)) ==
            Decision(r.ok && FormAllowed(policy, globalAction, r.stripped, verb)
                     && FormAllowed(policy, globalAction, r.decoded, verb),
                     if policy.defaultAction != "" then "app" else "global")
  {
    var r := Canonical.Read(WithSlash(operation));
    FormDecision(policy, globalAction, r.stripped, verb);
    FormDecision(policy, globalAction, r.decoded, verb);
  }

  /** The decision for a gRPC app: all operations of the matched name must allow, whatever verbs they list. */
  lemma GrpcDecision(policy: AppPolicy, globalAction: string, operation: string, verb: Option<string>)
    requires AllNamed(policy.operations)
    ensures DecideBy(policy, globalAction, false, operation, verb).allowed <==>
            match Walk(NameRules(policy.operations, false), Path(WithSlash(operation)))
            case None => Unmatched(policy, globalAction)
            case Some(name) =>
              forall i :: DeclaredAs(policy.operations, false, name, i) ==> ToLower(policy.operations[i].action) == "allow"
  {
    var ops, walk := policy.operations, Walk(NameRules(policy.operations, false), Path(WithSlash(operation)));
    if walk.Some? {
      var i := MatchIsSound(ops, false, WithSlash(operation));
      var actions := Actions(ops, false, walk.value);
      forall j | DeclaredAs(ops, false, walk.value, j) ensures ops[j].action in actions {
        ActionsOf(ops, false, walk.value, ops[j].action);
      }
      assert DeclaredAs(ops, false, walk.value, i);
      ActionsOf(ops, false, walk.value, "");
      MergedIsAll(actions);
      forall a <- actions ensures exists j :: DeclaredAs(ops, false, walk.value, j) && ops[j].action == a {
        ActionsOf(ops, false, walk.value, a);
      }
    }
  }

  /** The name of an HTTP operation has no parameters, and is the operation in lower case if it has neither parameters nor
      escapes. */
  lemma PlainName(op: AppOperation)
    ensures ';' !in Name(op, true)
    ensures '%' !in op.operation && ';' !in op.operation ==> Name(op, true) == ToLower(WithSlash(op.operation))
  {
    var operation := WithSlash(op.operation);
    Canonical.ReadKeepsStructure(operation);
    if '%' !in op.operation && ';' !in op.operation {
      assert '%' !in operation && ';' !in operation;
      Canonical.EscapeOfSelf(operation);
      Canonical.EscapeDecodes(operation, operation);
      NothingToCut(operation);
    }
  }

  lemma NothingToCut(s: string)
    requires ';' !in s
    ensures Join(Canonical.CutAll(Split(s, '/')), "/") == s
  {
    var parts := Split(s, '/');
    forall i | 0 <= i < |parts| ensures Canonical.CutParameters(parts[i]) == parts[i] {
      if ';' in parts[i] {
        RulePaths.JoinHolds(parts, "/", parts[i], ';');
      }
    }
    assert Canonical.CutAll(parts) == parts;
  }

  // ----- requests without a verb -----

  /** An HTTP request without a verb that matches a rule is decided by the policy's own default action, not by the
      fallback; the two agree exactly when the policy has a default action or the global action refuses. */
  lemma NoVerbAgreesWithFallback(policy: AppPolicy, globalAction: string, name: string)
    ensures NameAllows(policy, true, name, None, Unmatched(policy, globalAction)) == Unmatched(policy, globalAction) <==>
            policy.defaultAction != "" || ToLower(globalAction) != "allow"
  {
    assert ToLower("") == "" != ALLOW;
  }

  /** So under a policy without a default action and a global action that allows, a request without a verb is let
      through exactly when no rule matches it, whatever the rules say. */
  lemma NoVerbDecision(policy: AppPolicy, globalAction: string, operation: string)
    requires policy.defaultAction == "" && IsActionAllowed(globalAction)
    ensures var r, rules := Canonical.Read(WithSlash(operation)), NameRules(policy.operations, true);
            DecideBy(policy, globalAction, true, operation, None) ==
            Decision(r.ok && Walk(rules, Path(r.stripped)).None? && Walk(rules, Path(r.decoded)).None?,
                     ACTION_POLICY_GLOBAL)
  {
    assert ToLower("") == "" != ALLOW;
  }

  lemma OneLetter(c: char)
    requires 'a' <= c <= 'z'
    ensures Path(['/', c]) == [['/', c]]
    ensures Canonical.Read(['/', c]) == Canonical.Reading(['/', c], ['/', c], true)
  {
    var s := ['/', c];
    assert [c][1..] == "" && s[1..] == [c];
    SplitFirst("", [c], '/');
    SplitNone([c], '/');
    assert "" + ['/'] + [c] == s;
    assert Split(s, '/') == ["", [c]];
    assert "/" + [c] == s;
    assert Path(s) == [s];
    assert Canonical.Decode("") == Some("") && Canonical.Decode([c]) == Some([c] + "") && [c] + "" == [c];
    assert Canonical.Decode(s) == Some(['/'] + [c]) && ['/'] + [c] == s;
    assert Canonical.CutParameters([c]) == [c] && Canonical.CutParameters("") == "";
    assert Canonical.CutAll(["", [c]]) == ["", [c]];
    assert ["", [c]][1..] == [[c]];
    assert Join(["", [c]], "/") == s;
    assert ToLower(s) == s;
  }

  lemma AllowAllows()
    ensures IsActionAllowed(ALLOW)
  {
    assert ToLower(ALLOW) == ALLOW;
  }

  lemma OneNameRule(op: AppOperation)
    requires op.operation == "/a"
    ensures NameRules([op], true) == Put(NoRules, ["/a"], Some("/a"))
  {
    OneLetter('a');
    assert "/a" == ['/', 'a'];
    assert [op][..0] == [];
  }

  /** A rule that allows an operation refuses it to requests without a verb. */
  lemma AllowedRuleRefuses(policy: AppPolicy)
    requires policy.defaultAction == "" && policy.operations == [AppOperation("/a", ["GET"], ALLOW)]
    ensures DecideBy(policy, ALLOW, true, "/a", None) == Decision(false, ACTION_POLICY_GLOBAL)
  {
    OneRule();
    OneNameRule(policy.operations[0]);
    AllowAllows();
    OneLetter('a');
    assert "/a" == ['/', 'a'];
    NoVerbDecision(policy, ALLOW, "/a");
  }

  /** ... while they get any other operation. */
  lemma OtherOperationAllowed(policy: AppPolicy)
    requires policy.defaultAction == "" && policy.operations == [AppOperation("/a", ["GET"], ALLOW)]
    ensures DecideBy(policy, ALLOW, true, "/b", None) == Decision(true, ACTION_POLICY_GLOBAL)
  {
    OneRule();
    OneNameRule(policy.operations[0]);
    AllowAllows();
    OneLetter('b');
    assert "/b" == ['/', 'b'];
    NoVerbDecision(policy, ALLOW, "/b");
  }

  lemma OneRule()
    ensures Walk(Put(NoRules, ["/a"], Some("/a")), ["/a"]) == Some("/a")
    ensures Walk(Put(NoRules, ["/a"], Some("/a")), ["/b"]) == None
  {
    var rules := Put(NoRules, ["/a"], Some("/a"));
    assert FirstHead(rules, "/a", true) == Some("/a");
    assert ["/a"] <= ["/a"] && ["/a"][1..] == [] && At(rules, ["/a"]) == Put(NoRules, [], Some("/a"));
    Glob.LiteralMatch("/b", "/a");
    assert "/a"[1] != '*' && "/a"[1] != "/b"[1];
    assert FirstHead(rules, "/b", true) == None;
  }

  // ----- the whole spec -----

  function Policies(spec: Spec): (policies: seq<AppPolicy>)
  {
    if spec.policies.Some? then spec.policies.value else []
  }

  function GlobalAction(spec: Spec): (action: string)
  {
    if spec.defaultAction != "" then ToLower(spec.defaultAction)
    else if spec.policies == Some([]) then ALLOW
    else DENY
  }

  predicate Complete(policy: AppPolicy)
  {
    policy.appName != "" && policy.trustDomain != "" && policy.namespace != ""
  }

  /** The last policy written for an app in a namespace. */
  function PolicyFor(policies: seq<AppPolicy>, appId: string, namespace: string): (policy: Option<AppPolicy>)
  {
    if policies == [] then None
    else
      var last := policies[|policies| - 1];
      if last.appName == appId && last.namespace == namespace then Some(last)
      else PolicyFor(policies[..|policies| - 1], appId, namespace)
  }

  /** The decision for a caller, None if its identity is unknown. */
  ghost function Decide(spec: Spec, isHttp: bool, caller: Option<Caller>, operation: string, verb: Option<string>):
    (d: Decision)
  {
    var global := Decision(IsActionAllowed(GlobalAction(spec)), ACTION_POLICY_GLOBAL);
    if caller.None? then global
    else
      var policy := PolicyFor(Policies(spec), caller.value.appId, caller.value.namespace);
      if policy.None? || policy.value.trustDomain != caller.value.trustDomain then global
      else DecideBy(policy.value, GlobalAction(spec), isHttp, operation, verb)
  }

  /** The policy at `i` is the last one written for the app in the namespace. */
  ghost predicate LastWritten(policies: seq<AppPolicy>, appId: string, namespace: string, i: int)
  {
    && 0 <= i < |policies| && policies[i].appName == appId && policies[i].namespace == namespace
    && forall j :: i < j < |policies| ==> !(policies[j].appName == appId && policies[j].namespace == namespace)
  }

  lemma {:induction false} PolicyForIsLast(policies: seq<AppPolicy>, appId: string, namespace: string, i: int)
    ensures LastWritten(policies, appId, namespace, i) ==> PolicyFor(policies, appId, namespace) == Some(policies[i])
    ensures (forall p <- policies :: !(p.appName == appId && p.namespace == namespace)) ==>
              PolicyFor(policies, appId, namespace) == None
  {
    if policies != [] {
      var front := policies[..|policies| - 1];
      PolicyForIsLast(front, appId, namespace, i);
      if LastWritten(policies, appId, namespace, i) && i < |front| {
        assert !(policies[|front|].appName == appId && policies[|front|].namespace == namespace);
        assert LastWritten(front, appId, namespace, i);
      }
      assert policies[|front|] in policies && forall p <- front :: p in policies;
    }
  }

  /** The policy that decides about a caller, by its place in the spec: the last one for its app and namespace, if that one
      names its trust domain. */
  ghost predicate DecidesAbout(spec: Spec, caller: Option<Caller>, i: int)
  {
    && caller.Some? && spec.policies.Some?
    && LastWritten(spec.policies.value, caller.value.appId, caller.value.namespace, i)
    && spec.policies.value[i].trustDomain == caller.value.trustDomain
  }

  /** The default of a spec: its own, if it has one; otherwise a spec with an empty list of policies allows and every other
      one denies. */
  predicate DefaultAllows(spec: Spec)
  {
    ToLower(spec.defaultAction) == "allow" || (spec.defaultAction == "" && spec.policies == Some([]))
  }

  lemma LowerTwice(s: string)
    ensures ToLower(ToLower(s)) == ToLower(s)
  {
  }

  lemma GlobalDefault(spec: Spec)
    ensures ToLower(GlobalAction(spec)) == "allow" <==> DefaultAllows(spec)
  {
    LowerTwice(spec.defaultAction);
    assert ToLower("allow") == "allow" && ToLower("deny")[0] == 'd' && ToLower("") == "";
  }

  lemma {:induction false} SomeLast(policies: seq<AppPolicy>, appId: string, namespace: string)
    ensures PolicyFor(policies, appId, namespace).Some? ==> exists i :: LastWritten(policies, appId, namespace, i)
  {
    if policies != [] {
      var front, last := policies[..|policies| - 1], |policies| - 1;
      SomeLast(front, appId, namespace);
      if policies[last].appName == appId && policies[last].namespace == namespace {
        assert LastWritten(policies, appId, namespace, last);
      } else if i :| LastWritten(front, appId, namespace, i) {
        assert LastWritten(policies, appId, namespace, i);
      }
    }
  }

  /** Whom no policy is about gets the default of the spec: a caller without an identity, one for whom none is written, and
      one whose last one names another trust domain. */
  lemma DefaultDecision(spec: Spec, isHttp: bool, caller: Option<Caller>, operation: string, verb: Option<string>)
    requires forall i :: !DecidesAbout(spec, caller, i)
    ensures Decide(spec, isHttp, caller, operation, verb) == Decision(DefaultAllows(spec), "global")
  {
    GlobalDefault(spec);
    if caller.Some? {
      var c, policies := caller.value, Policies(spec);
      SomeLast(policies, c.appId, c.namespace);
      if i :| LastWritten(policies, c.appId, c.namespace, i) {
        PolicyForIsLast(policies, c.appId, c.namespace, i);
        assert !DecidesAbout(spec, caller, i);
      }
    }
  }

  /** Everyone else is decided about by that policy, with the default of the spec behind it. */
  lemma PolicyDecision(spec: Spec, isHttp: bool, caller: Option<Caller>, operation: string, verb: Option<string>, i: int)
    requires DecidesAbout(spec, caller, i)
    ensures Decide(spec, isHttp, caller, operation, verb) ==
            DecideBy(spec.policies.value[i], if DefaultAllows(spec) then "allow" else "deny", isHttp, operation, verb)
  {
    PolicyForIsLast(spec.policies.value, caller.value.appId, caller.value.namespace, i);
    GlobalDefault(spec);
    assert ToLower("allow") == "allow" && ToLower("deny")[0] == 'd';
    SameDefault(spec.policies.value[i], GlobalAction(spec), if DefaultAllows(spec) then "allow" else "deny", isHttp,
                operation, verb);
  }

  lemma SameDefault(policy: AppPolicy, a: string, b: string, isHttp: bool, operation: string, verb: Option<string>)
    requires IsActionAllowed(a) == IsActionAllowed(b)
    ensures DecideBy(policy, a, isHttp, operation, verb) == DecideBy(policy, b, isHttp, operation, verb)
  {
  }

  /** For HTTP apps, neither writing characters other than "/" and "*" as escapes nor changing the
      case of letters can change a decision. */
  lemma SpellingDoesNotDecide(spec: Spec, caller: Option<Caller>, verb: Option<string>,
                              escaped: string, plain: string, other: string)
    requires Canonical.EscapeOf(escaped, plain) && '%' !in plain && '%' !in other
    requires ToLower(plain) == ToLower(other)
    ensures Decide(spec, true, caller, escaped, verb) == Decide(spec, true, caller, other, verb)
  {
    SlashesAgree(escaped, plain, other);
    Canonical.SpellingsReadAlike(WithSlash(escaped), WithSlash(plain), WithSlash(other));
  }

  lemma SlashesAgree(escaped: string, plain: string, other: string)
    requires Canonical.EscapeOf(escaped, plain) && '%' !in plain && '%' !in other
    requires ToLower(plain) == ToLower(other)
    ensures Canonical.EscapeOf(WithSlash(escaped), WithSlash(plain))
    ensures ToLower(WithSlash(plain)) == ToLower(WithSlash(other))
    ensures '%' !in WithSlash(plain) && '%' !in WithSlash(other)
  {
    if plain != "" {
      assert LowerChar(plain[0]) == ToLower(plain)[0] == ToLower(other)[0] == LowerChar(other[0]);
      assert plain[0] == '/' <==> other[0] == '/';
      assert "/*"[0] == '/';
      assert escaped[0] == '/' <==> plain[0] == '/';
    } else {
      assert other == "";
    }
    assert ("/" + escaped)[1..] == escaped && ("/" + plain)[1..] == plain;
    LowerConcat("/", plain);
    LowerConcat("/", other);
  }
}
