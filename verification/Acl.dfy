/**
 The compiled access-control list: one trie and one set of shared, mutable entries per app policy,
 filed under a key made of the app id and the namespace. Parsing builds it and decisions read it;
 both are proved against module AclSpec.
 */
module Acl {
  import opened Text
  import opened RuleList
  import opened RuleLaws
  import opened AclTrie
  import opened AclSpec
  import Canonical
  import Spiffe

  /** `AccessControlListOperationAction`: one entry per operation name, filled in as rules are read. */
  class Entry {
    const operationName: string
    var verbAction: map<string, string>
    var operationAction: string

    constructor (name: string)
      ensures operationName == name && verbAction == map[] && operationAction == ""
    {
      operationName, verbAction, operationAction := name, map[], "";
    }

    /** What the declared operations say about this entry's name. */
    ghost predicate Reflects(ops: seq<AppOperation>, isHttp: bool)
      reads this
    {
      && operationAction == MergeAll(Actions(ops, isHttp, operationName))
      && forall verb :: VerbReflects(verbAction, ops, isHttp, operationName, verb)
    }

    /** Merges one more declared operation into the entry. */
    method Merge(ghost ops: seq<AppOperation>, op: AppOperation, isHttp: bool)
      requires Name(op, isHttp) == operationName && Reflects(ops, isHttp)
      modifies this
      ensures Reflects(ops + [op], isHttp)
    {
      MergeVerbs(op);
      operationAction := MergeAction(operationAction, op.action);
      ActionsSnoc(ops, op, isHttp);
      MergeSnoc(Actions(ops, isHttp, operationName), op.action);
      forall verb
        ensures VerbReflects(verbAction, ops + [op], isHttp, operationName, verb)
      {
        assert VerbReflects(old(verbAction), ops, isHttp, operationName, verb);
        VerbMerged(ops, op, isHttp, verb, old(verbAction), verbAction);
      }
    }

    /** An entry is untouched by operations filed under another name. */
    lemma Untouched(ops: seq<AppOperation>, op: AppOperation, isHttp: bool)
      requires Reflects(ops, isHttp) && Name(op, isHttp) != operationName
      ensures Reflects(ops + [op], isHttp)
    {
      OtherName(ops, op, isHttp, operationName);
      forall verb
        ensures VerbReflects(verbAction, ops + [op], isHttp, operationName, verb)
      {
        assert VerbReflects(verbAction, ops, isHttp, operationName, verb);
      }
    }

    /** The loop over the verbs of an operation: its action is merged into each of them. */
    method MergeVerbs(op: AppOperation)
      modifies this`verbAction
      ensures forall verb :: verb in verbAction <==> verb in op.httpVerbs || verb in old(verbAction)
      ensures forall verb :: verb in verbAction ==>
                verbAction[verb] == if verb in op.httpVerbs then MergeAction(Lookup(old(verbAction), verb), op.action)
                                    else old(verbAction)[verb]
    {
      var i := 0;
      while i < |op.httpVerbs|
        invariant 0 <= i <= |op.httpVerbs|
        invariant forall verb :: verb in verbAction <==> verb in op.httpVerbs[..i] || verb in old(verbAction)
        invariant forall verb :: verb in verbAction ==>
                    verbAction[verb] ==
                    if verb in op.httpVerbs[..i] then MergeAction(Lookup(old(verbAction), verb), op.action)
                    else old(verbAction)[verb]
      {
        var verb := op.httpVerbs[i];
        verbAction := verbAction[verb := MergeAction(Lookup(verbAction, verb), op.action)];
        TakeNext(op.httpVerbs, i);
        i := i + 1;
      }
      TakeAll(op.httpVerbs);
    }
  }

  /** A verb has an action exactly when one is declared for it, and it is the merged one. */
  ghost predicate VerbReflects(verbAction: map<string, string>, ops: seq<AppOperation>, isHttp: bool, name: string,
                               verb: string)
  {
    && (verb in verbAction <==> VerbActions(ops, isHttp, name, verb) != [])
    && (verb in verbAction ==> verbAction[verb] == MergeAll(VerbActions(ops, isHttp, name, verb)))
  }

  lemma ActionsSnoc(ops: seq<AppOperation>, op: AppOperation, isHttp: bool)
    ensures Actions(ops + [op], isHttp, Name(op, isHttp)) == Actions(ops, isHttp, Name(op, isHttp)) + [op.action]
    ensures forall verb :: VerbActions(ops + [op], isHttp, Name(op, isHttp), verb) ==
                           VerbActions(ops, isHttp, Name(op, isHttp), verb)
                           + if verb in op.httpVerbs then [op.action] else []
  {
    SnocFront(ops, op);
  }

  /** One verb before and after an operation was merged into its name. */
  lemma VerbMerged(ops: seq<AppOperation>, op: AppOperation, isHttp: bool, verb: string, before: map<string, string>,
                   after: map<string, string>)
    requires VerbReflects(before, ops, isHttp, Name(op, isHttp), verb)
    requires verb in after <==> verb in op.httpVerbs || verb in before
    requires verb in after ==>
               after[verb] == if verb in op.httpVerbs then MergeAction(Lookup(before, verb), op.action) else before[verb]
    ensures VerbReflects(after, ops + [op], isHttp, Name(op, isHttp), verb)
  {
    ActionsSnoc(ops, op, isHttp);
    MergeSnoc(VerbActions(ops, isHttp, Name(op, isHttp), verb), op.action);
  }

  /** Reading a Go map: a missing key gives the empty string. */
  function Lookup(m: map<string, string>, key: string): (value: string)
  {
    if key in m then m[key] else ""
  }

  lemma MergeSnoc(actions: seq<string>, action: string)
    ensures MergeAll(actions + [action]) == MergeAction(MergeAll(actions), action)
    ensures actions + [] == actions
  {
    assert (actions + [action])[..|actions|] == actions;
  }

  lemma OtherName(ops: seq<AppOperation>, op: AppOperation, isHttp: bool, name: string)
    requires Name(op, isHttp) != name
    ensures Actions(ops + [op], isHttp, name) == Actions(ops, isHttp, name)
    ensures forall verb :: VerbActions(ops + [op], isHttp, name, verb) == VerbActions(ops, isHttp, name, verb)
  {
    SnocFront(ops, op);
  }

  ghost function Entries(rules: Rules<Entry>): (entries: set<Entry>)
  {
    match rules
    case NoRules => {}
    case Put(before, _, data) => Entries(before) + if data.Some? then {data.value} else {}
  }

  lemma EntriesAllocated(rules: Rules<Entry>)
    ensures forall e <- Entries(rules) :: allocated(e)
  {
    match rules
    case NoRules =>
    case Put(before, _, _) => EntriesAllocated(before);
  }

  function NameOf(e: Entry): (name: string) { e.operationName }

  /** The rules answer as the declared operations do: with entries that reflect them, under names that
      no walk can tell from the declared ones. */
  ghost predicate Means(rules: Rules<Entry>, ops: seq<AppOperation>, isHttp: bool)
    reads Entries(rules)
  {
    && (forall e <- Entries(rules) :: e.Reflects(ops, isHttp))
    && Same(Rename(rules, NameOf), NameRules(ops, isHttp))
  }

  /** The names of the operations. */
  ghost function Names(ops: seq<AppOperation>, isHttp: bool): (names: set<string>)
  {
    if ops == [] then {} else Names(ops[..|ops| - 1], isHttp) + {Name(ops[|ops| - 1], isHttp)}
  }

  lemma {:induction false} Named(ops: seq<AppOperation>, isHttp: bool, name: string)
    requires name in Names(ops, isHttp)
    ensures FirstPut(NameRules(ops, isHttp), Path(name)).Some?
  {
    if name in Names(ops[..|ops| - 1], isHttp) {
      Named(ops[..|ops| - 1], isHttp, name);
    }
  }

  lemma {:induction false} NotNamed(ops: seq<AppOperation>, isHttp: bool, name: string)
    requires name !in Names(ops, isHttp)
    ensures Actions(ops, isHttp, name) == [] && forall verb :: VerbActions(ops, isHttp, name, verb) == []
  {
    if ops != [] {
      NotNamed(ops[..|ops| - 1], isHttp, name);
    }
  }

  /** The table of entries by name that is used while compiling. */
  ghost predicate Tabled(rules: Rules<Entry>, entries: map<string, Entry>, ops: seq<AppOperation>, isHttp: bool)
  {
    && (forall name :: name in entries ==> entries[name] in Entries(rules) && entries[name].operationName == name)
    && (forall e <- Entries(rules) :: e.operationName in entries && entries[e.operationName] == e)
    && entries.Keys == Names(ops, isHttp)
  }

  /** The operations of one policy, compiled. */
  method CompilePolicy(ops: seq<AppOperation>, isHttp: bool) returns (trie: Trie<Entry>)
    ensures fresh(trie) && fresh(trie.nodes) && fresh(Entries(trie.rules))
    ensures trie.Valid() && Means(trie.rules, ops, isHttp)
  {
    trie := new Trie<Entry>();
    var entries: map<string, Entry> := map[];
    NothingYet(ops, isHttp);
    var i := 0;
    while i < |ops|
      invariant 0 <= i <= |ops|
      invariant fresh(trie) && fresh(trie.nodes) && fresh(Entries(trie.rules))
      invariant trie.Valid() && Means(trie.rules, ops[..i], isHttp)
      invariant Tabled(trie.rules, entries, ops[..i], isHttp)
    {
      entries := CompileNext(trie, entries, ops, i, isHttp);
      i := i + 1;
    }
    TakeAll(ops);
  }

  lemma NothingYet(ops: seq<AppOperation>, isHttp: bool)
    ensures Same(Rename<Entry, string>(NoRules, NameOf), NameRules(ops[..0], isHttp)) && Names(ops[..0], isHttp) == {}
  {
    TakeAll(ops);
  }

  method CompileNext(trie: Trie<Entry>, entries: map<string, Entry>, ops: seq<AppOperation>, i: nat, isHttp: bool)
    returns (more: map<string, Entry>)
    requires i < |ops|
    requires trie.Valid() && Means(trie.rules, ops[..i], isHttp) && Tabled(trie.rules, entries, ops[..i], isHttp)
    modifies trie, trie.nodes, Entries(trie.rules)
    ensures trie.Valid() && Means(trie.rules, ops[..i + 1], isHttp) && Tabled(trie.rules, more, ops[..i + 1], isHttp)
    ensures fresh(trie.nodes - old(trie.nodes)) && fresh(Entries(trie.rules) - old(Entries(trie.rules)))
  {
    TakeNext(ops, i);
    more := CompileOperation(trie, entries, ops[..i], ops[i], isHttp);
  }

  /** One declared operation: operations that resolve to the same name share one entry. */
  method CompileOperation(trie: Trie<Entry>, entries: map<string, Entry>, ghost ops: seq<AppOperation>,
                          op: AppOperation, isHttp: bool) returns (more: map<string, Entry>)
    requires trie.Valid() && Means(trie.rules, ops, isHttp) && Tabled(trie.rules, entries, ops, isHttp)
    modifies trie, trie.nodes, Entries(trie.rules)
    ensures trie.Valid() && Means(trie.rules, ops + [op], isHttp) && Tabled(trie.rules, more, ops + [op], isHttp)
    ensures fresh(trie.nodes - old(trie.nodes)) && fresh(Entries(trie.rules) - old(Entries(trie.rules)))
  {
    NameHasPath(op, isHttp);
    more := FileName(trie, entries, ops, op, isHttp);
    MergeNamed(trie, more, ops, op, isHttp);
  }

  /** The operation is merged into the entry of its name. */
  method MergeNamed(trie: Trie<Entry>, entries: map<string, Entry>, ghost ops: seq<AppOperation>, op: AppOperation,
                    isHttp: bool)
    requires trie.Valid() && Name(op, isHttp) in entries && Tabled(trie.rules, entries, ops + [op], isHttp)
    requires forall e <- Entries(trie.rules) :: e.Reflects(ops, isHttp)
    modifies Entries(trie.rules)
    ensures trie.Valid()
    ensures forall e <- Entries(trie.rules) :: e.Reflects(ops + [op], isHttp)
  {
    MergeEntry(entries[Name(op, isHttp)], Entries(trie.rules), ops, op, isHttp);
  }

  /** The entry of an operation's name, filed if no operation had that name before. */
  method FileName(trie: Trie<Entry>, entries: map<string, Entry>, ghost ops: seq<AppOperation>, op: AppOperation,
                  isHttp: bool) returns (more: map<string, Entry>)
    requires trie.Valid() && Means(trie.rules, ops, isHttp) && Tabled(trie.rules, entries, ops, isHttp)
    requires Path(Name(op, isHttp)) != []
    modifies trie, trie.nodes
    ensures trie.Valid() && fresh(trie.nodes - old(trie.nodes)) && fresh(Entries(trie.rules) - old(Entries(trie.rules)))
    ensures Name(op, isHttp) in more && Tabled(trie.rules, more, ops + [op], isHttp)
    ensures forall e <- Entries(trie.rules) :: e.Reflects(ops, isHttp)
    ensures Same(Rename(trie.rules, NameOf), NameRules(ops + [op], isHttp))
  {
    var name := Name(op, isHttp);
    if name in entries {
      SameName(trie.rules, entries, ops, op, isHttp);
      return entries;
    }
    NotNamed(ops, isHttp, name);
    var entry := FileEntry(trie, name, ops, isHttp);
    more := entries[name := entry];
    NewName(old(trie.rules), entries, entry, ops, op, isHttp);
  }

  /** A new, empty entry, put under its name. */
  method FileEntry(trie: Trie<Entry>, name: string, ghost ops: seq<AppOperation>, isHttp: bool) returns (entry: Entry)
    requires trie.Valid() && Path(name) != []
    requires forall e <- Entries(trie.rules) :: e.Reflects(ops, isHttp)
    requires Actions(ops, isHttp, name) == [] && forall verb :: VerbActions(ops, isHttp, name, verb) == []
    modifies trie, trie.nodes
    ensures trie.Valid() && fresh(trie.nodes - old(trie.nodes))
    ensures fresh(entry) && entry.operationName == name
    ensures trie.rules == Put(old(trie.rules), Path(name), Some(entry))
    ensures forall e <- Entries(trie.rules) :: e.Reflects(ops, isHttp)
  {
    EntriesAllocated(trie.rules);
    entry := new Entry(name);
    trie.PutOperationAction(name, Some(entry));
  }

  /** One more declared operation, merged into the entry of its name. */
  method MergeEntry(entry: Entry, ghost entries: set<Entry>, ghost ops: seq<AppOperation>, op: AppOperation,
                    isHttp: bool)
    requires entry in entries && entry.operationName == Name(op, isHttp)
    requires forall e <- entries :: e.Reflects(ops, isHttp) && (e.operationName == entry.operationName ==> e == entry)
    modifies entry
    ensures forall e <- entries :: e.Reflects(ops + [op], isHttp)
  {
    entry.Merge(ops, op, isHttp);
    forall e <- entries
      ensures e.Reflects(ops + [op], isHttp)
    {
      if e != entry {
        assert old(e.Reflects(ops, isHttp));
        e.Untouched(ops, op, isHttp);
      }
    }
  }

  lemma SameName(rules: Rules<Entry>, entries: map<string, Entry>, ops: seq<AppOperation>, op: AppOperation,
                 isHttp: bool)
    requires Tabled(rules, entries, ops, isHttp) && Name(op, isHttp) in entries
    requires Same(Rename(rules, NameOf), NameRules(ops, isHttp))
    ensures Tabled(rules, entries, ops + [op], isHttp)
    ensures Same(Rename(rules, NameOf), NameRules(ops + [op], isHttp))
  {
    var name := Name(op, isHttp);
    Named(ops, isHttp, name);
    SnocFront(ops, op);
    assert entries.Keys + {name} == entries.Keys;
    RepeatedPut(NameRules(ops, isHttp), Path(name), Some(name));
    SameTransitive(Rename(rules, NameOf), NameRules(ops, isHttp), NameRules(ops + [op], isHttp));
  }

  lemma NewName(rules: Rules<Entry>, entries: map<string, Entry>, entry: Entry, ops: seq<AppOperation>,
                op: AppOperation, isHttp: bool)
    requires Tabled(rules, entries, ops, isHttp)
    requires entry.operationName == Name(op, isHttp) && Name(op, isHttp) !in entries
    requires Same(Rename(rules, NameOf), NameRules(ops, isHttp))
    ensures var name := Name(op, isHttp);
            var more := Put(rules, Path(name), Some(entry));
            && Tabled(more, entries[name := entry], ops + [op], isHttp)
            && Same(Rename(more, NameOf), NameRules(ops + [op], isHttp))
            && Entries(more) == Entries(rules) + {entry}
  {
    NewNameIndexed(Entries(rules), entries, entry);
    SnocFront(ops, op);
    assert entries[Name(op, isHttp) := entry].Keys == entries.Keys + {Name(op, isHttp)};
    NewNameSame(rules, entry, ops, op, isHttp);
  }

  lemma NewNameIndexed(all: set<Entry>, entries: map<string, Entry>, entry: Entry)
    requires forall name :: name in entries ==> entries[name] in all && entries[name].operationName == name
    requires forall e <- all :: e.operationName in entries && entries[e.operationName] == e
    requires entry.operationName !in entries
    ensures var more := entries[entry.operationName := entry];
            && (forall name :: name in more ==> more[name] in all + {entry} && more[name].operationName == name)
            && (forall e <- all + {entry} :: e.operationName in more && more[e.operationName] == e)
  {
  }

  lemma NewNameSame(rules: Rules<Entry>, entry: Entry, ops: seq<AppOperation>, op: AppOperation, isHttp: bool)
    requires entry.operationName == Name(op, isHttp)
    requires Same(Rename(rules, NameOf), NameRules(ops, isHttp))
    ensures Same(Rename(Put(rules, Path(entry.operationName), Some(entry)), NameOf), NameRules(ops + [op], isHttp))
  {
    SnocFront(ops, op);
    SamePut(Rename(rules, NameOf), NameRules(ops, isHttp), Path(entry.operationName), Some(entry.operationName));
  }

  lemma NameHasPath(op: AppOperation, isHttp: bool)
    ensures Path(Name(op, isHttp)) != []
  {
    var s := WithSlash(op.operation);
    if isHttp {
      Canonical.FirstSlash(s);
    }
    var name := Name(op, isHttp);
    assert name[0] == '/';
  }

  lemma SameTransitive<D>(a: Rules<D>, b: Rules<D>, c: Rules<D>)
    requires Same(a, b) && Same(c, b)
    ensures Same(a, c)
  {
  }

  // ----- the key of a policy -----

  function Key(appId: string, namespace: string): (key: string)
  {
    appId + "||" + namespace
  }

  function PolicyByKey(policies: seq<AppPolicy>, key: string): (policy: Option<AppPolicy>)
    ensures policy.Some? ==> Key(policy.value.appName, policy.value.namespace) == key
  {
    if policies == [] then None
    else
      var last := policies[|policies| - 1];
      if Key(last.appName, last.namespace) == key then Some(last) else PolicyByKey(policies[..|policies| - 1], key)
  }

  /** The policy that the compiled list finds for a caller: filed under its key, for its namespace. */
  function PolicyFound(policies: seq<AppPolicy>, appId: string, namespace: string): (policy: Option<AppPolicy>)
  {
    var policy := PolicyByKey(policies, Key(appId, namespace));
    if policy.Some? && policy.value.namespace == namespace then policy else None
  }

  predicate SameKey(p: AppPolicy, q: AppPolicy)
  {
    Key(p.appName, p.namespace) == Key(q.appName, q.namespace)
  }

  predicate SameApp(p: AppPolicy, q: AppPolicy)
  {
    p.appName == q.appName && p.namespace == q.namespace
  }

  /** No two policies for different apps share a key. */
  ghost predicate KeysDistinguish(policies: seq<AppPolicy>)
  {
    forall p <- policies, q <- policies :: SameKey(p, q) ==> SameApp(p, q)
  }

  lemma KeyEnd(a: string, n: string, b: string, m: string)
    requires Key(a, n) == Key(b, m) && |n| == |m|
    ensures a == b && n == m
  {
    assert Key(a, n)[..|a|] == a && Key(b, m)[..|b|] == b;
    assert Key(a, n)[|a| + 2..] == n && Key(b, m)[|b| + 2..] == m;
  }

  lemma {:induction false} ByKeyMembers(policies: seq<AppPolicy>, p: AppPolicy)
    ensures p in policies ==> PolicyByKey(policies, Key(p.appName, p.namespace)).Some?
    ensures p in policies ==> PolicyFor(policies, p.appName, p.namespace).Some?
  {
    if policies != [] {
      ByKeyMembers(policies[..|policies| - 1], p);
      assert policies == policies[..|policies| - 1] + [policies[|policies| - 1]];
    }
  }

  lemma {:induction false} FoundUnderDistinctKeys(policies: seq<AppPolicy>, appId: string, namespace: string)
    requires KeysDistinguish(policies)
    ensures PolicyFound(policies, appId, namespace) == PolicyFor(policies, appId, namespace)
  {
    if policies != [] {
      var front, last := policies[..|policies| - 1], policies[|policies| - 1];
      assert forall p <- front :: p in policies;
      FoundUnderDistinctKeys(front, appId, namespace);
      if Key(last.appName, last.namespace) == Key(appId, namespace) {
        if last.namespace == namespace {
          KeyEnd(last.appName, last.namespace, appId, namespace);
        } else {
          ForMembers(front, appId, namespace);
          assert PolicyFor(front, appId, namespace).Some? ==>
              SameKey(PolicyFor(front, appId, namespace).value, last);
        }
      }
    }
  }

  lemma {:induction false} ForMembers(policies: seq<AppPolicy>, appId: string, namespace: string)
    ensures var p := PolicyFor(policies, appId, namespace);
            p.Some? ==> p.value in policies && p.value.appName == appId && p.value.namespace == namespace
  {
    if policies != [] {
      ForMembers(policies[..|policies| - 1], appId, namespace);
    }
  }

  /** The compiled list finds everyone's last policy exactly when no two apps' policies share a key. */
  lemma KeysFindPolicies(policies: seq<AppPolicy>)
    ensures KeysDistinguish(policies) <==>
            forall appId, namespace ::
              PolicyFound(policies, appId, namespace) == PolicyFor(policies, appId, namespace)
  {
    if KeysDistinguish(policies) {
      forall appId, namespace
        ensures PolicyFound(policies, appId, namespace) == PolicyFor(policies, appId, namespace)
      {
        FoundUnderDistinctKeys(policies, appId, namespace);
      }
    }
    if forall appId, namespace :: PolicyFound(policies, appId, namespace) == PolicyFor(policies, appId, namespace) {
      forall p <- policies, q <- policies | SameKey(p, q)
        ensures SameApp(p, q)
      {
        ByKeyMembers(policies, p);
        ByKeyMembers(policies, q);
        ForMembers(policies, p.appName, p.namespace);
        ForMembers(policies, q.appName, q.namespace);
        assert PolicyFound(policies, p.appName, p.namespace) == PolicyFor(policies, p.appName, p.namespace);
        assert PolicyFound(policies, q.appName, q.namespace) == PolicyFor(policies, q.appName, q.namespace);
      }
    }
  }

  lemma FirstBar(appId: string, namespace: string)
    requires '|' !in appId
    ensures Key(appId, namespace)[|appId|] == '|'
    ensures forall i :: 0 <= i < |appId| ==> Key(appId, namespace)[i] != '|'
  {
    assert forall i :: 0 <= i < |appId| ==> Key(appId, namespace)[i] == appId[i];
  }

  /** App ids without a bar are enough for that, whatever the namespaces. */
  lemma BarFreeAppIds(policies: seq<AppPolicy>)
    requires forall p <- policies :: '|' !in p.appName
    ensures KeysDistinguish(policies)
  {
    forall p <- policies, q <- policies | SameKey(p, q)
      ensures SameApp(p, q)
    {
      FirstBar(p.appName, p.namespace);
      FirstBar(q.appName, q.namespace);
      KeyEnd(p.appName, p.namespace, q.appName, q.namespace);
    }
  }

  /** A key made of ids without bars is nobody else's, whatever the others' ids are. */
  lemma BarFreeKey(a: string, n: string, b: string, m: string)
    requires Key(a, n) == Key(b, m) && '|' !in a && '|' !in n
    ensures a == b && n == m
  {
    BarsOfKey(a, n);
    BarsOfKey(b, m);
    CountZero(a, '|');
    CountZero(n, '|');
    CountZero(b, '|');
    FirstBar(a, n);
    FirstBar(b, m);
    KeyEnd(a, n, b, m);
  }

  lemma BarsOfKey(a: string, n: string)
    ensures Count(Key(a, n), '|') == Count(a, '|') + 2 + Count(n, '|')
  {
    CountConcat(a + "||", n, '|');
    CountConcat(a, "||", '|');
    assert "||"[1..] == "|" && "|"[1..] == "";
  }

  /** A caller without bars finds its own last policy, whatever the policies are. */
  lemma {:induction false} BarFreeCallerFinds(policies: seq<AppPolicy>, appId: string, namespace: string)
    requires '|' !in appId && '|' !in namespace
    ensures PolicyFound(policies, appId, namespace) == PolicyFor(policies, appId, namespace)
  {
    if policies != [] {
      var last := policies[|policies| - 1];
      BarFreeCallerFinds(policies[..|policies| - 1], appId, namespace);
      if Key(last.appName, last.namespace) == Key(appId, namespace) {
        BarFreeKey(appId, namespace, last.appName, last.namespace);
      }
    }
  }

  /** Keys alone do not tell all ids apart: with a bar in an app id, a later policy takes the key of an app whose
      namespace starts with one. */
  lemma BarHidesPolicy(p: AppPolicy, q: AppPolicy)
    requires p.appName == "a" && p.namespace == "|b" && q.appName == "a|" && q.namespace == "b"
    ensures PolicyFor([p, q], "a", "|b") == Some(p) && PolicyFound([p, q], "a", "|b") == None
  {
    assert [p, q][..1] == [p];
    assert Key("a|", "b") == "a|||b" == Key("a", "|b");
  }

  // ----- parsing and deciding -----

  datatype PolicySpec = PolicySpec(appName: string, defaultAction: string, trustDomain: string, namespace: string,
                                   operations: Trie<Entry>)

  datatype AccessControlList = AccessControlList(defaultAction: string, trustDomain: string,
                                                 policySpec: map<string, PolicySpec>)

  datatype ParseResult =
    | NoList
    | Parsed(acl: AccessControlList)
    | Invalid(noTrustDomain: seq<string>, noNamespace: seq<string>, noAppName: bool)

  ghost predicate Compiled(c: PolicySpec, policy: AppPolicy, isHttp: bool)
    reads c.operations, c.operations.nodes, Entries(c.operations.rules)
  {
    && c.appName == policy.appName && c.defaultAction == policy.defaultAction
    && c.trustDomain == policy.trustDomain && c.namespace == policy.namespace
    && c.operations.Valid() && Means(c.operations.rules, policy.operations, isHttp)
  }

  /** The list files, under every key, the last policy with that key, compiled. */
  ghost predicate CompiledList(acl: AccessControlList, spec: Spec, isHttp: bool)
    reads *
  {
    && acl.defaultAction == GlobalAction(spec)
    && (forall key :: key in acl.policySpec <==> PolicyByKey(Policies(spec), key).Some?)
    && forall key :: key in acl.policySpec ==>
                       Compiled(acl.policySpec[key], PolicyByKey(Policies(spec), key).value, isHttp)
  }

  /** The apps reported for want of a trust domain. */
  function NoTrustDomain(policies: seq<AppPolicy>): (names: seq<string>)
  {
    if policies == [] then []
    else
      var last := policies[|policies| - 1];
      NoTrustDomain(policies[..|policies| - 1]) + if last.trustDomain == "" then [last.appName] else []
  }

  /** The apps reported for want of a namespace. */
  function NoNamespace(policies: seq<AppPolicy>): (names: seq<string>)
  {
    if policies == [] then []
    else
      var last := policies[|policies| - 1];
      NoNamespace(policies[..|policies| - 1]) + if last.namespace == "" then [last.appName] else []
  }

  predicate NoAppName(policies: seq<AppPolicy>)
  {
    policies != [] && (NoAppName(policies[..|policies| - 1]) || policies[|policies| - 1].appName == "")
  }

  /** A spec with an incomplete policy is reported, and no other. */
  lemma {:induction false} IncompleteIsReported(policies: seq<AppPolicy>)
    ensures (exists p <- policies :: !Complete(p)) <==>
            NoTrustDomain(policies) != [] || NoNamespace(policies) != [] || NoAppName(policies)
  {
    if policies != [] {
      var front, last := policies[..|policies| - 1], policies[|policies| - 1];
      IncompleteIsReported(front);
      SomeIncomplete(front, last);
      ConsSnoc(last, policies);
    }
  }

  /** The reports name the apps of the incomplete policies. */
  lemma {:induction false} ReportedApps(policies: seq<AppPolicy>, name: string)
    ensures name in NoTrustDomain(policies) <==>
            exists i :: 0 <= i < |policies| && policies[i].trustDomain == "" && policies[i].appName == name
    ensures name in NoNamespace(policies) <==>
            exists i :: 0 <= i < |policies| && policies[i].namespace == "" && policies[i].appName == name
    ensures NoAppName(policies) <==> exists i :: 0 <= i < |policies| && policies[i].appName == ""
  {
    if policies != [] {
      var front := policies[..|policies| - 1];
      ReportedApps(front, name);
      assert forall i :: 0 <= i < |front| ==> policies[i] == front[i];
    }
  }

  lemma SomeIncomplete(front: seq<AppPolicy>, last: AppPolicy)
    ensures (exists p <- front + [last] :: !Complete(p)) <==> (exists p <- front :: !Complete(p)) || !Complete(last)
  {
    assert last in front + [last];
    if p :| p in front && !Complete(p) {
      assert p in front + [last];
    }
  }

  /** What is missing from one more policy. */
  method Report(ghost policies: seq<AppPolicy>, policy: AppPolicy, noTrustDomain: seq<string>, noNamespace: seq<string>,
                noAppName: bool)
    returns (noTrustDomain': seq<string>, noNamespace': seq<string>, noAppName': bool)
    requires noTrustDomain == NoTrustDomain(policies)
    requires noNamespace == NoNamespace(policies)
    requires noAppName == NoAppName(policies)
    ensures noTrustDomain' == NoTrustDomain(policies + [policy])
    ensures noNamespace' == NoNamespace(policies + [policy])
    ensures noAppName' == NoAppName(policies + [policy])
    ensures noTrustDomain' == [] ==> noTrustDomain == [] && policy.trustDomain != ""
    ensures noNamespace' == [] ==> noNamespace == [] && policy.namespace != ""
    ensures noAppName ==> noAppName'
  {
    SnocFront(policies, policy);
    noTrustDomain', noNamespace', noAppName' := noTrustDomain, noNamespace, noAppName;
    if policy.appName == "" {
      noAppName' := true;
    }
    if policy.trustDomain == "" {
      noTrustDomain' := noTrustDomain + [policy.appName];
    }
    if policy.namespace == "" {
      noNamespace' := noNamespace + [policy.appName];
    }
  }

  /** The loop over the policies: what is missing is reported, and while nothing is, every policy is filed. */
  method ReadPolicies(policies: seq<AppPolicy>, isHttp: bool)
    returns (noTrustDomain: seq<string>, noNamespace: seq<string>, noAppName: bool, filed: map<string, PolicySpec>)
    ensures noTrustDomain == NoTrustDomain(policies)
    ensures noNamespace == NoNamespace(policies)
    ensures noAppName == NoAppName(policies)
    ensures noTrustDomain == [] && noNamespace == [] && !noAppName ==> AllFiled(filed, policies, isHttp)
  {
    noTrustDomain, noNamespace, noAppName, filed := [], [], false, map[];
    ghost var seen: seq<AppPolicy> := [];
    var i := 0;
    while i < |policies|
      invariant 0 <= i <= |policies| && seen == policies[..i]
      invariant noTrustDomain == NoTrustDomain(seen)
      invariant noNamespace == NoNamespace(seen)
      invariant noAppName == NoAppName(seen)
      invariant noTrustDomain == [] && noNamespace == [] && !noAppName ==> AllFiled(filed, seen, isHttp)
    {
      var policy := policies[i];
      noTrustDomain, noNamespace, noAppName := Report(seen, policy, noTrustDomain, noNamespace, noAppName);
      if policy.trustDomain != "" && policy.namespace != "" && !noAppName {
        filed := FilePolicy(filed, seen, policy, isHttp);
      }
      TakeNext(policies, i);
      seen := seen + [policy];
      i := i + 1;
    }
    assert policies[..i] == policies;
  }

  /** `ParseAccessControlSpec`. */
  method ParseAccessControlSpec(spec: Option<Spec>, isHttp: bool) returns (r: ParseResult)
    ensures r.NoList? <==>
            spec.None? || (spec.value.trustDomain == "" && spec.value.defaultAction == "" && Policies(spec.value) == [])
    ensures r.Invalid? <==> spec.Some? && exists p <- Policies(spec.value) :: !Complete(p)
    ensures r.Invalid? ==>
              && r.noTrustDomain == NoTrustDomain(Policies(spec.value))
              && r.noNamespace == NoNamespace(Policies(spec.value))
              && r.noAppName == NoAppName(Policies(spec.value))
    ensures r.Parsed? ==> CompiledList(r.acl, spec.value, isHttp)
    ensures r.Parsed? ==> r.acl.trustDomain == if spec.value.trustDomain == "" then "public" else spec.value.trustDomain
  {
    if spec.None? {
      return NoList;
    }
    var s, policies := spec.value, Policies(spec.value);
    if s.trustDomain == "" && s.defaultAction == "" && policies == [] {
      return NoList;
    }
    var trustDomain := if s.trustDomain == "" then DEFAULT_TRUST_DOMAIN else s.trustDomain;
    var noTrustDomain, noNamespace, noAppName, filed := ReadPolicies(policies, isHttp);
    IncompleteIsReported(policies);
    if noTrustDomain != [] || noNamespace != [] || noAppName {
      return Invalid(noTrustDomain, noNamespace, noAppName);
    }
    return Parsed(AccessControlList(GlobalAction(s), trustDomain, filed));
  }

  ghost predicate AllFiled(filed: map<string, PolicySpec>, policies: seq<AppPolicy>, isHttp: bool)
    reads *
  {
    && (forall key :: key in filed <==> PolicyByKey(policies, key).Some?)
    && forall key :: key in filed ==> Compiled(filed[key], PolicyByKey(policies, key).value, isHttp)
  }

  /** One policy, compiled and filed under its key; an earlier one with that key is replaced. */
  method FilePolicy(filed: map<string, PolicySpec>, ghost policies: seq<AppPolicy>, policy: AppPolicy, isHttp: bool)
    returns (more: map<string, PolicySpec>)
    ensures old(AllFiled(filed, policies, isHttp)) ==> AllFiled(more, policies + [policy], isHttp)
  {
    var trie := CompileBeside(filed, policies, policy.operations, isHttp);
    var c := PolicySpec(policy.appName, policy.defaultAction, policy.trustDomain, policy.namespace, trie);
    more := filed[Key(policy.appName, policy.namespace) := c];
    if old(AllFiled(filed, policies, isHttp)) {
      FiledUnderKey(filed, policies, policy, c, isHttp);
    }
  }

  /** Compiling a policy leaves the policies alone that were compiled before. */
  method CompileBeside(filed: map<string, PolicySpec>, ghost policies: seq<AppPolicy>, ops: seq<AppOperation>, isHttp: bool)
    returns (trie: Trie<Entry>)
    ensures trie.Valid() && Means(trie.rules, ops, isHttp)
    ensures old(AllFiled(filed, policies, isHttp)) ==> AllFiled(filed, policies, isHttp)
  {
    forall k | k in filed
      ensures forall e <- Entries(filed[k].operations.rules) :: allocated(e)
    {
      EntriesAllocated(filed[k].operations.rules);
    }
    trie := CompilePolicy(ops, isHttp);
    forall k | k in filed && old(AllFiled(filed, policies, isHttp))
      ensures Compiled(filed[k], PolicyByKey(policies, k).value, isHttp)
    {
      assert old(Compiled(filed[k], PolicyByKey(policies, k).value, isHttp));
    }
  }

  lemma FiledUnderKey(filed: map<string, PolicySpec>, policies: seq<AppPolicy>, policy: AppPolicy, c: PolicySpec,
                      isHttp: bool)
    requires AllFiled(filed, policies, isHttp) && Compiled(c, policy, isHttp)
    ensures AllFiled(filed[Key(policy.appName, policy.namespace) := c], policies + [policy], isHttp)
  {
    var key := Key(policy.appName, policy.namespace);
    forall k
      ensures PolicyByKey(policies + [policy], k) == if k == key then Some(policy) else PolicyByKey(policies, k)
    {
      PolicyByKeySnoc(policies, policy, k);
    }
  }

  lemma PolicyByKeySnoc(policies: seq<AppPolicy>, policy: AppPolicy, k: string)
    ensures PolicyByKey(policies + [policy], k) ==
            if k == Key(policy.appName, policy.namespace) then Some(policy) else PolicyByKey(policies, k)
  {
    SnocFront(policies, policy);
  }

  /** The decision of the compiled list, for any app ids: as module AclSpec has it, except that the
      policy is the one found by key. */
  ghost function DecideByKey(spec: Spec, isHttp: bool, caller: Option<Caller>, operation: string,
                             verb: Option<string>): (d: Decision)
  {
    var global := Decision(IsActionAllowed(GlobalAction(spec)), ACTION_POLICY_GLOBAL);
    if caller.None? then global
    else
      var policy := PolicyFound(Policies(spec), caller.value.appId, caller.value.namespace);
      if policy.None? || policy.value.trustDomain != caller.value.trustDomain then global
      else DecideBy(policy.value, GlobalAction(spec), isHttp, operation, verb)
  }

  /** The compiled list decides as a direct scan of the spec does, for every caller without bars under every spec, and for
      every caller at all under a spec whose keys tell apps apart. */
  lemma CompiledDecidesAsScan(spec: Spec, isHttp: bool, caller: Option<Caller>, operation: string, verb: Option<string>)
    requires BarFree(caller) || KeysDistinguish(Policies(spec))
    ensures DecideByKey(spec, isHttp, caller, operation, verb) == Decide(spec, isHttp, caller, operation, verb)
  {
    if caller.Some? && BarFree(caller) {
      BarFreeCallerFinds(Policies(spec), caller.value.appId, caller.value.namespace);
    } else if caller.Some? {
      FoundUnderDistinctKeys(Policies(spec), caller.value.appId, caller.value.namespace);
    }
  }

  /** The decision by key, too, does not depend on how an operation is spelled. */
  lemma SpellingDoesNotDecideByKey(spec: Spec, caller: Option<Caller>, verb: Option<string>,
                                   escaped: string, plain: string, other: string)
    requires Canonical.EscapeOf(escaped, plain) && '%' !in plain && '%' !in other
    requires ToLower(plain) == ToLower(other)
    ensures DecideByKey(spec, true, caller, escaped, verb) == DecideByKey(spec, true, caller, other, verb)
  {
    SlashesAgree(escaped, plain, other);
    Canonical.SpellingsReadAlike(WithSlash(escaped), WithSlash(plain), WithSlash(other));
  }

  /** `operationAction`: the action of the rule that matches, or the given one. */
  method OperationAction(c: PolicySpec, operation: string, verb: Option<string>, isHttp: bool, action: string,
                         ghost policy: AppPolicy) returns (result: string)
    requires Compiled(c, policy, isHttp)
    ensures IsActionAllowed(result) == RuleAllows(policy, isHttp, operation, verb, IsActionAllowed(action))
  {
    result := action;
    var entry := FindEntry(c.operations, operation, policy.operations, isHttp);
    if entry.Some? {
      result := EntryAction(entry.value, verb, isHttp, action, c.defaultAction, policy);
    }
  }

  /** The entry that the trie answers with is the one of the name that the scan answers with. */
  method FindEntry(trie: Trie<Entry>, operation: string, ghost ops: seq<AppOperation>, isHttp: bool)
    returns (entry: Option<Entry>)
    requires trie.Valid() && Means(trie.rules, ops, isHttp)
    ensures RenameData(entry, NameOf) == Walk(NameRules(ops, isHttp), Path(operation))
    ensures entry.Some? ==> entry.value.Reflects(ops, isHttp)
  {
    ghost var entries := Entries(trie.rules);
    entry := trie.Search(operation);
    RenameWalk(trie.rules, NameOf, Path(operation));
    SameWalk(Rename(trie.rules, NameOf), NameRules(ops, isHttp), Path(operation));
    WalkedEntry(trie.rules, Path(operation));
    assert entry.Some? ==> entry.value in entries && old(entry.value.Reflects(ops, isHttp));
  }

  /** What a matching entry says. */
  method EntryAction(e: Entry, verb: Option<string>, isHttp: bool, action: string, defaultAction: string,
                     ghost policy: AppPolicy) returns (result: string)
    requires e.Reflects(policy.operations, isHttp) && defaultAction == policy.defaultAction
    ensures IsActionAllowed(result) == NameAllows(policy, isHttp, e.operationName, verb, IsActionAllowed(action))
  {
    ghost var ops := policy.operations;
    result := action;
    if isHttp {
      if verb.Some? {
        assert VerbReflects(e.verbAction, ops, isHttp, e.operationName, verb.value);
        assert VerbReflects(e.verbAction, ops, isHttp, e.operationName, ANY_VERB);
        MergeAllows(VerbActions(ops, isHttp, e.operationName, verb.value));
        MergeAllows(VerbActions(ops, isHttp, e.operationName, ANY_VERB));
        if verb.value in e.verbAction {
          result := e.verbAction[verb.value];
        } else if ANY_VERB in e.verbAction {
          result := e.verbAction[ANY_VERB];
        }
      } else {
        result := defaultAction;
      }
    } else {
      MergeAllows(Actions(ops, isHttp, e.operationName));
      result := e.operationAction;
    }
  }

  lemma {:induction false} WalkedEntry(rules: Rules<Entry>, segments: seq<string>)
    ensures Walk(rules, segments).Some? ==> Walk(rules, segments).value in Entries(rules)
    decreases |segments|
  {
    if segments != [] {
      var head := FirstHead(rules, segments[0], |segments| == 1);
      if head.Some? {
        var below := At(rules, [head.value]);
        EntriesBelow(rules, [head.value]);
        HereEntry(below);
        WalkedEntry(below, segments[1..]);
        var star := FirstHead(below, SINGLE_STAGE_WILDCARD, true);
        if star.Some? {
          EntriesBelow(below, [star.value]);
          HereEntry(At(below, [star.value]));
        }
      }
    }
  }

  lemma {:induction false} EntriesBelow(rules: Rules<Entry>, p: seq<string>)
    ensures Entries(At(rules, p)) <= Entries(rules)
  {
    match rules
    case NoRules =>
    case Put(before, _, _) => EntriesBelow(before, p);
  }

  lemma {:induction false} HereEntry(rules: Rules<Entry>)
    ensures Here(rules).Some? ==> Here(rules).value in Entries(rules)
  {
    match rules
    case NoRules =>
    case Put(before, _, _) => HereEntry(before);
  }

  /** `isOperationAllowedByAccessControlPolicy`, on a list compiled from `spec`. */
  method IsOperationAllowed(caller: Option<Caller>, operation: string, verb: Option<string>, isHttp: bool,
                            acl: Option<AccessControlList>, ghost spec: Spec)
    returns (allowed: bool, actionPolicy: string)
    requires acl.Some? ==> CompiledList(acl.value, spec, isHttp)
    ensures acl.None? ==> allowed && actionPolicy == ""
    ensures acl.Some? ==> Decision(allowed, actionPolicy) == DecideByKey(spec, isHttp, caller, operation, verb)
  {
    if acl.None? {
      return true, "";
    }
    var action := acl.value.defaultAction;
    if caller.None? {
      return IsActionAllowed(action), ACTION_POLICY_GLOBAL;
    }
    var appPolicy := FindPolicy(acl.value, caller.value, isHttp, spec);
    if appPolicy.None? {
      return IsActionAllowed(action), ACTION_POLICY_GLOBAL;
    }
    ghost var policy := PolicyFound(Policies(spec), caller.value.appId, caller.value.namespace).value;
    allowed, actionPolicy := DecideByPolicy(appPolicy.value, action, operation, verb, isHttp, policy);
  }

  /** From the spec to the decision: a spec is parsed, and a request is decided by the list that results. If the spec is
      complete, the decision is that of a direct scan of the spec, for every caller without bars and so for every caller
      with a SPIFFE identity, and for other callers if keys tell apps apart; with no list everything is allowed. */
  method Authorize(spec: Option<Spec>, caller: Option<Caller>, operation: string, verb: Option<string>, isHttp: bool)
    returns (parsed: ParseResult, allowed: bool, actionPolicy: string)
    ensures parsed.Invalid? <==> spec.Some? && exists p <- Policies(spec.value) :: !Complete(p)
    ensures parsed.Invalid? ==> !allowed && actionPolicy == ""
    ensures parsed.NoList? ==> allowed && actionPolicy == ""
    ensures parsed.Parsed? ==> spec.Some?
    ensures parsed.Parsed? && (BarFree(caller) || KeysDistinguish(Policies(spec.value))) ==>
              Decision(allowed, actionPolicy) == Decide(spec.value, isHttp, caller, operation, verb)
    ensures parsed.Parsed? && (BarFree(caller) || KeysDistinguish(Policies(spec.value))) &&
            (forall i :: !DecidesAbout(spec.value, caller, i)) ==>
              allowed == DefaultAllows(spec.value) && actionPolicy == "global"
  {
    parsed := ParseAccessControlSpec(spec, isHttp);
    if parsed.Invalid? {
      return parsed, false, "";
    }
    var acl := if parsed.Parsed? then Some(parsed.acl) else None;
    ghost var s := if spec.Some? then spec.value else Spec("", "", None);
    allowed, actionPolicy := IsOperationAllowed(caller, operation, verb, isHttp, acl, s);
    if BarFree(caller) || KeysDistinguish(Policies(s)) {
      CompiledDecidesAsScan(s, isHttp, caller, operation, verb);
    }
    if forall i :: !DecidesAbout(s, caller, i) {
      DefaultDecision(s, isHttp, caller, operation, verb);
    }
  }

  /** The filed policy of a caller whose trust domain and namespace it names. */
  method FindPolicy(acl: AccessControlList, caller: Caller, isHttp: bool, ghost spec: Spec)
    returns (appPolicy: Option<PolicySpec>)
    requires CompiledList(acl, spec, isHttp)
    ensures var policy := PolicyFound(Policies(spec), caller.appId, caller.namespace);
            && (appPolicy.Some? <==> policy.Some? && policy.value.trustDomain == caller.trustDomain)
            && (appPolicy.Some? ==> Compiled(appPolicy.value, policy.value, isHttp))
  {
    var key := Key(caller.appId, caller.namespace);
    if key !in acl.policySpec {
      return None;
    }
    var found := acl.policySpec[key];
    assert Compiled(found, PolicyByKey(Policies(spec), key).value, isHttp);
    if found.trustDomain != caller.trustDomain || found.namespace != caller.namespace {
      return None;
    }
    return Some(found);
  }

  /** The decision once the caller's policy is found: every form of the operation must be allowed. */
  method DecideByPolicy(c: PolicySpec, globalAction: string, operation: string, verb: Option<string>, isHttp: bool,
                        ghost policy: AppPolicy) returns (allowed: bool, actionPolicy: string)
    requires Compiled(c, policy, isHttp)
    ensures Decision(allowed, actionPolicy) == DecideBy(policy, globalAction, isHttp, operation, verb)
  {
    var action := globalAction;
    actionPolicy := ACTION_POLICY_GLOBAL;
    if c.defaultAction != "" {
      action, actionPolicy := c.defaultAction, ACTION_POLICY_APP;
    }
    var operations := [WithSlash(operation)];
    ghost var entries := Entries(c.operations.rules);
    EntriesAllocated(c.operations.rules);
    if isHttp {
      var decoded, stripped, ok := Canonical.CanonicalHttpOperation(WithSlash(operation));
      forall e <- entries
        ensures e.Reflects(policy.operations, isHttp)
      {
        assert old(e.Reflects(policy.operations, isHttp));
      }
      if !ok {
        return false, actionPolicy;
      }
      operations := [stripped, decoded];
    }
    allowed := AllAllowed(c, operations, verb, isHttp, action, policy);
    assert operations[0] in operations && operations[|operations| - 1] in operations;
  }

  /** `ApplyAccessControlPolicies`, on a list compiled from `spec`: a peer with a malformed SPIFFE ID is refused, list or
      no list; every other request is decided as by a direct scan of the spec, whatever the policies are, because no
      identity holds a bar. */
  method ApplyAccessControlPolicies(peer: Option<string>, trustDomain: string, operation: string, verb: Option<string>,
                                    isHttp: bool, acl: Option<AccessControlList>, ghost spec: Spec)
    returns (allowed: bool)
    requires peer.Some? ==> Spiffe.IdPath(peer.value)
    requires acl.Some? ==> CompiledList(acl.value, spec, isHttp)
    ensures peer.Some? && Spiffe.FromId(peer.value, trustDomain).None? ==> !allowed
    ensures peer.Some? && Spiffe.FromId(peer.value, trustDomain).Some? ==>
              allowed == (acl.None? || Decide(spec, isHttp, Spiffe.FromId(peer.value, trustDomain), operation, verb).allowed)
    ensures peer.None? ==> allowed == (acl.None? || Decide(spec, isHttp, None, operation, verb).allowed)
  {
    var caller := if peer.Some? then Spiffe.FromId(peer.value, trustDomain) else None;
    if peer.Some? {
      if caller.None? {
        return false;
      }
      Spiffe.IdentityHasNoBar(peer.value, trustDomain);
    }
    var actionPolicy;
    allowed, actionPolicy := IsOperationAllowed(caller, operation, verb, isHttp, acl, spec);
    CompiledDecidesAsScan(spec, isHttp, caller, operation, verb);
  }

  method AllAllowed(c: PolicySpec, operations: seq<string>, verb: Option<string>, isHttp: bool, action: string,
                    ghost policy: AppPolicy) returns (all: bool)
    requires Compiled(c, policy, isHttp)
    ensures all <==> forall op <- operations :: RuleAllows(policy, isHttp, op, verb, IsActionAllowed(action))
  {
    ghost var fallback := IsActionAllowed(action);
    AllPass(policy, isHttp, operations, verb, fallback);
    var i := 0;
    while i < |operations|
      invariant 0 <= i <= |operations|
      invariant Compiled(c, policy, isHttp)
      invariant Pass(policy, isHttp, operations, verb, fallback) == Pass(policy, isHttp, operations[i..], verb, fallback)
    {
      var allowed := IsAllowed(c, operations[i], verb, isHttp, action, policy);
      DropNext(operations, i);
      if !allowed {
        return false;
      }
      i := i + 1;
    }
    return true;
  }

  /** Every operation is allowed, read from the front. */
  ghost predicate Pass(policy: AppPolicy, isHttp: bool, operations: seq<string>, verb: Option<string>, fallback: bool)
    decreases |operations|
  {
    operations == [] ||
    (RuleAllows(policy, isHttp, operations[0], verb, fallback) && Pass(policy, isHttp, operations[1..], verb, fallback))
  }

  lemma {:induction false} AllPass(policy: AppPolicy, isHttp: bool, operations: seq<string>, verb: Option<string>,
                                   fallback: bool)
    ensures Pass(policy, isHttp, operations, verb, fallback) <==>
            forall op <- operations :: RuleAllows(policy, isHttp, op, verb, fallback)
    decreases |operations|
  {
    if operations != [] {
      AllPass(policy, isHttp, operations[1..], verb, fallback);
      assert operations == [operations[0]] + operations[1..];
    }
  }

  /** One operation, after which the list is as it was. */
  method IsAllowed(c: PolicySpec, operation: string, verb: Option<string>, isHttp: bool, action: string,
                   ghost policy: AppPolicy) returns (allowed: bool)
    requires Compiled(c, policy, isHttp)
    ensures Compiled(c, policy, isHttp)
    ensures allowed == RuleAllows(policy, isHttp, operation, verb, IsActionAllowed(action))
  {
    ghost var entries := Entries(c.operations.rules);
    EntriesAllocated(c.operations.rules);
    var result := OperationAction(c, operation, verb, isHttp, action, policy);
    forall e <- entries
      ensures e.Reflects(policy.operations, isHttp)
    {
      assert old(e.Reflects(policy.operations, isHttp));
    }
    allowed := IsActionAllowed(result);
  }
}
