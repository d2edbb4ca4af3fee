/**
 The mutable segment trie behind the access-control list. Its ghost state is the flat list of
 rules put so far and an index of the nodes by path; `Valid` ties every node to the rules that
 pass through it, so that putting and searching are proved against module RuleList.
 */
module AclTrie {
  import opened Text
  import opened RuleList
  import Glob

  class Node<D> {
    const segment: string
    var data: Option<D>
    var subNodes: seq<Node<D>>
    ghost const path: seq<string>

    constructor (segment: string, data: Option<D>, ghost path: seq<string>)
      ensures this.segment == segment && this.data == data && subNodes == [] && this.path == path
    {
      this.segment, this.data, subNodes := segment, data, [];
      this.path := path;
    }
  }

  /** `findNode`: the child with exactly this segment. */
  method FindNode<D>(segment: string, nodes: seq<Node<D>>) returns (found: Node?<D>)
    ensures found == null ==> forall n <- nodes :: n.segment != segment
    ensures found != null ==> found in nodes && found.segment == segment
  {
    var i := 0;
    while i < |nodes|
      invariant 0 <= i <= |nodes|
      invariant forall k :: 0 <= k < i ==> nodes[k].segment != segment
    {
      if nodes[i].segment == segment {
        return nodes[i];
      }
      i := i + 1;
    }
    return null;
  }

  function Chars<D>(nodes: seq<Node<D>>): (chars: seq<string>)
    ensures |chars| == |nodes|
  {
    seq(|nodes|, i requires 0 <= i < |nodes| => nodes[i].segment)
  }

  /** `findNodeWithWildcard`: the first sibling, in put order, that answers the target. */
  method FindNodeWithWildcard<D>(segment: string, nodes: seq<Node<D>>, isEnd: bool) returns (found: Node?<D>)
    ensures found == null ==> FirstAnswer(Chars(nodes), segment, isEnd) == None
    ensures found != null ==> found in nodes && FirstAnswer(Chars(nodes), segment, isEnd) == Some(found.segment)
  {
    var i := 0;
    while i < |nodes|
      invariant 0 <= i <= |nodes|
      invariant FirstAnswer(Chars(nodes), segment, isEnd) == FirstAnswer(Chars(nodes)[i..], segment, isEnd)
    {
      var node := nodes[i];
      assert Chars(nodes)[i..][0] == node.segment && Chars(nodes)[i..][1..] == Chars(nodes)[i + 1..];
      if node.segment == segment {
        return node;
      }
      if node.segment == SINGLE_STAGE_WILDCARD {
        if isEnd {
          return node;
        }
      } else if node.segment == MULTI_STAGE_WILDCARD {
        return node;
      } else {
        var matched := Glob.IsMatch(segment, node.segment);
        if matched {
          return node;
        }
      }
      i := i + 1;
    }
    return null;
  }

  /** Between a rule that stops at p without data and one that goes on to c with data d, the list
      reads the same everywhere except that c is now a head at p and d may be found at p + [c]. */
  lemma Extend<D>(base: Rules<D>, p: seq<string>, c: string, d: Option<D>, q: seq<string>)
    ensures var before, after := At(Put(base, p, None), q), At(Put(base, p + [c], d), q);
            && Here(after) == (if q == p + [c] && Here(before).None? then d else Here(before))
            && Heads(after) == (if q == p && c !in Heads(before) then Heads(before) + [c] else Heads(before))
            && (after.Put? <==> before.Put? || q == p + [c])
  {
    if q <= p {
      assert p[|q|..] + [c] == (p + [c])[|q|..];
    } else if q <= p + [c] {
      assert q == p + [c];
    }
  }

  /** A node of the trie with what the rules below its path amount to. */
  datatype Slot<D> = Slot(node: Node<D>, data: Option<D>, heads: seq<string>)

  type Index<D> = map<seq<string>, Slot<D>>

  /** The index has a slot for exactly the paths that rules pass through, and the slot says what they say. */
  ghost predicate Dictates<D>(rules: Rules<D>, index: Index<D>)
  {
    forall p ::
      && (p in index <==> p == [] || At(rules, p).Put?)
      && (p in index ==> index[p].data == Here(At(rules, p)) && index[p].heads == Heads(At(rules, p)))
  }

  lemma DictatesOpen<D>(rules: Rules<D>, index: Index<D>)
    requires Dictates(rules, index)
    ensures Dictates(Put(rules, [], None), index)
  {
    var more := Put(rules, [], None);
    forall p
      ensures p in index <==> p == [] || At(more, p).Put?
      ensures p in index ==> index[p].data == Here(At(more, p)) && index[p].heads == Heads(At(more, p))
    {
      assert p in index <==> p == [] || At(rules, p).Put?;
    }
  }

  ghost function AddSlot<D>(index: Index<D>, p: seq<string>, child: Node<D>, d: Option<D>): (more: Index<D>)
    requires p in index
  {
    index[p := index[p].(heads := index[p].heads + [child.segment])][p + [child.segment] := Slot(child, d, [])]
  }

  ghost function FillSlot<D>(index: Index<D>, q: seq<string>, d: Option<D>): (more: Index<D>)
    requires q in index
  {
    index[q := index[q].(data := if index[q].data.None? then d else index[q].data)]
  }

  lemma ThereIfHead<D>(base: Rules<D>, p: seq<string>, c: string, index: Index<D>)
    requires Dictates(Put(base, p, None), index) && p in index
    ensures c in index[p].heads <==> p + [c] in index
  {
    AtAt(Put(base, p, None), p, [c]);
    HeadsPresent(At(Put(base, p, None), p), c);
  }

  /** A put that goes one segment further, to a node that is not there yet. */
  lemma DictatesAdd<D>(base: Rules<D>, p: seq<string>, child: Node<D>, d: Option<D>, index: Index<D>)
    requires Dictates(Put(base, p, None), index) && p in index && p + [child.segment] !in index
    ensures Dictates(Put(base, p + [child.segment], d), AddSlot(index, p, child, d))
  {
    var c := child.segment;
    ThereIfHead(base, p, c, index);
    var rules, more := Put(base, p + [c], d), AddSlot(index, p, child, d);
    forall o
      ensures o in more <==> o == [] || At(rules, o).Put?
      ensures o in more ==> more[o].data == Here(At(rules, o)) && more[o].heads == Heads(At(rules, o))
    {
      Extend(base, p, c, d, o);
      assert o in index <==> o == [] || At(Put(base, p, None), o).Put?;
    }
  }

  /** A put that goes one segment further, to a node that is there. */
  lemma DictatesFill<D>(base: Rules<D>, p: seq<string>, c: string, d: Option<D>, index: Index<D>)
    requires Dictates(Put(base, p, None), index) && p in index && p + [c] in index
    ensures Dictates(Put(base, p + [c], d), FillSlot(index, p + [c], d))
  {
    ThereIfHead(base, p, c, index);
    var rules, more := Put(base, p + [c], d), FillSlot(index, p + [c], d);
    forall o
      ensures o in more <==> o == [] || At(rules, o).Put?
      ensures o in more ==> more[o].data == Here(At(rules, o)) && more[o].heads == Heads(At(rules, o))
    {
      Extend(base, p, c, d, o);
      assert o in index <==> o == [] || At(Put(base, p, None), o).Put?;
    }
  }

  class Trie<D> {
    const root: Node<D>
    ghost var rules: Rules<D>
    ghost var index: Index<D>
    ghost var nodes: set<Node<D>>

    /** The node for p carries what its slot says, and one child per head, in order. */
    ghost predicate NodeOk(p: seq<string>)
      requires p in index && index[p].node in nodes
      reads this`index, this`nodes, nodes
    {
      var node := index[p].node;
      && node.data == index[p].data
      && Chars(node.subNodes) == index[p].heads
      && forall i :: 0 <= i < |node.subNodes| ==>
                       var child := p + [node.subNodes[i].segment];
                       child in index && index[child].node == node.subNodes[i]
    }

    ghost predicate Linked()
      reads this`index, this`nodes, nodes
    {
      && [] in index && index[[]].node == root
      && forall p :: p in index ==> index[p].node in nodes && index[p].node.path == p && NodeOk(p)
    }

    ghost predicate Valid()
      reads this, nodes
    {
      Linked() && Dictates(rules, index)
    }

    constructor ()
      ensures Valid() && fresh(nodes) && rules == NoRules
    {
      root := new Node("/", None, []);
      rules := NoRules;
      index := map[[] := Slot(root, None, [])];
      nodes := {root};
    }

    /** `PutOperationAction`: records one rule; an operation without a slash records none. */
    method PutOperationAction(operation: string, data: Option<D>)
      requires Valid()
      modifies this, nodes
      ensures Valid() && fresh(nodes - old(nodes))
      ensures rules == if Path(operation) == [] then old(rules) else Put(old(rules), Path(operation), data)
    {
      var segments := Path(operation);
      ghost var base := rules;
      if segments != [] {
        DictatesOpen(rules, index);
        rules := Put(rules, [], None);
        var node := root;
        var i := 0;
        while i < |segments|
          invariant 0 <= i <= |segments|
          invariant Valid() && rules == Put(base, segments[..i], if i == |segments| then data else None)
          invariant segments[..i] in index && index[segments[..i]].node == node
          invariant fresh(nodes - old(nodes))
        {
          TakeNext(segments, i);
          node := Descend(node, segments[i], if i == |segments| - 1 then data else None, base, segments[..i]);
          i := i + 1;
        }
        assert segments[..i] == segments;
      }
    }

    /** `findSubNode` on the node for p: the child the flat walk would follow. */
    method FindSubNode(node: Node<D>, target: string, isEnd: bool, ghost p: seq<string>) returns (found: Node?<D>)
      requires Valid() && p in index && index[p].node == node
      ensures found == null ==> FirstHead(At(rules, p), target, isEnd).None?
      ensures found != null ==>
                var q := p + [found.segment];
                && FirstHead(At(rules, p), target, isEnd) == Some(found.segment)
                && q in index && index[q].node == found
                && At(rules, q) == At(At(rules, p), [found.segment])
                && found.data == Here(At(rules, q))
    {
      assert NodeOk(p);
      FirstHeadIsFirstAnsweringHead(At(rules, p), target, isEnd);
      found := FindNodeWithWildcard(target, node.subNodes, isEnd);
      if found != null {
        AtAt(rules, p, [found.segment]);
        assert NodeOk(p + [found.segment]);
      }
    }

    /** What the end of a search gets from a node without data: the answer of its wildcard child. */
    method StarAnswer(node: Node<D>, ghost p: seq<string>) returns (data: Option<D>)
      requires Valid() && p in index && index[p].node == node
      ensures data == match FirstHead(At(rules, p), SINGLE_STAGE_WILDCARD, true)
                      case None => None
                      case Some(star) => Here(At(At(rules, p), [star]))
    {
      var found := FindSubNode(node, SINGLE_STAGE_WILDCARD, true, p);
      if found != null && found.data.Some? {
        return found.data;
      }
      return None;
    }

    /** `Search`: answers as the walk over the flat list of rules does. */
    method Search(operation: string) returns (data: Option<D>)
      requires Valid()
      ensures data == Walk(rules, Path(operation))
    {
      var segments := Path(operation);
      var node := root;
      ghost var p: seq<string> := [];
      AtRoot(rules);
      var i := 0;
      while i < |segments|
        invariant 0 <= i <= |segments|
        invariant p in index && index[p].node == node
        invariant Walk(rules, segments) == Walk(At(rules, p), segments[i..])
      {
        var isEnd := i == |segments| - 1;
        DropNext(segments, i);
        var found := FindSubNode(node, segments[i], isEnd, p);
        if found == null {
          return None;
        }
        node, p := found, p + [found.segment];
        if node.data.Some? {
          if isEnd || !SingleStage(node.segment) {
            return node.data;
          }
        } else if isEnd {
          data := StarAnswer(node, p);
          return data;
        }
        i := i + 1;
      }
      return None;
    }

    /** One segment of a put: finds or adds the child, and leaves data on the last one. */
    method Descend(node: Node<D>, segment: string, data: Option<D>, ghost base: Rules<D>, ghost p: seq<string>)
      returns (next: Node<D>)
      requires Valid() && rules == Put(base, p, None)
      requires p in index && index[p].node == node
      modifies this, nodes
      ensures Valid() && rules == Put(base, p + [segment], data)
      ensures p + [segment] in index && index[p + [segment]].node == next
      ensures fresh(nodes - old(nodes))
    {
      ThereIfHead(base, p, segment, index);
      if p + [segment] in index {
        DictatesFill(base, p, segment, data, index);
      }
      next := Step(node, segment, data, p);
      if p + [segment] !in old(index) {
        DictatesAdd(base, p, next, data, old(index));
      }
      rules := Put(base, p + [segment], data);
    }

    method Step(node: Node<D>, segment: string, data: Option<D>, ghost p: seq<string>) returns (next: Node<D>)
      requires Linked() && p in index && index[p].node == node
      requires segment in index[p].heads <==> p + [segment] in index
      modifies this`index, this`nodes, nodes
      ensures Linked() && next.segment == segment && fresh(nodes - old(nodes))
      ensures index == if p + [segment] in old(index) then FillSlot(old(index), p + [segment], data)
                       else AddSlot(old(index), p, next, data)
      ensures index[p + [segment]].node == next
    {
      var subNode := FindChild(node, segment, p);
      if subNode == null {
        next := AddChild(node, segment, data, p);
      } else {
        next := subNode;
        FillChild(subNode, data, p + [segment]);
      }
    }

    method FindChild(node: Node<D>, segment: string, ghost p: seq<string>) returns (child: Node?<D>)
      requires Linked() && p in index && index[p].node == node
      ensures child == null <==> segment !in index[p].heads
      ensures child != null ==> p + [segment] in index && index[p + [segment]].node == child && child.segment == segment
    {
      assert NodeOk(p);
      child := FindNode(segment, node.subNodes);
      assert forall i :: 0 <= i < |node.subNodes| ==> Chars(node.subNodes)[i] == node.subNodes[i].segment;
    }

    method AddChild(node: Node<D>, segment: string, data: Option<D>, ghost p: seq<string>) returns (next: Node<D>)
      requires Linked() && p in index && index[p].node == node && p + [segment] !in index
      modifies this`index, this`nodes, node
      ensures Linked() && next.segment == segment && fresh(next) && nodes == old(nodes) + {next}
      ensures index == AddSlot(old(index), p, next, data)
    {
      assert NodeOk(p);
      next := new Node(segment, data, p + [segment]);
      node.subNodes := node.subNodes + [next];
      assert Chars(node.subNodes) == index[p].heads + [segment];
      index, nodes := AddSlot(index, p, next, data), nodes + {next};
      forall o | o in index
        ensures index[o].node in nodes && index[o].node.path == o && NodeOk(o)
      {
        if o != p + [segment] {
          assert old(NodeOk(o));
        }
      }
    }

    method FillChild(child: Node<D>, data: Option<D>, ghost q: seq<string>)
      requires Linked() && q in index && index[q].node == child
      modifies this`index, child`data
      ensures Linked() && index == FillSlot(old(index), q, data)
    {
      assert NodeOk(q);
      if child.data.None? {
        child.data := data;
      }
      index := FillSlot(index, q, data);
      forall o | o in index
        ensures index[o].node in nodes && index[o].node.path == o && NodeOk(o)
      {
        assert old(NodeOk(o));
      }
    }
  }
}
