/** The doubly linked list: nodes with pointers, and one ghost sequence that they follow. */
module AdList {
  import opened Wrappers

  class Node {
    var prev: Node?
    var next: Node?
    const value: int

    constructor (v: int)
      ensures value == v && prev == null && next == null
    {
      value := v;
      prev := null;
      next := null;
    }
  }

  ghost predicate Distinct(s: seq<Node>) {
    forall i, j :: 0 <= i < j < |s| ==> s[i] != s[j]
  }

  /** The pointers of node `i` lead to its neighbours. */
  ghost predicate LinkAt(s: seq<Node>, i: int)
    requires 0 <= i < |s|
    reads s
  {
    s[i].prev == (if i == 0 then null else s[i - 1]) && s[i].next == (if i == |s| - 1 then null else s[i + 1])
  }

  ghost predicate Linked(s: seq<Node>)
    reads s
  {
    forall i :: 0 <= i < |s| ==> LinkAt(s, i)
  }

  lemma DistinctInsert(s: seq<Node>, node: Node, k: int)
    requires Distinct(s) && node !in s && 0 <= k <= |s|
    ensures Distinct(s[..k] + [node] + s[k..])
  {
    var t := s[..k] + [node] + s[k..];
    assert forall n :: 0 <= n < |t| ==> t[n] == if n < k then s[n] else if n == k then node else s[n - 1];
  }

  lemma DistinctRemove(s: seq<Node>, i: int)
    requires Distinct(s) && 0 <= i < |s|
    ensures Distinct(s[..i] + s[i + 1..]) && s[i] !in s[..i] + s[i + 1..]
  {
    var t := s[..i] + s[i + 1..];
    assert forall n :: 0 <= n < |t| ==> t[n] == if n < i then s[n] else s[n + 1];
  }

  lemma DistinctJoin(s: seq<Node>, t: seq<Node>)
    requires Distinct(s) && Distinct(t) && forall n :: n in s ==> n !in t
    ensures Distinct(s + t)
  {
    assert forall n :: 0 <= n < |s| ==> s[n] in s;
    assert forall n :: 0 <= n < |t| ==> t[n] in t;
  }

  /** The neighbours of a new node are made to point to it. */
  method SpliceIn(node: Node, ghost s: seq<Node>, ghost k: nat)
    requires Distinct(s) && Linked(s) && node !in s && k <= |s|
    requires node.prev == (if k == 0 then null else s[k - 1]) && node.next == (if k == |s| then null else s[k])
    modifies s
    ensures Linked(s[..k] + [node] + s[k..])
  {
    if node.prev != null {
      node.prev.next := node;
    }
    if node.next != null {
      node.next.prev := node;
    }
    ghost var t := s[..k] + [node] + s[k..];
    forall n | 0 <= n < |t| ensures LinkAt(t, n) {
      if n != k {
        var j := if n < k then n else n - 1;
        assert t[n] == s[j] && old(LinkAt(s, j));
        assert j != k - 1 ==> k == 0 || s[j] != s[k - 1];
        assert j != k ==> k == |s| || s[j] != s[k];
      }
    }
  }

  /** The neighbours of a node are connected to each other. */
  method SpliceOut(node: Node, ghost s: seq<Node>, ghost i: nat)
    requires Distinct(s) && Linked(s) && i < |s| && s[i] == node
    modifies node, node.prev, node.next
    ensures Linked(s[..i] + s[i + 1..]) && node.prev == null && node.next == null
  {
    assert LinkAt(s, i);
    if node.prev != null {
      node.prev.next := node.next;
    }
    if node.next != null {
      node.next.prev := node.prev;
    }
    node.next := null;
    node.prev := null;
    ghost var t := s[..i] + s[i + 1..];
    forall k | 0 <= k < |t| ensures LinkAt(t, k) {
      var j := if k < i then k else k + 1;
      assert t[k] == s[j] && old(LinkAt(s, j));
      assert s[j] != node;
      assert j != i - 1 ==> i == 0 || s[j] != s[i - 1];
      assert j != i + 1 ==> i + 1 == |s| || s[j] != s[i + 1];
    }
  }

  /** The last node of one chain and the first of another are connected. */
  method Connect(tail: Node?, head: Node, ghost s: seq<Node>, ghost t: seq<Node>)
    requires Distinct(s) && Distinct(t) && Linked(s) && Linked(t) && t != [] && head == t[0]
    requires tail == (if s == [] then null else s[|s| - 1]) && forall n :: n in s ==> n !in t
    modifies s, t
    ensures Linked(s + t)
  {
    head.prev := tail;
    if tail != null {
      tail.next := head;
    }
    ghost var u := s + t;
    forall i | 0 <= i < |u| ensures LinkAt(u, i) {
      if i < |s| {
        assert u[i] == s[i] && old(LinkAt(s, i)) && s[i] in s;
        assert i < |s| - 1 ==> s[i] != s[|s| - 1];
      } else {
        var j := i - |s|;
        assert u[i] == t[j] && old(LinkAt(t, j)) && t[j] in t;
        assert j > 0 ==> t[j] != t[0];
      }
    }
  }

  class List {
    var head: Node?
    var tail: Node?
    var len: int
    ghost var nodes: seq<Node>

    ghost predicate Valid()
      reads this, nodes
    {
      && len == |nodes| && Distinct(nodes) && Linked(nodes)
      && head == (if nodes == [] then null else nodes[0])
      && tail == (if nodes == [] then null else nodes[|nodes| - 1])
    }

    /** listCreate. */
    constructor ()
      ensures Valid() && nodes == []
    {
      head := null;
      tail := null;
      len := 0;
      nodes := [];
    }

    /** listLinkNodeHead. */
    method LinkNodeHead(node: Node)
      requires Valid() && node !in nodes
      modifies this, node, nodes
      ensures Valid() && nodes == [node] + old(nodes)
    {
      ghost var was := nodes;
      if len == 0 {
        head := node;
        tail := node;
        node.prev := null;
        node.next := null;
      } else {
        node.prev := null;
        node.next := head;
        head.prev := node;
        head := node;
      }
      nodes := [node] + nodes;
      len := len + 1;
      forall i | 0 <= i < |nodes| ensures LinkAt(nodes, i) {
        if i > 0 {
          assert old(LinkAt(was, i - 1));
          assert i > 1 ==> was[i - 1] != was[0];
        }
      }
    }

    /** listLinkNodeTail. */
    method LinkNodeTail(node: Node)
      requires Valid() && node !in nodes
      modifies this, node, nodes
      ensures Valid() && nodes == old(nodes) + [node]
    {
      ghost var was := nodes;
      if len == 0 {
        head := node;
        tail := node;
        node.prev := null;
        node.next := null;
      } else {
        node.prev := tail;
        node.next := null;
        tail.next := node;
        tail := node;
      }
      nodes := nodes + [node];
      len := len + 1;
      forall i | 0 <= i < |nodes| ensures LinkAt(nodes, i) {
        if i < |was| {
          assert old(LinkAt(was, i));
          assert i < |was| - 1 ==> was[i] != was[|was| - 1];
        }
      }
    }

    /** listUnlinkNode. */
    method UnlinkNode(node: Node, ghost i: nat)
      requires Valid() && i < |nodes| && nodes[i] == node
      modifies this, node, node.prev, node.next
      ensures Valid() && nodes == old(nodes)[..i] + old(nodes)[i + 1..]
      ensures node !in nodes && node.prev == null && node.next == null
    {
      hide Linked;
      ghost var was := nodes;
      assert LinkAt(nodes, i) by {
        LinkedAt(nodes, i);
      }
      if node.prev == null {
        head := node.next;
      }
      if node.next == null {
        tail := node.prev;
      }
      SpliceOut(node, nodes, i);
      len := len - 1;
      DistinctRemove(was, i);
      nodes := nodes[..i] + nodes[i + 1..];
    }

    /** listInsertNode. */
    method InsertNode(oldNode: Node, value: int, after: bool, ghost i: nat) returns (node: Node)
      requires Valid() && i < |nodes| && nodes[i] == oldNode
      modifies this, nodes
      ensures Valid() && fresh(node) && node.value == value
      ensures nodes == var k := if after then i + 1 else i; old(nodes)[..k] + [node] + old(nodes)[k..]
    {
      hide Linked;
      assert LinkAt(nodes, i) by {
        LinkedAt(nodes, i);
      }
      node := new Node(value);
      ghost var k := if after then i + 1 else i;
      if after {
        node.prev := oldNode;
        node.next := oldNode.next;
        if tail == oldNode {
          tail := node;
        }
      } else {
        node.next := oldNode;
        node.prev := oldNode.prev;
        if head == oldNode {
          head := node;
        }
      }
      Place(node, k);
    }

    /** The end of an insertion: pointers to the node, and the length. */
    method Place(node: Node, ghost k: nat)
      requires len == |nodes| && Distinct(nodes) && Linked(nodes) && node !in nodes && k <= |nodes| && nodes != []
      requires node.prev == (if k == 0 then null else nodes[k - 1])
      requires node.next == (if k == |nodes| then null else nodes[k])
      requires head == (if k == 0 then node else nodes[0])
      requires tail == (if k == |nodes| then node else nodes[|nodes| - 1])
      modifies this, nodes
      ensures Valid() && nodes == old(nodes)[..k] + [node] + old(nodes)[k..]
    {
      hide Linked;
      SpliceIn(node, nodes, k);
      len := len + 1;
      DistinctInsert(nodes, node, k);
      nodes := nodes[..k] + [node] + nodes[k..];
    }

    /** listRotateTailToHead. */
    method RotateTailToHead()
      requires Valid()
      modifies this, nodes
      ensures Valid()
      ensures nodes == if |old(nodes)| <= 1 then old(nodes)
                       else [old(nodes)[|old(nodes)| - 1]] + old(nodes)[..|old(nodes)| - 1]
    {
      if len <= 1 {
        return;
      }
      ghost var was := nodes;
      assert LinkAt(nodes, |nodes| - 1);
      var t := tail;
      tail := t.prev;
      tail.next := null;
      head.prev := t;
      t.prev := null;
      t.next := head;
      head := t;
      nodes := [t] + nodes[..|nodes| - 1];
      forall i | 0 <= i < |nodes| ensures LinkAt(nodes, i) {
        if i > 0 {
          assert nodes[i] == was[i - 1] && old(LinkAt(was, i - 1));
          assert i - 1 > 0 ==> was[i - 1] != was[0];
          assert i - 1 < |was| - 2 ==> was[i - 1] != was[|was| - 2];
          assert was[i - 1] != was[|was| - 1];
        }
      }
    }

    /** listRotateHeadToTail. */
    method RotateHeadToTail()
      requires Valid()
      modifies this, nodes
      ensures Valid() && nodes == if |old(nodes)| <= 1 then old(nodes) else old(nodes)[1..] + [old(nodes)[0]]
    {
      if len <= 1 {
        return;
      }
      ghost var was := nodes;
      assert LinkAt(nodes, 0);
      var h := head;
      head := h.next;
      head.prev := null;
      tail.next := h;
      h.next := null;
      h.prev := tail;
      tail := h;
      nodes := nodes[1..] + [h];
      forall i | 0 <= i < |nodes| ensures LinkAt(nodes, i) {
        if i < |nodes| - 1 {
          assert nodes[i] == was[i + 1] && old(LinkAt(was, i + 1));
          assert i > 0 ==> was[i + 1] != was[1];
          assert i + 1 < |was| - 1 ==> was[i + 1] != was[|was| - 1];
          assert was[i + 1] != was[0];
        }
      }
    }

    /** listJoin: the other list is left empty but valid. */
    method Join(o: List)
      requires Valid() && o.Valid() && o != this && (forall n :: n in nodes ==> n !in o.nodes)
      modifies this, o, nodes, o.nodes
      ensures Valid() && o.Valid() && nodes == old(nodes) + old(o.nodes) && o.nodes == []
    {
      if o.len == 0 {
        return;
      }
      hide Linked;
      Connect(tail, o.head, nodes, o.nodes);
      DistinctJoin(nodes, o.nodes);
      TakeOver(o);
      o.head := null;
      o.tail := null;
      o.len := 0;
      o.nodes := [];
      NothingLinked();
    }

    /** Head, tail and length after the chains were connected. */
    method TakeOver(o: List)
      requires o != this && len == |nodes| && o.len == |o.nodes| && o.nodes != [] && Distinct(nodes + o.nodes)
      requires Linked(nodes + o.nodes)
      requires head == (if nodes == [] then null else nodes[0])
      requires tail == (if nodes == [] then null else nodes[|nodes| - 1])
      requires o.head == o.nodes[0] && o.tail == o.nodes[|o.nodes| - 1]
      modifies this
      ensures Valid() && nodes == old(nodes) + old(o.nodes)
    {
      hide Linked, Distinct;
      if tail == null {
        head := o.head;
      }
      tail := o.tail;
      len := len + o.len;
      nodes := nodes + o.nodes;
    }

    /** listAddNodeTail. */
    method AddNodeTail(value: int) returns (node: Node)
      requires Valid()
      modifies this, nodes
      ensures Valid() && fresh(node) && node.value == value && nodes == old(nodes) + [node]
    {
      node := new Node(value);
      LinkNodeTail(node);
    }

    /** listNext, and then listDelNode on the returned node if it is to go. */
    method TakeNext(current: Node, forward: bool, dropIt: bool, ghost at: nat) returns (next: Node?)
      requires Valid() && at < |nodes| && nodes[at] == current
      modifies this, current, current.prev, current.next
      ensures Valid() && nodes == if dropIt then old(nodes)[..at] + old(nodes)[at + 1..] else old(nodes)
      ensures Within(nodes, old(nodes))
      ensures forward ==> next == if at == |old(nodes)| - 1 then null else old(nodes)[at + 1]
      ensures !forward ==> next == if at == 0 then null else old(nodes)[at - 1]
    {
      hide Linked;
      LinkedAt(nodes, at);
      next := if forward then current.next else current.prev;
      if dropIt {
        UnlinkNode(current, at);
      }
    }

    /** The node and its neighbours belong to the list. */
    lemma Neighbours(at: nat, list: seq<Node>)
      requires Valid() && at < |nodes| && Within(nodes, list)
      ensures nodes[at] in list && (nodes[at].prev == null || nodes[at].prev in list)
      ensures (nodes[at].next == null || nodes[at].next in list)
    {
      assert LinkAt(nodes, at);
    }

    /** One turn from the head: `kept` are the nodes already returned and kept. */
    method StepFromHead(current: Node, dropIt: bool, ghost list: seq<Node>, ghost kept: seq<Node>,
                        ghost i: nat) returns (next: Node?)
      requires Valid() && i < |list| && nodes == kept + list[i..] && current == list[i]
      modifies this, current, current.prev, current.next
      ensures Valid() && nodes == (if dropIt then kept else kept + [current]) + list[i + 1..]
      ensures Within(nodes, old(nodes))
      ensures next == if i + 1 < |list| then list[i + 1] else null
    {
      hide Linked, Distinct;
      MiddleHead(kept, list, i);
      next := TakeNext(current, true, dropIt, |kept|);
    }

    /** One turn from the head; `i` nodes have been returned. */
    method TurnFromHead(current: Node, drop: seq<bool>, i: nat, ghost list: seq<Node>) returns (next: Node?)
      requires Valid() && i < |list| && current == list[i] && nodes == Kept(list, drop, i) + list[i..]
      modifies this, current, current.prev, current.next
      ensures Valid() && nodes == Kept(list, drop, i + 1) + list[i + 1..] && Within(nodes, old(nodes))
      ensures next == if i + 1 < |list| then list[i + 1] else null
      ensures list[..i] + [current] == list[..i + 1]
    {
      hide Linked, Distinct, Kept;
      KeptNext(list, drop, i);
      next := StepFromHead(current, i < |drop| && drop[i], list, Kept(list, drop, i), i);
    }

    /** Iterating from the head while deleting some of the returned nodes: every node that was in the
        list is returned once, in order. */
    method IterateFromHead(drop: seq<bool>) returns (visited: seq<Node>)
      requires Valid()
      modifies this, nodes
      ensures Valid() && visited == old(nodes) && nodes == Kept(old(nodes), drop, |old(nodes)|)
    {
      hide Linked, Distinct, Kept, Within;
      ghost var list := nodes;
      WithinItself(list);
      var next, i := head, 0;
      visited := [];
      KeptStart(list, drop);
      while next != null
        invariant Valid() && 0 <= i <= |list| && visited == list[..i] && Within(nodes, list)
        invariant nodes == Kept(list, drop, i) + list[i..]
        invariant next == if i < |list| then list[i] else null
        decreases |list| - i
      {
        var current: Node := next;
        InMiddle(list, i, Kept(list, drop, i));
        Neighbours(|Kept(list, drop, i)|, list);
        ghost var before := nodes;
        next := TurnFromHead(current, drop, i, list);
        WithinBoth(nodes, before, list);
        visited := visited + [current];
        i := i + 1;
      }
      KeptEnd(list, drop, i);
    }

    method StepFromTail(current: Node, dropIt: bool, ghost list: seq<Node>, ghost keptBack: seq<Node>,
                        ghost n: nat) returns (next: Node?)
      requires Valid() && 1 <= n <= |list| && nodes == list[..n] + keptBack && current == list[n - 1]
      modifies this, current, current.prev, current.next
      ensures Valid() && nodes == list[..n - 1] + (if dropIt then keptBack else [current] + keptBack)
      ensures Within(nodes, old(nodes))
      ensures next == if n > 1 then list[n - 2] else null
    {
      hide Linked, Distinct;
      MiddleTail(list, n, keptBack);
      next := TakeNext(current, false, dropIt, n - 1);
    }

    /** One turn from the tail; `n` nodes are still to be returned. */
    method TurnFromTail(current: Node, drop: seq<bool>, i: nat, ghost list: seq<Node>,
                        ghost n: nat) returns (next: Node?)
      requires Valid() && 1 <= n && i + n == |list| && current == list[n - 1] && nodes == TailState(list, drop, i, n)
      modifies this, current, current.prev, current.next
      ensures Valid() && nodes == TailState(list, drop, i + 1, n - 1) && Within(nodes, old(nodes))
      ensures next == if n > 1 then list[n - 2] else null
      ensures Back(list, i) + [current] == Back(list, i + 1)
    {
      hide Linked, Distinct, Reversed, Kept;
      ghost var kept := Kept(Reversed(list), drop, i);
      BackAt(list, i, n);
      ReversedSnoc(kept, current);
      KeptNext(Reversed(list), drop, i);
      next := StepFromTail(current, i < |drop| && drop[i], list, Reversed(kept), n);
    }

    /** The same from the tail. */
    method IterateFromTail(drop: seq<bool>) returns (visited: seq<Node>)
      requires Valid()
      modifies this, nodes
      ensures Valid() && visited == Reversed(old(nodes))
      ensures nodes == Reversed(Kept(Reversed(old(nodes)), drop, |old(nodes)|))
    {
      hide Linked, Distinct, Reversed, Kept, Within, TailState, Back;
      ghost var list := nodes;
      var next, i := tail, 0;
      ghost var n := |list|;
      visited := [];
      WithinItself(list);
      TailStart(list, drop);
      while next != null
        invariant Valid() && 0 <= i && 0 <= n && i + n == |list| && visited == Back(list, i) && Within(nodes, list)
        invariant nodes == TailState(list, drop, i, n)
        invariant next == if n > 0 then list[n - 1] else null
        decreases n
      {
        var current: Node := next;
        TailAt(list, drop, i, n);
        Neighbours(n - 1, list);
        ghost var before := nodes;
        next := TurnFromTail(current, drop, i, list, n);
        WithinBoth(nodes, before, list);
        visited := visited + [current];
        i := i + 1;
        n := n - 1;
      }
      TailDone(list, drop, i, n);
    }

    /** listDup: the copy has the duplicated values in the same order, or there is none if a value
        cannot be duplicated. */
    method Dup(dup: int -> Option<int>) returns (copy: List?)
      requires Valid()
      ensures copy == null <==> exists i :: 0 <= i < |nodes| && dup(nodes[i].value).None?
      ensures copy != null ==> copy.Valid() && fresh(copy) && fresh(copy.nodes) && |copy.nodes| == |nodes|
      ensures copy != null ==> forall i :: 0 <= i < |nodes| ==> dup(nodes[i].value) == Some(copy.nodes[i].value)
    {
      hide Linked, Distinct, LinkAt;
      var c := new List();
      var next := head;
      ghost var i := 0;
      while next != null
        invariant 0 <= i <= |nodes| && next == (if i < |nodes| then nodes[i] else null)
        invariant c.Valid() && fresh(c) && fresh(c.nodes) && |c.nodes| == i
        invariant forall k :: 0 <= k < i ==> dup(nodes[k].value) == Some(c.nodes[k].value)
        decreases |nodes| - i
      {
        var node := next;
        LinkedAt(nodes, i);
        next := node.next;
        var value := dup(node.value);
        if value.None? {
          return null;
        }
        ghost var before := c.nodes;
        var added := c.AddNodeTail(value.value);
        assert c.nodes == before + [added];
        i := i + 1;
      }
      copy := c;
    }
  }

  ghost predicate Within(s: seq<object>, t: seq<object>) {
    forall o :: o in s ==> o in t
  }

  /** The list when `i` nodes were returned from the tail and `n` are left. */
  ghost function TailState(list: seq<Node>, drop: seq<bool>, i: int, n: int): seq<Node>
    requires 0 <= i && 0 <= n && i + n == |list|
  {
    list[..n] + Reversed(Kept(Reversed(list), drop, i))
  }

  ghost function Back(list: seq<Node>, i: int): seq<Node>
    requires 0 <= i <= |list|
  {
    Reversed(list)[..i]
  }

  lemma TailStart(list: seq<Node>, drop: seq<bool>)
    ensures TailState(list, drop, 0, |list|) == list && Back(list, 0) == []
  {
    hide Reversed, Kept;
    KeptStart(Reversed(list), drop);
    ReversedEmpty();
    assert list[..|list|] + [] == list;
  }

  lemma TailAt(list: seq<Node>, drop: seq<bool>, i: int, n: int)
    requires 0 <= i && 1 <= n && i + n == |list|
    ensures |TailState(list, drop, i, n)| >= n && TailState(list, drop, i, n)[n - 1] == list[n - 1]
  {
    hide Reversed, Kept;
  }

  lemma TailDone(list: seq<Node>, drop: seq<bool>, i: nat, n: nat)
    requires n == 0 && i == |list|
    ensures TailState(list, drop, i, n) == Reversed(Kept(Reversed(list), drop, |list|))
    ensures Back(list, i) == Reversed(list)
  {
    var k := Reversed(Kept(Reversed(list), drop, i));
    assert list[..0] + k == k;
  }

  lemma WithinItself(s: seq<object>)
    ensures Within(s, s)
  {
  }

  lemma WithinBoth(s: seq<object>, t: seq<object>, u: seq<object>)
    requires Within(s, t) && Within(t, u)
    ensures Within(s, u)
  {
  }

  /** The first `n` nodes without those marked to be dropped. */
  ghost function Kept(s: seq<Node>, drop: seq<bool>, n: int): seq<Node>
    requires 0 <= n <= |s|
  {
    if n == 0 then [] else Kept(s, drop, n - 1) + (if n - 1 < |drop| && drop[n - 1] then [] else [s[n - 1]])
  }

  ghost function Reversed(s: seq<Node>): (r: seq<Node>)
    ensures |r| == |s|
  {
    seq(|s|, i requires 0 <= i < |s| => s[|s| - 1 - i])
  }

  lemma ReversedSnoc(s: seq<Node>, n: Node)
    ensures Reversed(s + [n]) == [n] + Reversed(s)
  {
  }

  lemma ReversedEmpty()
    ensures Reversed([]) == []
  {
  }

  lemma MiddleHead(kept: seq<Node>, list: seq<Node>, i: nat)
    requires i < |list|
    ensures var s := kept + list[i..];
            s[|kept|] == list[i] && s == kept + [list[i]] + list[i + 1..] &&
                    s[..|kept|] + s[|kept| + 1..] == kept + list[i + 1..]
            && (i + 1 < |list| <==> |kept| != |s| - 1) && (i + 1 < |list| ==> s[|kept| + 1] == list[i + 1])
            && list[..i] + [list[i]] == list[..i + 1]
  {
  }

  lemma MiddleTail(list: seq<Node>, n: nat, keptBack: seq<Node>)
    requires 1 <= n <= |list|
    ensures var s := list[..n] + keptBack;
            s[n - 1] == list[n - 1] && s == list[..n - 1] + ([list[n - 1]] + keptBack) &&
                    s[..n - 1] + s[n..] == list[..n - 1] + keptBack
            && (n > 1 ==> s[n - 2] == list[n - 2])
  {
  }

  lemma BackAt(list: seq<Node>, i: nat, n: nat)
    requires i + n == |list| && n >= 1
    ensures Reversed(list)[i] == list[n - 1] && Reversed(list)[..i] + [list[n - 1]] == Reversed(list)[..i + 1]
  {
  }

  lemma InMiddle(list: seq<Node>, i: nat, kept: seq<Node>)
    requires i < |list|
    ensures (kept + list[i..])[|kept|] == list[i] && list[..i] + [list[i]] == list[..i + 1]
  {
  }

  lemma KeptStart(list: seq<Node>, drop: seq<bool>)
    ensures Kept(list, drop, 0) == [] && [] + list[0..] == list && list[..0] == []
  {
  }

  lemma KeptNext(list: seq<Node>, drop: seq<bool>, i: nat)
    requires i < |list|
    ensures Kept(list, drop, i + 1)
            == if i < |drop| && drop[i] then Kept(list, drop, i) else Kept(list, drop, i) + [list[i]]
  {
    assert Kept(list, drop, i) + [] == Kept(list, drop, i);
  }

  lemma KeptEnd(list: seq<Node>, drop: seq<bool>, i: nat)
    requires i == |list|
    ensures Kept(list, drop, i) + list[i..] == Kept(list, drop, |list|) && list[..i] == list
  {
  }

  lemma LinkedAt(s: seq<Node>, i: int)
    requires Linked(s) && 0 <= i < |s|
    ensures LinkAt(s, i)
  {
  }

  lemma NothingLinked()
    ensures Linked([])
  {
  }
}
