/** The doubly linked list: nodes in the heap that refine a sequence. */
module Adlist {
  import opened Wrappers

  class ListNode<T> {
    var prev: ListNode?<T>
    var next: ListNode?<T>
    var value: T

    /** listInitNode. */
    constructor (value: T)
      ensures this.value == value && prev == null && next == null
    {
      this.value := value;
      prev, next := null, null;
    }
  }

  /** The node at an index of the sequence, null outside. */
  function At<T>(nodes: seq<ListNode<T>>, i: int): ListNode?<T> {
    if 0 <= i < |nodes| then nodes[i] else null
  }

  ghost predicate Distinct<T>(nodes: seq<ListNode<T>>) {
    forall i, j | 0 <= i < j < |nodes| :: nodes[i] != nodes[j]
  }

  ghost function Values<T>(nodes: seq<ListNode<T>>): (v: seq<T>)
    reads nodes`value
    ensures |v| == |nodes| && forall i | 0 <= i < |v| :: v[i] == nodes[i].value
  {
    if nodes == [] then [] else Values(nodes[..|nodes| - 1]) + [nodes[|nodes| - 1].value]
  }

  lemma ValuesAppend<T>(a: seq<ListNode<T>>, b: seq<ListNode<T>>)
    ensures Values(a + b) == Values(a) + Values(b)
  {
  }

  lemma ValuesOne<T>(n: ListNode<T>)
    ensures Values([n]) == [n.value]
  {
  }

  ghost predicate BackLinks<T>(nodes: seq<ListNode<T>>)
    reads nodes`prev
  {
    forall i | 0 < i < |nodes| :: nodes[i].prev == nodes[i - 1]
  }

  ghost predicate ForwardLinks<T>(nodes: seq<ListNode<T>>)
    reads nodes`next
  {
    forall i | 0 < i < |nodes| :: nodes[i - 1].next == nodes[i]
  }

  /** Nodes that point to their neighbours; the first one points back to `before`, the last one on to `after`. */
  ghost predicate Segment<T>(before: ListNode?<T>, nodes: seq<ListNode<T>>, after: ListNode?<T>)
    reads nodes`prev, nodes`next
  {
    && BackLinks(nodes) && ForwardLinks(nodes)
    && (nodes != [] ==> nodes[0].prev == before && nodes[|nodes| - 1].next == after)
  }

  function First<T>(nodes: seq<ListNode<T>>, otherwise: ListNode?<T>): ListNode?<T> {
    if nodes == [] then otherwise else nodes[0]
  }

  function Last<T>(nodes: seq<ListNode<T>>, otherwise: ListNode?<T>): ListNode?<T> {
    if nodes == [] then otherwise else nodes[|nodes| - 1]
  }

  /** Two segments side by side are one segment. */
  lemma Glue<T>(before: ListNode?<T>, a: seq<ListNode<T>>, b: seq<ListNode<T>>, after: ListNode?<T>)
    requires Segment(before, a, First(b, after)) && Segment(Last(a, before), b, after)
    ensures Segment(before, a + b, after)
  {
    var s := a + b;
    forall i | 0 < i < |s|
      ensures s[i].prev == s[i - 1] && s[i - 1].next == s[i]
    {
      if i < |a| {
        assert a[i].prev == a[i - 1] && a[i - 1].next == a[i];
      } else if i > |a| {
        assert b[i - |a|].prev == b[i - |a| - 1] && b[i - |a| - 1].next == b[i - |a|];
      }
    }
    assert a == [] ==> s == b;
    assert b == [] ==> s == a;
  }

  lemma Cut<T>(before: ListNode?<T>, a: seq<ListNode<T>>, b: seq<ListNode<T>>, after: ListNode?<T>)
    requires Segment(before, a + b, after)
    ensures Segment(before, a, First(b, after)) && Segment(Last(a, before), b, after)
  {
    var s := a + b;
    assert forall i | 0 <= i < |a| :: s[i] == a[i];
    forall i | 0 < i < |b|
      ensures b[i].prev == b[i - 1] && b[i - 1].next == b[i]
    {
      assert s[|a| + i] == b[i] && s[|a| + i - 1] == b[i - 1];
    }
    assert b != [] ==> s[|a|] == b[0] && s[|s| - 1] == b[|b| - 1];
    assert a != [] && b != [] ==> s[|a| - 1].next == s[|a|] && s[|a|].prev == s[|a| - 1];
  }

  lemma Single<T>(node: ListNode<T>)
    ensures Segment(node.prev, [node], node.next)
  {
  }

  lemma DistinctWith<T>(a: seq<ListNode<T>>, n: ListNode<T>, b: seq<ListNode<T>>)
    requires Distinct(a + b) && n !in a && n !in b
    ensures Distinct(a + [n] + b)
  {
    var s, t := a + b, a + [n] + b;
    forall i, j | 0 <= i < j < |t|
      ensures t[i] != t[j]
    {
      if i != |a| && j != |a| {
        assert s[if i < |a| then i else i - 1] != s[if j < |a| then j else j - 1];
      }
    }
  }

  lemma DistinctWithout<T>(a: seq<ListNode<T>>, n: ListNode<T>, b: seq<ListNode<T>>)
    requires Distinct(a + [n] + b)
    ensures Distinct(a + b) && n !in a && n !in b
  {
    var s, t := a + b, a + [n] + b;
    assert t[|a|] == n;
    forall i, j | 0 <= i < j < |s|
      ensures s[i] != s[j]
    {
      assert t[if i < |a| then i else i + 1] != t[if j < |a| then j else j + 1];
    }
    forall i | 0 <= i < |s|
      ensures s[i] != n
    {
      assert t[if i < |a| then i else i + 1] != t[|a|];
    }
    assert forall i | 0 <= i < |a| :: s[i] == a[i];
    assert forall i | 0 <= i < |b| :: s[|a| + i] == b[i];
  }

  lemma DistinctAt<T>(nodes: seq<ListNode<T>>, k: nat)
    requires Distinct(nodes) && k < |nodes|
    ensures forall i | 0 <= i < |nodes| && i != k :: nodes[i] != nodes[k]
  {
  }

  lemma NewHead<T>(was: seq<ListNode<T>>, node: ListNode<T>)
    requires Distinct(was) && node !in was
    ensures Distinct([node] + was)
  {
    assert [] + was == was && [] + [node] + was == [node] + was;
    DistinctWith([], node, was);
  }

  lemma NewTail<T>(was: seq<ListNode<T>>, node: ListNode<T>)
    requires Distinct(was) && node !in was
    ensures Distinct(was + [node])
  {
    assert was + [] == was && was + [node] + [] == was + [node];
    DistinctWith(was, node, []);
  }

  class List<T> {
    var head: ListNode?<T>
    var tail: ListNode?<T>
    var len: nat
    ghost var nodes: seq<ListNode<T>>

    ghost predicate Valid()
      reads this, nodes`prev, nodes`next
    {
      && len == |nodes| && Distinct(nodes) && Segment(null, nodes, null)
      && head == First(nodes, null) && tail == Last(nodes, null)
    }

    ghost function Contents(): seq<T>
      reads this, nodes`value
    {
      Values(nodes)
    }

    constructor ()
      ensures Valid() && nodes == [] && Contents() == []
    {
      head, tail, len, nodes := null, null, 0, [];
    }

    method ListLinkNodeHead(node: ListNode<T>)
      requires Valid() && node !in nodes
      modifies this, nodes`prev, node`prev, node`next
      ensures Valid() && nodes == [node] + old(nodes)
      ensures Contents() == [node.value] + old(Contents())
    {
      hide Values;
      ghost var was := nodes;
      NewHead(was, node);
      ValuesAppend([node], was);
      ValuesOne(node);
      if len == 0 {
        head, tail := node, node;
        node.prev, node.next := null, null;
      } else {
        node.prev := null;
        node.next := head;
        head.prev := node;
        head := node;
        assert BackLinks(was) && ForwardLinks(was);
      }
      hide Distinct, BackLinks, ForwardLinks;
      len := len + 1;
      nodes := [node] + nodes;
      Single(node);
      assert was == [] ==> [node] + was == [node];
      if was != [] {
        Glue(null, [node], was, null);
      }
    }

    method ListAddNodeHead(value: T)
      requires Valid()
      modifies this, nodes`prev
      ensures Valid() && |nodes| == old(|nodes|) + 1 && nodes[1..] == old(nodes) && fresh(nodes[0])
      ensures Contents() == [value] + old(Contents())
    {
      hide Distinct, Segment, Values;
      var node := new ListNode(value);
      ListLinkNodeHead(node);
    }

    method ListLinkNodeTail(node: ListNode<T>)
      requires Valid() && node !in nodes
      modifies this, nodes`next, node`prev, node`next
      ensures Valid() && nodes == old(nodes) + [node]
      ensures Contents() == old(Contents()) + [node.value]
    {
      hide Values;
      ghost var was := nodes;
      NewTail(was, node);
      ValuesAppend(was, [node]);
      ValuesOne(node);
      if len == 0 {
        head, tail := node, node;
        node.prev, node.next := null, null;
      } else {
        node.prev := tail;
        node.next := null;
        tail.next := node;
        tail := node;
        assert BackLinks(was) && ForwardLinks(was);
      }
      hide Distinct, BackLinks, ForwardLinks;
      len := len + 1;
      nodes := nodes + [node];
      Single(node);
      assert was == [] ==> was + [node] == [node];
      if was != [] {
        Glue(null, was, [node], null);
      }
    }

    method ListAddNodeTail(value: T)
      requires Valid()
      modifies this, nodes`next
      ensures Valid() && |nodes| == old(|nodes|) + 1 && nodes[..old(|nodes|)] == old(nodes) && fresh(nodes[old(|nodes|)])
      ensures Contents() == old(Contents()) + [value]
    {
      hide Distinct, Segment, Values;
      var node := new ListNode(value);
      ListLinkNodeTail(node);
    }

    /** The pointers of a new node beside `oldNode`, and the ends of the list. */
    method PlaceNode(node: ListNode<T>, oldNode: ListNode<T>, ghost at: nat, after: bool)
      requires Valid() && at < |nodes| && nodes[at] == oldNode && node !in nodes
      modifies node`prev, node`next, this`head, this`tail
      ensures node.prev == At(nodes, if after then at else at - 1) && node.next == At(nodes, if after then at + 1 else at)
      ensures head == if !after && at == 0 then node else old(head)
      ensures tail == if after && at == |nodes| - 1 then node else old(tail)
      ensures Segment(null, nodes, null)
    {
      Neighbours(nodes, at);
      FirstLast(nodes, at);
      hide Distinct, Segment;
      if after {
        node.prev := oldNode;
        node.next := oldNode.next;
        if tail == oldNode {
          tail := node;
        }
      } else {
        node.next := oldNode;
        node.prev := oldNode.prev;
        if head == oldNode {
          head := node;
        }
      }
    }

    /** The part of listInsertNode that sets pointers; `a` and `b` are the nodes before and behind the new one. */
    method LinkBetween(node: ListNode<T>, oldNode: ListNode<T>, ghost at: nat, after: bool, ghost a: seq<ListNode<T>>, ghost b: seq<ListNode<T>>)
      requires Valid() && at < |nodes| && nodes[at] == oldNode && node !in nodes && Distinct(a + [node] + b)
      requires var p := if after then at + 1 else at; a == nodes[..p] && b == nodes[p..]
      modifies this`head, this`tail, nodes`prev, nodes`next, node`prev, node`next
      ensures Segment(null, a + [node] + b, null)
      ensures head == First(a + [node] + b, null) && tail == Last(a + [node] + b, null)
    {
      hide *;
      Parts(this);
      assert nodes == a + b;
      BesideEnds(nodes, node, at, after, a, b);
      PlaceNode(node, oldNode, at, after);
      Cut(null, a, b, null);
      LinkNeighbours(a, node, b);
    }

    /** The part of listInsertNode behind the allocation. */
    method LinkBeside(node: ListNode<T>, oldNode: ListNode<T>, ghost at: nat, after: bool)
      requires Valid() && at < |nodes| && nodes[at] == oldNode && node !in nodes
      modifies this, nodes`prev, nodes`next, node`prev, node`next
      ensures Valid()
      ensures var p := if after then at + 1 else at; nodes == old(nodes)[..p] + [node] + old(nodes)[p..]
    {
      hide *;
      Parts(this);
      ghost var p := if after then at + 1 else at;
      ghost var a, b := nodes[..p], nodes[p..];
      assert nodes == a + b;
      DistinctWith(a, node, b);
      LinkBetween(node, oldNode, at, after, a, b);
      len := len + 1;
      nodes := a + [node] + b;
      Whole(this);
    }

    method ListInsertNode(oldNode: ListNode<T>, ghost at: nat, value: T, after: bool) returns (node: ListNode<T>)
      requires Valid() && at < |nodes| && nodes[at] == oldNode
      modifies this, nodes`prev, nodes`next
      ensures Valid()
      ensures fresh(node) && var p := if after then at + 1 else at; nodes == old(nodes)[..p] + [node] + old(nodes)[p..]
      ensures var p := if after then at + 1 else at; Contents() == old(Contents())[..p] + [value] + old(Contents())[p..]
    {
      hide *;
      node := new ListNode(value);
      ghost var p := if after then at + 1 else at;
      assert nodes == nodes[..p] + nodes[p..];
      ContentsAre(this);
      InsertedValues(nodes[..p], node, nodes[p..]);
      LinkBeside(node, oldNode, at, after);
      ContentsAre(this);
    }

    /** listUnlinkNode; `at` is where the node is. */
    method ListUnlinkNode(node: ListNode<T>, ghost at: nat)
      requires Valid() && at < |nodes| && nodes[at] == node
      modifies this, node`prev, node`next, Only(node.prev)`next, Only(node.next)`prev
      ensures Valid() && nodes == old(nodes)[..at] + old(nodes)[at + 1..]
      ensures Contents() == old(Contents())[..at] + old(Contents())[at + 1..]
      ensures node.prev == null && node.next == null
    {
      hide *;
      Parts(this);
      ghost var a, b := nodes[..at], nodes[at + 1..];
      assert nodes == a + [node] + b;
      UnlinkedEnds(a, node, b);
      UnlinkedValues(a, node, b);
      Isolate(a, node, b);
      DistinctWithout(a, node, b);
      var before, after := node.prev, node.next;
      if before == null {
        head := after;
      }
      if after == null {
        tail := before;
      }
      len := len - 1;
      nodes := a + b;
      assert head == First(nodes, null) && tail == Last(nodes, null);
      LinkAround(a, node, b);
      Whole(this);
    }

    /** listRotateTailToHead. */
    method ListRotateTailToHead()
      requires Valid()
      modifies this, nodes`prev, nodes`next
      ensures Valid() && nodes == LastFirst(old(nodes)) && Contents() == LastFirst(old(Contents()))
    {
      hide *;
      Parts(this);
      ShortRotation(nodes);
      ShortRotation(Contents());
      if len <= 1 {
        return;
      }
      ghost var a, last := nodes[..len - 1], nodes[len - 1];
      RotatedParts(nodes, a, last);
      TailParts(a, last);
      ghost var was := nodes;
      nodes := [last] + a;
      head, tail := MoveLast(a, head, tail);
      Whole(this);
      RotatedValues(was, a, last);
    }

    /** listRotateHeadToTail. */
    method ListRotateHeadToTail()
      requires Valid()
      modifies this, nodes`prev, nodes`next
      ensures Valid() && nodes == FirstLastly(old(nodes)) && Contents() == FirstLastly(old(Contents()))
    {
      hide *;
      Parts(this);
      ShortRotation(nodes);
      ShortRotation(Contents());
      if len <= 1 {
        return;
      }
      ghost var b, first := nodes[1..], nodes[0];
      RotatedBack(nodes, b, first);
      HeadParts(b, first);
      ghost var was := nodes;
      nodes := b + [first];
      head, tail := MoveFirst(b, head, tail);
      Whole(this);
      RotatedBackValues(was, b, first);
    }

    /** listJoin: the nodes of `o` are moved to the end of this list, and `o` is left empty. */
    method ListJoin(o: List<T>)
      requires Valid() && o.Valid() && this != o && forall n | n in nodes :: n !in o.nodes
      modifies this, o, nodes`next, o.nodes`prev
      ensures Valid() && o.Valid() && o.nodes == []
      ensures nodes == old(nodes) + old(o.nodes) && Contents() == old(Contents()) + old(o.Contents())
    {
      hide *;
      Parts(this);
      Parts(o);
      ghost var a, b := nodes, o.nodes;
      ValuesAppend(a, b);
      JoinedParts(a, b);
      if o.len != 0 {
        var first := o.head;
        OnlyIn(tail, a);
        LinkLists(a, b, tail, first);
        if tail == null {
          head := first;
        }
        tail := o.tail;
        len := len + o.len;
        nodes := a + b;
        o.head, o.tail := null, null;
        o.len := 0;
        o.nodes := [];
      }
      Nothing(o.nodes);
      Whole(this);
      Whole(o);
    }

    /** listIndex: negative indexes count from the tail. */
    method ListIndex(index: int) returns (n: ListNode?<T>)
      requires Valid()
      ensures n == At(nodes, if index < 0 then |nodes| + index else index)
    {
      hide Distinct, Values;
      var i: nat := if index < 0 then -index - 1 else index;
      if index < 0 {
        n := tail;
        ghost var k := 0;
        while i > 0 && n != null
          invariant i + k == -index - 1 && n == At(nodes, |nodes| - 1 - k)
        {
          Neighbours(nodes, |nodes| - 1 - k);
          n := n.prev;
          i, k := i - 1, k + 1;
        }
      } else {
        n := head;
        ghost var k := 0;
        while i > 0 && n != null
          invariant i + k == index && n == At(nodes, k)
        {
          Neighbours(nodes, k);
          n := n.next;
          i, k := i - 1, k + 1;
        }
      }
    }

    /** listSearchKey: the first node whose value matches the key. */
    method ListSearchKey(key: T, same: (T, T) -> bool) returns (n: ListNode?<T>, ghost i: nat)
      requires Valid()
      ensures i <= |nodes| && n == At(nodes, i) && forall j | 0 <= j < i :: !same(nodes[j].value, key)
      ensures n == null ==> i == |nodes|
      ensures n != null ==> same(n.value, key)
    {
      hide Distinct, Segment, Values;
      var iter := new ListIter(this, FROM_HEAD);
      i := 0;
      n := iter.ListNext(this, 0);
      while n != null
        invariant i <= |nodes| && n == At(nodes, i) && iter.direction == FROM_HEAD
        invariant n != null ==> iter.next == At(nodes, i + 1)
        invariant forall j | 0 <= j < i :: !same(nodes[j].value, key)
        decreases |nodes| - i
      {
        if same(n.value, key) {
          return;
        }
        i := i + 1;
        n := iter.ListNext(this, i);
      }
    }

    /** listDup: `dup` copies a value or fails; without a copying function it is the identity. */
    method ListDup(dup: T -> Option<T>) returns (copy: List?<T>)
      requires Valid()
      ensures copy == null ==> exists n :: n in nodes && dup(n.value) == None
      ensures copy != null ==>
        && copy.Valid() && fresh(copy) && (forall k | 0 <= k < |copy.nodes| :: fresh(copy.nodes[k]))
        && |copy.nodes| == |nodes| && forall k | 0 <= k < |nodes| :: dup(nodes[k].value) == Some(copy.nodes[k].value)
    {
      hide *;
      var c := new List<T>();
      var iter := new ListIter(this, FROM_HEAD);
      ghost var i := 0;
      CopiedNone(nodes, dup);
      var node := iter.ListNext(this, 0);
      while node != null
        invariant Valid() && c.Valid() && fresh(c) && fresh(iter) && iter.direction == FROM_HEAD
        invariant node == At(nodes, i) && i <= |nodes| && (node != null ==> iter.next == At(nodes, i + 1))
        invariant (forall k | 0 <= k < |c.nodes| :: fresh(c.nodes[k])) && Copied(nodes, c.nodes, i, dup)
        decreases |nodes| - i
      {
        AtInside(nodes, i);
        var value := dup(node.value);
        if value == None {
          return null;
        }
        CopyNode(c, value.value, nodes, i, dup);
        i := i + 1;
        node := iter.ListNext(this, i);
      }
      AtInside(nodes, i);
      CopiedAll(nodes, c.nodes, dup);
      return c;
    }

    /** What a caller does with the node it is given: it may delete it. The iterator has moved on before. */
    method VisitNode(node: ListNode<T>, delete: bool, ghost doomed: nat -> bool, ghost kept: seq<ListNode<T>>,
        ghost was: seq<ListNode<T>>, ghost i: nat, ghost visited: seq<ListNode<T>>) returns (ghost kept1: seq<ListNode<T>>)
      requires Valid() && Visiting(nodes, kept, was, i, visited, doomed) && Within(nodes, was)
      requires node == At(nodes, |kept|) && delete == doomed(i)
      modifies this, was`prev, was`next
      ensures Valid() && Visiting(nodes, kept1, was, i + 1, visited + [node], doomed) && Within(nodes, was)
      ensures i < |was| && At(nodes, |kept1|) == old(At(nodes, |kept| + 1))
    {
      hide *;
      VisitAt(nodes, kept, was, i, visited, doomed);
      kept1 := kept;
      if delete {
        Unvisited(nodes, |kept|, was);
        Around(this, |kept|, was);
        ListUnlinkNode(node, |kept|);
      } else {
        kept1 := kept + [node];
      }
    }

    /** An iteration from the head that deletes some of the nodes it is given, those at the places that are
        `doomed`: every node is visited once, in order, and exactly the nodes at the other places remain. */
    method VisitFromHead(doomed: nat -> bool) returns (visited: seq<ListNode<T>>)
      requires Valid()
      modifies this, nodes`prev, nodes`next
      ensures Valid() && visited == old(nodes) && nodes == Spared(old(nodes), doomed, 0)
      ensures Contents() == Spared(old(Contents()), doomed, 0)
    {
      hide *;
      ghost var was := nodes;
      ghost var kept: seq<ListNode<T>> := [];
      var i := 0;
      visited := [];
      VisitStarts(this, doomed);
      var iter := new ListIter(this, FROM_HEAD);
      var node := iter.ListNext(this, 0);
      while node != null
        invariant Valid() && fresh(iter) && iter.direction == FROM_HEAD && i <= |was|
        invariant Visiting(nodes, kept, was, i, visited, doomed) && Within(nodes, was)
        invariant node == At(nodes, |kept|) && (node != null ==> iter.next == At(nodes, |kept| + 1))
        decreases |was| - i
      {
        kept := VisitNode(node, doomed(i), doomed, kept, was, i, visited);
        visited := visited + [node];
        i := i + 1;
        node := iter.ListNext(this, |kept|);
      }
      VisitEnds(nodes, kept, was, i, visited, doomed);
      SparedContents(this, was, doomed);
    }

    method VisitNodeBack(node: ListNode<T>, delete: bool, ghost doomed: nat -> bool, ghost kept: seq<ListNode<T>>,
        ghost was: seq<ListNode<T>>, ghost r: nat, ghost visited: seq<ListNode<T>>) returns (ghost kept1: seq<ListNode<T>>)
      requires Valid() && VisitingBack(nodes, kept, was, r, visited, doomed) && Within(nodes, was)
      requires r > 0 && node == At(nodes, r - 1) && delete == doomed(r - 1)
      modifies this, was`prev, was`next
      ensures Valid() && VisitingBack(nodes, kept1, was, r - 1, visited + [node], doomed) && Within(nodes, was)
      ensures At(nodes, r - 2) == old(At(nodes, r - 2))
    {
      hide *;
      VisitAtBack(nodes, kept, was, r, visited, doomed);
      kept1 := kept;
      if delete {
        Unvisited(nodes, r - 1, was);
        Around(this, r - 1, was);
        ListUnlinkNode(node, r - 1);
      } else {
        kept1 := [node] + kept;
      }
    }

    /** The same from the tail: every node is visited once, in the opposite order. */
    method VisitFromTail(doomed: nat -> bool) returns (visited: seq<ListNode<T>>)
      requires Valid()
      modifies this, nodes`prev, nodes`next
      ensures Valid() && visited == Reversed(old(nodes)) && nodes == Spared(old(nodes), doomed, 0)
      ensures Contents() == Spared(old(Contents()), doomed, 0)
    {
      hide *;
      ghost var was := nodes;
      ghost var kept: seq<ListNode<T>> := [];
      visited := [];
      VisitStartsBack(this, doomed);
      var r: int := len;
      var iter := new ListIter(this, FROM_TAIL);
      var node := iter.ListNext(this, r - 1);
      while node != null
        invariant Valid() && fresh(iter) && iter.direction == FROM_TAIL && 0 <= r <= |was|
        invariant VisitingBack(nodes, kept, was, r, visited, doomed) && Within(nodes, was)
        invariant node == At(nodes, r - 1) && (node != null ==> r > 0 && iter.next == At(nodes, r - 2))
        decreases r
      {
        kept := VisitNodeBack(node, doomed(r - 1), doomed, kept, was, r, visited);
        visited := visited + [node];
        r := r - 1;
        node := iter.ListNext(this, r - 1);
        NotBelow(nodes, r - 1);
      }
      VisitEndsBack(nodes, kept, was, r, visited, doomed);
      SparedContents(this, was, doomed);
    }
  }

  /** The nodes of `was` from `r` on have been visited, and `kept` is what is left of them. */
  ghost predicate VisitingBack<T>(nodes: seq<ListNode<T>>, kept: seq<ListNode<T>>, was: seq<ListNode<T>>, r: nat,
      visited: seq<ListNode<T>>, doomed: nat -> bool)
  {
    r <= |was| && nodes == was[..r] + kept && visited == Reversed(was[r..]) && kept == Spared(was[r..], doomed, r)
  }

  function Reversed<T>(s: seq<T>): (r: seq<T>)
    ensures |r| == |s| && forall i | 0 <= i < |s| :: r[i] == s[|s| - 1 - i]
  {
    if s == [] then [] else Reversed(s[1..]) + [s[0]]
  }

  lemma NotBelow<T>(nodes: seq<ListNode<T>>, i: int)
    ensures At(nodes, i) != null ==> i >= 0
  {
  }

  lemma VisitStartsBack<T>(l: List<T>, doomed: nat -> bool)
    requires l.Valid()
    ensures VisitingBack(l.nodes, [], l.nodes, |l.nodes|, [], doomed) && Within(l.nodes, l.nodes) && l.len == |l.nodes|
    ensures l.Contents() == Values(l.nodes)
    ensures At(l.nodes, |l.nodes| - 1) != null ==> |l.nodes| > 0
  {
    assert l.nodes[..|l.nodes|] + [] == l.nodes && l.nodes[|l.nodes|..] == [];
  }

  lemma {:induction false} SparedFirst<X>(x: X, s: seq<X>, doomed: nat -> bool, at: nat)
    ensures Spared([x] + s, doomed, at) == (if doomed(at) then [] else [x]) + Spared(s, doomed, at + 1)
    decreases |s|
  {
    hide Spared;
    if s == [] {
      SparedAlone(x, doomed, at);
      assert [x] + s == [x];
    } else {
      var front, last := s[..|s| - 1], s[|s| - 1];
      SparedFirst(x, front, doomed, at);
      assert s == front + [last] && [x] + s == ([x] + front) + [last];
      SparedOne([x] + front, last, doomed, at);
      SparedOne(front, last, doomed, at + 1);
    }
  }

  lemma SparedAlone<X>(x: X, doomed: nat -> bool, at: nat)
    ensures Spared([x], doomed, at) == if doomed(at) then [] else [x]
    ensures Spared<X>([], doomed, at + 1) == []
  {
    SparedOne([], x, doomed, at);
    assert [] + [x] == [x];
  }

  lemma VisitAtBack<T>(nodes: seq<ListNode<T>>, kept: seq<ListNode<T>>, was: seq<ListNode<T>>, r: nat,
      visited: seq<ListNode<T>>, doomed: nat -> bool)
    requires VisitingBack(nodes, kept, was, r, visited, doomed) && r > 0
    ensures r - 1 < |was| && r - 1 < |nodes| && At(nodes, r - 1) == nodes[r - 1] == was[r - 1]
    ensures !doomed(r - 1) ==> VisitingBack(nodes, [was[r - 1]] + kept, was, r - 1, visited + [was[r - 1]], doomed)
    ensures doomed(r - 1) ==>
              VisitingBack(nodes[..r - 1] + nodes[r..], kept, was, r - 1, visited + [was[r - 1]], doomed)
    ensures At(nodes, r - 2) == At(nodes[..r - 1] + nodes[r..], r - 2)
  {
    var n := was[r - 1];
    BackParts(nodes, kept, was, r);
    SparedFirst(n, was[r..], doomed, r - 1);
    ReversedFirst(n, was[r..]);
    hide Spared, Reversed, At;
  }

  lemma ReversedFirst<T>(x: T, s: seq<T>)
    ensures Reversed([x] + s) == Reversed(s) + [x]
  {
    assert ([x] + s)[1..] == s;
  }

  lemma BackParts<T>(nodes: seq<ListNode<T>>, kept: seq<ListNode<T>>, was: seq<ListNode<T>>, r: nat)
    requires 0 < r <= |was| && nodes == was[..r] + kept
    ensures was[r - 1..] == [was[r - 1]] + was[r..]
    ensures nodes == was[..r - 1] + ([was[r - 1]] + kept) && nodes[..r - 1] + nodes[r..] == was[..r - 1] + kept
    ensures At(nodes, r - 1) == nodes[r - 1] == was[r - 1]
    ensures At(nodes, r - 2) == At(nodes[..r - 1] + nodes[r..], r - 2)
  {
  }

  lemma VisitEndsBack<T>(nodes: seq<ListNode<T>>, kept: seq<ListNode<T>>, was: seq<ListNode<T>>, r: nat,
      visited: seq<ListNode<T>>, doomed: nat -> bool)
    requires VisitingBack(nodes, kept, was, r, visited, doomed) && At(nodes, r - 1) == null
    ensures visited == Reversed(was) && nodes == Spared(was, doomed, 0)
  {
    assert r == 0 && was[0..] == was && nodes == kept;
    hide Spared, Reversed;
  }

  /** The first `i` values have been copied. */
  ghost predicate Copied<T>(nodes: seq<ListNode<T>>, copy: seq<ListNode<T>>, i: nat, dup: T -> Option<T>)
    reads nodes`value, copy`value
  {
    |copy| == i <= |nodes| && forall k | 0 <= k < i :: dup(nodes[k].value) == Some(copy[k].value)
  }

  lemma CopiedAll<T>(nodes: seq<ListNode<T>>, copy: seq<ListNode<T>>, dup: T -> Option<T>)
    requires Copied(nodes, copy, |nodes|, dup)
    ensures |copy| == |nodes| && forall k | 0 <= k < |nodes| :: dup(nodes[k].value) == Some(copy[k].value)
  {
  }

  lemma CopiedNone<T>(nodes: seq<ListNode<T>>, dup: T -> Option<T>)
    ensures Copied(nodes, [], 0, dup)
  {
  }

  method CopyNode<T>(c: List<T>, value: T, ghost nodes: seq<ListNode<T>>, ghost i: nat, ghost dup: T -> Option<T>)
    requires c.Valid() && i < |nodes| && Copied(nodes, c.nodes, i, dup) && dup(nodes[i].value) == Some(value)
    modifies c, c.nodes`next
    ensures c.Valid() && Copied(nodes, c.nodes, i + 1, dup)
    ensures |c.nodes| == |old(c.nodes)| + 1 && c.nodes[..|c.nodes| - 1] == old(c.nodes) && fresh(c.nodes[|c.nodes| - 1])
  {
    hide Distinct, Segment, Values;
    ghost var was := c.nodes;
    c.ListAddNodeTail(value);
    assert Values(c.nodes)[i] == value;
    assert forall k | 0 <= k < i :: c.nodes[k] == was[k];
  }

  /** The elements at the places that are not doomed; the first one is at `at`. */
  function Spared<X>(s: seq<X>, doomed: nat -> bool, at: nat): seq<X> {
    if s == [] then [] else Spared(s[..|s| - 1], doomed, at) + if doomed(at + |s| - 1) then [] else [s[|s| - 1]]
  }

  /** The first `i` nodes of `was` have been visited, and `kept` is what is left of them. */
  ghost predicate Visiting<T>(nodes: seq<ListNode<T>>, kept: seq<ListNode<T>>, was: seq<ListNode<T>>, i: nat,
      visited: seq<ListNode<T>>, doomed: nat -> bool)
  {
    i <= |was| && nodes == kept + was[i..] && visited == was[..i] && kept == Spared(was[..i], doomed, 0)
  }

  lemma VisitStarts<T>(l: List<T>, doomed: nat -> bool)
    ensures Visiting(l.nodes, [], l.nodes, 0, [], doomed) && Within(l.nodes, l.nodes) && l.Contents() == Values(l.nodes)
  {
    assert [] + l.nodes[0..] == l.nodes && l.nodes[..0] == [];
  }

  lemma SparedOne<X>(s: seq<X>, x: X, doomed: nat -> bool, at: nat)
    ensures Spared(s + [x], doomed, at) == Spared(s, doomed, at) + if doomed(at + |s|) then [] else [x]
  {
    assert (s + [x])[..|s + [x]| - 1] == s;
  }

  lemma {:induction false} SparedValues<T>(nodes: seq<ListNode<T>>, doomed: nat -> bool, at: nat)
    ensures Values(Spared(nodes, doomed, at)) == Spared(Values(nodes), doomed, at)
    decreases |nodes|
  {
    hide *;
    if nodes == [] {
      NothingSpared(nodes, doomed, at);
    } else {
      var front, n := nodes[..|nodes| - 1], nodes[|nodes| - 1];
      assert nodes == front + [n];
      SparedValues(front, doomed, at);
      SparedOne(front, n, doomed, at);
      ValuesLength(front);
      SparedOne(Values(front), n.value, doomed, at);
      OneMoreValue(front, n);
      OneMoreValue(Spared(front, doomed, at), n);
      assert Spared(front, doomed, at) + [] == Spared(front, doomed, at);
      assert Spared(Values(front), doomed, at) + [] == Spared(Values(front), doomed, at);
    }
  }

  lemma NothingSpared<T>(nodes: seq<ListNode<T>>, doomed: nat -> bool, at: nat)
    requires nodes == []
    ensures Values(Spared(nodes, doomed, at)) == [] && Spared(Values(nodes), doomed, at) == []
  {
  }

  lemma ValuesLength<T>(nodes: seq<ListNode<T>>)
    ensures |Values(nodes)| == |nodes|
  {
  }

  /** What remains in terms of values; no value changes. */
  lemma SparedContents<T>(l: List<T>, was: seq<ListNode<T>>, doomed: nat -> bool)
    requires l.nodes == Spared(was, doomed, 0)
    ensures l.Contents() == Spared(Values(was), doomed, 0)
  {
    SparedValues(was, doomed, 0);
    hide Values, Spared;
  }

  lemma ContentsAre<T>(l: List<T>)
    ensures l.Contents() == Values(l.nodes)
  {
    hide Values;
  }

  lemma OneMoreValue<T>(nodes: seq<ListNode<T>>, n: ListNode<T>)
    ensures Values(nodes + [n]) == Values(nodes) + [n.value]
  {
    ValuesAppend(nodes, [n]);
    ValuesOne(n);
    hide Values;
  }

  /** What the node at hand is, and what one turn leads to when it is kept and when it is deleted. */
  lemma VisitAt<T>(nodes: seq<ListNode<T>>, kept: seq<ListNode<T>>, was: seq<ListNode<T>>, i: nat,
      visited: seq<ListNode<T>>, doomed: nat -> bool)
    requires Visiting(nodes, kept, was, i, visited, doomed) && At(nodes, |kept|) != null
    ensures i < |was| && |kept| < |nodes| && At(nodes, |kept|) == nodes[|kept|] == was[i]
    ensures !doomed(i) ==> Visiting(nodes, kept + [was[i]], was, i + 1, visited + [was[i]], doomed)
    ensures doomed(i) ==> Visiting(nodes[..|kept|] + nodes[|kept| + 1..], kept, was, i + 1, visited + [was[i]], doomed)
  {
    var n := was[i];
    assert was[i..] == [n] + was[i + 1..] && was[..i + 1] == was[..i] + [n];
    assert nodes == (kept + [n]) + was[i + 1..] && nodes[..|kept|] + nodes[|kept| + 1..] == kept + was[i + 1..];
    SparedOne(was[..i], n, doomed, 0);
    hide Spared;
  }

  ghost predicate Within<T>(nodes: seq<ListNode<T>>, was: seq<ListNode<T>>) {
    forall k | 0 <= k < |nodes| :: nodes[k] in was
  }

  lemma Around<T>(l: List<T>, k: nat, was: seq<ListNode<T>>)
    requires l.Valid() && k < |l.nodes| && Within(l.nodes, was)
    ensures forall o | o in Only(l.nodes[k].prev) :: o in was
    ensures forall o | o in Only(l.nodes[k].next) :: o in was
    ensures l.nodes[k] in was
  {
    Neighbours(l.nodes, k);
  }

  /** The node behind the one that is deleted comes to its place. */
  lemma Unvisited<T>(nodes: seq<ListNode<T>>, k: nat, was: seq<ListNode<T>>)
    requires k < |nodes| && Within(nodes, was)
    ensures At(nodes, k + 1) == At(nodes[..k] + nodes[k + 1..], k)
    ensures Within(nodes[..k] + nodes[k + 1..], was)
  {
    var r := nodes[..k] + nodes[k + 1..];
    forall j | 0 <= j < |r|
      ensures r[j] in was
    {
      assert r[j] == nodes[if j < k then j else j + 1];
    }
  }

  lemma VisitEnds<T>(nodes: seq<ListNode<T>>, kept: seq<ListNode<T>>, was: seq<ListNode<T>>, i: nat,
      visited: seq<ListNode<T>>, doomed: nat -> bool)
    requires Visiting(nodes, kept, was, i, visited, doomed) && At(nodes, |kept|) == null
    ensures visited == was && nodes == Spared(was, doomed, 0)
  {
    assert i == |was| && was[..i] == was && nodes == kept;
    hide Spared;
  }

  lemma AtInside<T>(nodes: seq<ListNode<T>>, i: nat)
    ensures At(nodes, i) == null <==> i >= |nodes|
    ensures i < |nodes| ==> At(nodes, i) == nodes[i]
    ensures At(nodes, i + 1) == null || At(nodes, i + 1) in nodes
    ensures i >= |nodes| ==> At(nodes, i + 1) == null
  {
  }

  datatype Direction = FROM_HEAD | FROM_TAIL

  class ListIter<T> {
    var next: ListNode?<T>
    var direction: Direction

    /** listRewind and listRewindTail. */
    constructor (l: List<T>, direction: Direction)
      requires l.Valid()
      ensures this.direction == direction
      ensures next == At(l.nodes, if direction == FROM_HEAD then 0 else |l.nodes| - 1)
    {
      this.direction := direction;
      next := if direction == FROM_HEAD then l.head else l.tail;
    }

    /** listNext; `i` is where the iterator is. */
    method ListNext(ghost l: List<T>, ghost i: int) returns (current: ListNode?<T>)
      requires l.Valid() && next == At(l.nodes, i)
      modifies this
      ensures direction == old(direction) && current == old(next)
      ensures next == if current == null then null else At(l.nodes, if direction == FROM_HEAD then i + 1 else i - 1)
    {
      current := next;
      if current != null {
        Neighbours(l.nodes, i);
        hide Distinct, Segment;
        if direction == FROM_HEAD {
          next := current.next;
        } else {
          next := current.prev;
        }
      }
    }
  }

  // ---------------------------------------------------------------- joining

  lemma Nothing<T>(nodes: seq<ListNode<T>>)
    ensures nodes == [] ==> Distinct(nodes) && Segment(null, nodes, null) && First(nodes, null) == null && Last(nodes, null) == null
  {
  }

  lemma JoinedParts<T>(a: seq<ListNode<T>>, b: seq<ListNode<T>>)
    requires Distinct(a) && Distinct(b) && forall n | n in a :: n !in b
    ensures Distinct(a + b) && (b == [] ==> a + b == a)
    ensures b != [] ==> First(a + b, null) == First(a, First(b, null)) && Last(a + b, null) == Last(b, null)
    ensures a == [] <==> Last(a, null) == null
    ensures a != [] ==> First(a, First(b, null)) == First(a, null)
    ensures a == [] ==> First(a, First(b, null)) == First(b, null)
    ensures b != [] ==> First(b, null) != null && First(b, null) in b
    ensures a != [] ==> Last(a, null) in a
  {
    var s := a + b;
    forall i, j | 0 <= i < j < |s|
      ensures s[i] != s[j]
    {
      if i < |a| <= j {
        assert a[i] in a && b[j - |a|] in b;
      } else if i >= |a| {
        assert b[i - |a|] != b[j - |a|];
      } else {
        assert a[i] != a[j];
      }
    }
    hide Distinct;
  }

  /** The pointers between the two lists. */
  method LinkLists<T>(ghost a: seq<ListNode<T>>, ghost b: seq<ListNode<T>>, tail: ListNode?<T>, first: ListNode?<T>)
    requires Distinct(a + b) && b != [] && first == First(b, null) && first != null && tail == Last(a, null)
    requires Segment(null, a, null) && Segment(null, b, null)
    modifies Only(tail)`next, first`prev
    ensures Segment(null, a + b, null)
  {
    Outer(a, b);
    first.prev := tail;
    if tail != null {
      tail.next := first;
    }
    assert BackLinks(a) && ForwardLinks(a) && BackLinks(b) && ForwardLinks(b);
    hide Distinct, BackLinks, ForwardLinks;
    Glue(null, a, b, null);
  }

  // ---------------------------------------------------------------- rotations

  /** The last element is moved to the front. */
  function LastFirst<X>(s: seq<X>): seq<X> {
    if s == [] then [] else [s[|s| - 1]] + s[..|s| - 1]
  }

  /** The first element is moved to the end. */
  function FirstLastly<X>(s: seq<X>): seq<X> {
    if s == [] then [] else s[1..] + [s[0]]
  }

  /** The two rotations undo each other. */
  lemma RotationsUndo<X>(s: seq<X>)
    ensures LastFirst(FirstLastly(s)) == s && FirstLastly(LastFirst(s)) == s
  {
    if s != [] {
      var n, front, back := |s| - 1, s[..|s| - 1], s[1..];
      assert (back + [s[0]])[..n] == back && [s[0]] + back == s;
      assert ([s[n]] + front)[1..] == front && front + [s[n]] == s;
    }
  }

  lemma ShortRotation<X>(s: seq<X>)
    ensures |s| <= 1 ==> LastFirst(s) == s && FirstLastly(s) == s
  {
  }

  lemma RotatedParts<T>(nodes: seq<ListNode<T>>, a: seq<ListNode<T>>, last: ListNode<T>)
    requires |nodes| > 1 && a == nodes[..|nodes| - 1] && last == nodes[|nodes| - 1]
    ensures nodes == a + [last] && LastFirst(nodes) == [last] + a && a != []
    ensures First(nodes, null) == First(a, null) && Last(nodes, null) == last
    ensures First([last] + a, null) == last && Last([last] + a, null) == Last(a, null)
    ensures forall o | o in a :: o in nodes
    ensures last in nodes
  {
  }

  lemma RotatedBack<T>(nodes: seq<ListNode<T>>, b: seq<ListNode<T>>, first: ListNode<T>)
    requires |nodes| > 1 && b == nodes[1..] && first == nodes[0]
    ensures nodes == [first] + b && FirstLastly(nodes) == b + [first] && b != []
    ensures First(nodes, null) == first && Last(nodes, null) == Last(b, null)
    ensures First(b + [first], null) == First(b, null) && Last(b + [first], null) == first
    ensures forall o | o in b :: o in nodes
    ensures first in nodes
  {
  }

  lemma RotatedValues<T>(nodes: seq<ListNode<T>>, a: seq<ListNode<T>>, last: ListNode<T>)
    requires nodes == a + [last]
    ensures Values([last] + a) == LastFirst(Values(nodes))
  {
    ValuesAppend(a, [last]);
    ValuesAppend([last], a);
    ValuesOne(last);
    hide Values;
  }

  lemma RotatedBackValues<T>(nodes: seq<ListNode<T>>, b: seq<ListNode<T>>, first: ListNode<T>)
    requires nodes == [first] + b
    ensures Values(b + [first]) == FirstLastly(Values(nodes))
  {
    ValuesAppend([first], b);
    ValuesAppend(b, [first]);
    ValuesOne(first);
    hide Values;
  }

  lemma TailParts<T>(a: seq<ListNode<T>>, last: ListNode<T>)
    requires Distinct(a + [last]) && Segment(null, a + [last], null)
    ensures Distinct(a) && last !in a && Distinct([last] + a) && Segment(null, a, last) && last.prev == Last(a, null)
  {
    assert a + [last] + [] == a + [last] && a + [] == a;
    DistinctWithout(a, last, []);
    NewHead(a, last);
    Isolate(a, last, []);
  }

  lemma HeadParts<T>(b: seq<ListNode<T>>, first: ListNode<T>)
    requires Distinct([first] + b) && Segment(null, [first] + b, null)
    ensures Distinct(b) && first !in b && Distinct(b + [first]) && Segment(first, b, null) && first.next == First(b, null)
  {
    assert [] + [first] + b == [first] + b && [] + b == b;
    DistinctWithout([], first, b);
    NewTail(b, first);
    Isolate([], first, b);
  }

  /** The pointers of listRotateTailToHead. */
  method MoveLast<T>(ghost a: seq<ListNode<T>>, head: ListNode?<T>, tail: ListNode?<T>) returns (head1: ListNode?<T>, tail1: ListNode?<T>)
    requires a != [] && Distinct(a) && tail != null && tail !in a && head == First(a, null)
    requires Segment(null, a, tail) && tail.prev == Last(a, null)
    modifies a`prev, a`next, tail`prev, tail`next
    ensures head1 == tail && tail1 == Last(a, null) && Segment(null, [tail] + a, null)
  {
    DistinctAt(a, 0);
    DistinctAt(a, |a| - 1);
    var last := tail;
    tail1 := last.prev;
    tail1.next := null;
    head.prev := last;
    last.prev := null;
    last.next := head;
    head1 := last;
    assert BackLinks(a) && ForwardLinks(a);
    hide Distinct, BackLinks, ForwardLinks;
    Single(last);
    Glue(null, [last], a, null);
  }

  /** The pointers of listRotateHeadToTail. */
  method MoveFirst<T>(ghost b: seq<ListNode<T>>, head: ListNode?<T>, tail: ListNode?<T>) returns (head1: ListNode?<T>, tail1: ListNode?<T>)
    requires b != [] && Distinct(b) && head != null && head !in b && tail == Last(b, null)
    requires Segment(head, b, null) && head.next == First(b, null)
    modifies b`prev, b`next, head`prev, head`next
    ensures head1 == First(b, null) && tail1 == head && Segment(null, b + [head], null)
  {
    DistinctAt(b, 0);
    DistinctAt(b, |b| - 1);
    var first := head;
    head1 := first.next;
    head1.prev := null;
    tail.next := first;
    first.next := null;
    first.prev := tail;
    tail1 := first;
    assert BackLinks(b) && ForwardLinks(b);
    hide Distinct, BackLinks, ForwardLinks;
    Single(first);
    Glue(null, b, [first], null);
  }

  // ---------------------------------------------------------------- segments around a node

  lemma BesideEnds<T>(nodes: seq<ListNode<T>>, node: ListNode<T>, at: nat, after: bool, a: seq<ListNode<T>>, b: seq<ListNode<T>>)
    requires at < |nodes| && var p := if after then at + 1 else at; a == nodes[..p] && b == nodes[p..]
    ensures Last(a, null) == At(nodes, if after then at else at - 1)
    ensures First(b, null) == At(nodes, if after then at + 1 else at)
    ensures First(a + [node] + b, null) == if !after && at == 0 then node else First(nodes, null)
    ensures Last(a + [node] + b, null) == if after && at == |nodes| - 1 then node else Last(nodes, null)
    ensures forall o | o in Only(Last(a, null)) :: o in nodes
    ensures forall o | o in Only(First(b, null)) :: o in nodes
  {
    InsertedEnds(nodes, node, if after then at + 1 else at, a, b);
  }

  lemma InsertedEnds<T>(nodes: seq<ListNode<T>>, node: ListNode<T>, p: nat, a: seq<ListNode<T>>, b: seq<ListNode<T>>)
    requires nodes != [] && p <= |nodes| && a == nodes[..p] && b == nodes[p..]
    ensures Last(a, null) == At(nodes, p - 1) && First(b, null) == At(nodes, p)
    ensures (Last(a, null) == null || Last(a, null) in nodes) && (First(b, null) == null || First(b, null) in nodes)
    ensures First(a + [node] + b, null) == if p == 0 then node else First(nodes, null)
    ensures Last(a + [node] + b, null) == if p == |nodes| then node else Last(nodes, null)
  {
  }

  lemma UnlinkedEnds<T>(a: seq<ListNode<T>>, node: ListNode<T>, b: seq<ListNode<T>>)
    ensures First(a + b, null) == if a == [] then First(b, null) else First(a + [node] + b, null)
    ensures Last(a + b, null) == if b == [] then Last(a, null) else Last(a + [node] + b, null)
    ensures a == [] <==> Last(a, null) == null
    ensures b == [] <==> First(b, null) == null
  {
  }

  /** The middle and the end of listUnlinkNode: the neighbours of a node are made to point to each other. */
  method LinkAround<T>(ghost a: seq<ListNode<T>>, node: ListNode<T>, ghost b: seq<ListNode<T>>)
    requires Distinct(a + b) && node !in a && node !in b
    requires Segment(null, a, node) && Segment(node, b, null)
    requires node.prev == Last(a, null) && node.next == First(b, null)
    modifies Only(node.prev)`next, Only(node.next)`prev, node`prev, node`next
    ensures Segment(null, a + b, null) && node.prev == null && node.next == null
  {
    Outer(a, b);
    if node.prev != null {
      node.prev.next := node.next;
    }
    if node.next != null {
      node.next.prev := node.prev;
    }
    node.next := null;
    node.prev := null;
    assert BackLinks(a) && ForwardLinks(a) && BackLinks(b) && ForwardLinks(b);
    hide Distinct, BackLinks, ForwardLinks;
    Glue(null, a, b, null);
  }

  /** A node in the middle of a list and the segments on both sides. */
  lemma Isolate<T>(a: seq<ListNode<T>>, node: ListNode<T>, b: seq<ListNode<T>>)
    requires Segment(null, a + [node] + b, null)
    ensures Segment(null, a, node) && Segment(node, b, null)
    ensures node.prev == Last(a, null) && node.next == First(b, null)
    ensures forall o | o in Only(node.prev) :: o in a + [node] + b
    ensures forall o | o in Only(node.next) :: o in a + [node] + b
  {
    Cut(null, a + [node], b, null);
    Cut(null, a, [node], First(b, null));
  }

  lemma UnlinkedValues<T>(a: seq<ListNode<T>>, n: ListNode<T>, b: seq<ListNode<T>>)
    ensures Values(a + b) == Values(a + [n] + b)[..|a|] + Values(a + [n] + b)[|a| + 1..]
  {
    InsertedValues(a, n, b);
    hide Values;
    var v := Values(a) + [n.value] + Values(b);
    assert v[..|a|] == Values(a) && v[|a| + 1..] == Values(b);
  }

  lemma Parts<T>(l: List<T>)
    requires l.Valid()
    ensures l.len == |l.nodes| && Distinct(l.nodes) && Segment(null, l.nodes, null)
    ensures l.head == First(l.nodes, null) && l.tail == Last(l.nodes, null) && l.Contents() == Values(l.nodes)
  {
  }

  lemma Whole<T>(l: List<T>)
    requires l.len == |l.nodes| && Distinct(l.nodes) && Segment(null, l.nodes, null)
    requires l.head == First(l.nodes, null) && l.tail == Last(l.nodes, null)
    ensures l.Valid() && l.Contents() == Values(l.nodes)
  {
  }

  lemma OnlyIn<T>(n: ListNode?<T>, nodes: seq<ListNode<T>>)
    requires n == null || n in nodes
    ensures forall o | o in Only(n) :: o in nodes
  {
  }

  function Only<T>(n: ListNode?<T>): set<ListNode<T>> {
    if n == null then {} else {n}
  }

  /** The end of listInsertNode: the neighbours of a node are made to point to it. */
  method LinkNeighbours<T>(ghost a: seq<ListNode<T>>, node: ListNode<T>, ghost b: seq<ListNode<T>>)
    requires Distinct(a + [node] + b)
    requires Segment(null, a, First(b, null)) && Segment(Last(a, null), b, null)
    requires node.prev == Last(a, null) && node.next == First(b, null)
    modifies Only(node.prev)`next, Only(node.next)`prev
    ensures Segment(null, a + [node] + b, null)
  {
    DistinctWithout(a, node, b);
    Outer(a, b);
    if node.prev != null {
      node.prev.next := node;
    }
    if node.next != null {
      node.next.prev := node;
    }
    assert BackLinks(a) && ForwardLinks(a) && BackLinks(b) && ForwardLinks(b);
    hide Distinct, BackLinks, ForwardLinks;
    Single(node);
    Glue(null, a, [node], First(b, null));
    Glue(null, a + [node], b, null);
  }

  lemma Neighbours<T>(nodes: seq<ListNode<T>>, i: nat)
    requires Segment(null, nodes, null) && i < |nodes|
    ensures nodes[i].prev == At(nodes, i - 1) && nodes[i].next == At(nodes, i + 1)
  {
    assert i + 1 < |nodes| ==> nodes[i].next == nodes[i + 1];
  }

  lemma FirstLast<T>(nodes: seq<ListNode<T>>, i: nat)
    requires Distinct(nodes) && i < |nodes|
    ensures nodes[i] == First(nodes, null) <==> i == 0
    ensures nodes[i] == Last(nodes, null) <==> i == |nodes| - 1
  {
  }

  lemma InsertedValues<T>(a: seq<ListNode<T>>, n: ListNode<T>, b: seq<ListNode<T>>)
    ensures Values(a + [n] + b) == Values(a) + [n.value] + Values(b)
    ensures Values(a + b) == Values(a) + Values(b)
    ensures Values(a + b)[..|a|] == Values(a) && Values(a + b)[|a|..] == Values(b)
  {
    ValuesAppend(a, b);
    ValuesAppend(a + [n], b);
    ValuesAppend(a, [n]);
    ValuesOne(n);
  }

  /** The nodes at the cut occur nowhere else. */
  lemma Outer<T>(a: seq<ListNode<T>>, b: seq<ListNode<T>>)
    requires Distinct(a + b)
    ensures forall i, j | 0 <= i < |a| && 0 <= j < |b| :: a[i] != b[j]
    ensures forall i | 0 <= i < |a| - 1 :: a[i] != a[|a| - 1]
    ensures forall j | 0 < j < |b| :: b[j] != b[0]
  {
    var s := a + b;
    assert forall i | 0 <= i < |a| :: s[i] == a[i];
    assert forall j | 0 <= j < |b| :: s[|a| + j] == b[j];
  }
}
