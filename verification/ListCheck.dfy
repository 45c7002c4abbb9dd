/**
 The consistency check of circular doubly linked lists (`list_check_node`, `list_check`), run on any
 finite graph of nodes whose links stay inside the graph, however corrupt the links are.
 */
module ListCheck {

  class Node {
    var next: Node
    var prev: Node

    constructor ()
      ensures next == this && prev == this
    {
      next, prev := this, this;
    }
  }

  /** All links from `nodes` lead back into `nodes`. */
  ghost predicate Closed(nodes: set<Node>)
    reads nodes
  {
    forall n :: n in nodes ==> n.next in nodes && n.prev in nodes
  }

  /**
   `ring` is a well-formed circular list: distinct nodes, each one's `next` the following one, each
   one's `prev` the preceding one, the last linked to the first.
   */
  ghost predicate IsRing(ring: seq<Node>)
    reads ring
  {
    && 0 < |ring|
    && (forall i, j :: 0 <= i < j < |ring| ==> ring[i] != ring[j])
    && (forall i :: 0 <= i < |ring| ==> ring[i].next == ring[Succ(i, |ring|)])
    && (forall i :: 0 <= i < |ring| ==> ring[Succ(i, |ring|)].prev == ring[i])
  }

  function Succ(i: int, n: int): int { if i + 1 == n then 0 else i + 1 }

  ghost predicate RingFrom(older ring: seq<Node>, node: Node, nodes: set<Node>)
    reads nodes
  {
    (forall i :: 0 <= i < |ring| ==> ring[i] in nodes) && IsRing(ring) && ring[0] == node
  }

  ghost predicate OnRing(node: Node, nodes: set<Node>)
    reads nodes
  {
    exists ring: seq<Node> :: RingFrom(ring, node, nodes)
  }

  /** How a check ends: `Corrupt` is a NULL result, `Aborted` a call of `abort` after a diagnostic. */
  datatype Verdict = Consistent | Corrupt | Aborted(at: Node, count: nat)

  /** `path` is the list from `node` as far as the loop has followed and confirmed it. */
  ghost predicate Confirmed(path: seq<Node>, node: Node)
    reads path
  {
    && 0 < |path| && path[0] == node
    && (forall i, j :: 0 <= i < j < |path| ==> path[i] != path[j])
    && (forall i :: 0 <= i < |path| - 1 ==> path[i].next == path[i + 1])
    && (forall i :: 0 < i < |path| ==> path[i].prev == path[i - 1])
  }

  /** The distinct nodes of a path inside `nodes` are no more than `nodes`. */
  lemma {:induction false} PathFits(path: seq<Node>, nodes: set<Node>)
    requires forall x :: x in path ==> x in nodes
    requires forall i, j :: 0 <= i < j < |path| ==> path[i] != path[j]
    ensures |path| <= |nodes|
  {
    if path != [] {
      var last, init := path[|path| - 1], path[..|path| - 1];
      forall x | x in init ensures x in nodes - {last} {
        var i :| 0 <= i < |init| && init[i] == x;
        assert path[i] == x;
      }
      PathFits(init, nodes - {last});
    }
  }

  /**
   A confirmed path follows every ring that starts at its first node: as long as it has not returned to
   that node it is a prefix of the ring.
   */
  lemma {:induction false} PathInRing(path: seq<Node>, ring: seq<Node>, node: Node, k: int)
    requires Confirmed(path, node) && IsRing(ring) && ring[0] == node
    requires 0 <= k < |path|
    ensures k < |ring| && path[k] == ring[k]
  {
    if k > 0 {
      PathInRing(path, ring, node, k - 1);
      assert path[k - 1].next == path[k];
      assert path[0] != path[k];
    }
  }

  /** On a ring, the link after a confirmed path has the right `prev`. */
  lemma RingHasNoBrokenLink(path: seq<Node>, ring: seq<Node>, node: Node)
    requires Confirmed(path, node) && IsRing(ring) && ring[0] == node
    ensures path[|path| - 1].next.prev == path[|path| - 1]
  {
    PathInRing(path, ring, node, |path| - 1);
  }

  /** The node reached from `node` by `k` links. */
  ghost function Walk(node: Node, k: nat, nodes: set<Node>): (n: Node)
    requires node in nodes && Closed(nodes)
    reads nodes
    ensures n in nodes
  {
    if k == 0 then node else Walk(node, k - 1, nodes).next
  }

  /** `corrupt`: aborts when a location string was given, otherwise yields NULL. */
  method CorruptAt(abortOn: bool, node: Node, count: nat) returns (v: Verdict)
    ensures v == if abortOn then Aborted(node, count) else Corrupt
  {
    if abortOn {
      return Aborted(node, count);
    }
    return Corrupt;
  }

  /** The diagnostic names the first node on the walk whose `prev` is not its predecessor; 0 stands for the start. */
  ghost predicate Blames(node: Node, nodes: set<Node>, at: Node, count: nat)
    requires node in nodes && Closed(nodes)
    reads nodes
  {
    && at in nodes
    && if count > 0 then
         && at == Walk(node, count, nodes) != node && at.prev != Walk(node, count - 1, nodes)
         && LinkedUpTo(node, nodes, count - 1)
       else
         && at == node
         && exists k: nat :: Walk(node, k, nodes).next == node && node.prev != Walk(node, k, nodes) && LinkedUpTo(node, nodes, k)
  }

  /** The first `k` nodes after the start are other nodes, each with its predecessor as `prev`. */
  ghost predicate LinkedUpTo(node: Node, nodes: set<Node>, k: int)
    requires node in nodes && Closed(nodes)
    reads nodes
  {
    forall j: nat :: 0 < j <= k ==> Walk(node, j, nodes) != node && Walk(node, j, nodes).prev == Walk(node, j - 1, nodes)
  }

  /** There is only one node, with one count, that a diagnostic can name. */
  lemma BlameUnique(node: Node, nodes: set<Node>, at: Node, count: nat, at': Node, count': nat)
    requires node in nodes && Closed(nodes)
    requires Blames(node, nodes, at, count) && Blames(node, nodes, at', count')
    ensures at == at' && count == count'
  {
    if count == 0 || count' == 0 {
      var k: nat :| Walk(node, k, nodes).next == node && node.prev != Walk(node, k, nodes) && LinkedUpTo(node, nodes, k);
      assert Walk(node, k + 1, nodes) == node;
    }
  }

  /**
   The check returns the node exactly when the node lies on a well-formed ring. It ends on every finite
   closed graph: a cycle that does not lead back to `node` would be entered at a node with two
   predecessors, and the `prev` check rejects the second.
   */
  method ListCheckNode(node: Node, abortOn: bool, ghost nodes: set<Node>) returns (v: Verdict)
    requires node in nodes && Closed(nodes)
    ensures v.Consistent? <==> OnRing(node, nodes)
    ensures v.Corrupt? ==> !abortOn
    ensures v.Aborted? ==> abortOn && Blames(node, nodes, v.at, v.count)
  {
    var p, n := node, node.next;
    var count: nat := 0;
    ghost var path := [node];
    PathFits(path, nodes);
    while n != node
      invariant Confirmed(path, node) && (forall x :: x in path ==> x in nodes)
      invariant p == path[|path| - 1] == Walk(node, count, nodes) && n == p.next && count == |path| - 1
      invariant |path| <= |nodes| && LinkedUpTo(node, nodes, count)
      decreases |nodes| - |path|
    {
      count := count + 1;
      if n.prev != p {
        forall ring: seq<Node> | RingFrom(ring, node, nodes) ensures false {
          RingHasNoBrokenLink(path, ring, node);
        }
        v := CorruptAt(abortOn, n, count);
        return;
      }
      Unvisited(path, node, n);
      path := path + [n];
      PathFits(path, nodes);
      p, n := n, n.next;
    }
    if node.prev != p {
      forall ring: seq<Node> | RingFrom(ring, node, nodes) ensures false {
        RingHasNoBrokenLink(path, ring, node);
      }
      v := CorruptAt(abortOn, node, 0);
      return;
    }
    assert RingFrom(path, node, nodes);
    return Consistent;
  }

  /** A node whose `prev` is the end of the path, and which is not its start, is not on the path. */
  lemma Unvisited(path: seq<Node>, node: Node, n: Node)
    requires Confirmed(path, node) && n != node && n.prev == path[|path| - 1]
    ensures n !in path
  {
    forall j | 0 <= j < |path| ensures path[j] != n {
      if j > 0 {
        assert path[j].prev == path[j - 1] != path[|path| - 1];
      }
    }
  }

  /** A list that checks out from one of its nodes checks out from the next one too. */
  lemma RingFromNext(node: Node, nodes: set<Node>)
    requires node in nodes && Closed(nodes) && OnRing(node, nodes)
    ensures OnRing(node.next, nodes)
  {
    var ring: seq<Node> :| RingFrom(ring, node, nodes);
    var turned := ring[1..] + [ring[0]];
    forall i | 0 <= i < |turned|
      ensures turned[i] == ring[Succ(i, |ring|)]
    {
    }
    assert forall x :: x in turned ==> x in ring;
    assert RingFrom(turned, node.next, nodes);
  }

  /** `list_check` is the same check on the node inside the list head. */
  method ListCheck(head: Node, abortOn: bool, ghost nodes: set<Node>) returns (v: Verdict)
    requires head in nodes && Closed(nodes)
    ensures v.Consistent? <==> OnRing(head, nodes)
    ensures v.Corrupt? ==> !abortOn
    ensures v.Aborted? ==> abortOn && Blames(head, nodes, v.at, v.count)
  {
    v := ListCheckNode(head, abortOn, nodes);
  }
}
