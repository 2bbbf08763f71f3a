/** The doubly linked list through the nodes in the threaded AVL build
    (`_AVL_NEXT_POINTER`). */
module Threads {
  import opened Trees

  function NodeAt(s: seq<Node>, i: int): Node? {
    if 0 <= i < |s| then s[i] else null
  }

  ghost predicate Threaded(s: seq<Node>)
    reads Elements(s)`prev, Elements(s)`next
  {
    forall i :: 0 <= i < |s| ==> s[i].prev == NodeAt(s, i - 1) && s[i].next == NodeAt(s, i + 1)
  }

  /** The new node goes right before `p`. */
  method ThreadBefore(node: Node, p: Node, ghost a: seq<Node>, ghost b: seq<Node>)
    requires NoRepeat(a + b) && node !in a + b && b != [] && b[0] == p
    requires Threaded(a + b)
    modifies Elements(a + b + [node])`prev, Elements(a + b + [node])`next
    ensures Threaded(a + [node] + b)
  {
    ghost var s, s' := a + b, a + [node] + b;
    assert s[|a|] == p && p.prev == NodeAt(s, |a| - 1);
    node.next := p;
    node.prev := p.prev;
    if p.prev != null {
      p.prev.next := node;
    }
    p.prev := node;
    forall i | 0 <= i < |s'| ensures s'[i].prev == NodeAt(s', i - 1) && s'[i].next == NodeAt(s', i + 1) {
      if i < |a| {
        assert s'[i] == s[i];
      } else if i > |a| {
        assert s'[i] == s[i - 1];
      }
    }
  }

  /** The new node goes right after `p`. */
  method ThreadAfter(node: Node, p: Node, ghost a: seq<Node>, ghost b: seq<Node>)
    requires NoRepeat(a + b) && node !in a + b && a != [] && a[|a| - 1] == p
    requires Threaded(a + b)
    modifies Elements(a + b + [node])`prev, Elements(a + b + [node])`next
    ensures Threaded(a + [node] + b)
  {
    ghost var s, s' := a + b, a + [node] + b;
    assert s[|a| - 1] == p && p.next == NodeAt(s, |a|);
    node.prev := p;
    node.next := p.next;
    if p.next != null {
      p.next.prev := node;
    }
    p.next := node;
    forall i | 0 <= i < |s'| ensures s'[i].prev == NodeAt(s', i - 1) && s'[i].next == NodeAt(s', i + 1) {
      if i < |a| {
        assert s'[i] == s[i];
      } else if i > |a| {
        assert s'[i] == s[i - 1];
      }
    }
  }

  /** The node leaves the list; its own pointers stay as they are. */
  method Unthread(node: Node, ghost a: seq<Node>, ghost b: seq<Node>)
    requires NoRepeat(a + [node] + b) && Threaded(a + [node] + b)
    modifies Elements(a + b)`prev, Elements(a + b)`next
    ensures Threaded(a + b)
  {
    ghost var s, s' := a + [node] + b, a + b;
    assert s[|a|] == node && node.prev == NodeAt(s, |a| - 1) && node.next == NodeAt(s, |a| + 1);
    if node.prev != null {
      node.prev.next := node.next;
    }
    if node.next != null {
      node.next.prev := node.prev;
    }
    forall i | 0 <= i < |s'| ensures s'[i].prev == NodeAt(s', i - 1) && s'[i].next == NodeAt(s', i + 1) {
      if i < |a| {
        assert s[i] == s'[i];
      } else {
        assert s[i + 1] == s'[i];
      }
    }
  }
}
