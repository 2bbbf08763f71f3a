/** Neighbours in the in-order sequence, seen from a node's place in the tree. */
module Walk {
  import opened Trees
  import opened Threads

  /** `r` is what follows (precedes) `n` in `s`, or null at the end. */
  ghost predicate Follows(s: seq<Node>, n: Node, r: Node?) {
    forall k :: 0 <= k < |s| && s[k] == n ==> r == NodeAt(s, k + 1)
  }

  ghost predicate Precedes(s: seq<Node>, n: Node, r: Node?) {
    forall k :: 0 <= k < |s| && s[k] == n ==> r == NodeAt(s, k - 1)
  }

  function FirstOf(s: seq<Node>): Node? {
    NodeAt(s, 0)
  }

  function LastOf(s: seq<Node>): Node? {
    NodeAt(s, |s| - 1)
  }

  lemma {:induction false} Neighbours(a: seq<Node>, n: Node, b: seq<Node>)
    requires NoRepeat(a + [n] + b)
    ensures Follows(a + [n] + b, n, FirstOf(b)) && Precedes(a + [n] + b, n, LastOf(a))
  {
    var s := a + [n] + b;
    assert s[|a|] == n;
    forall k | 0 <= k < |s| && k != |a| ensures s[k] != n {
      var i, j := if k < |a| then k else |a|, if k < |a| then |a| else k;
      assert s[i] != s[j];
    }
  }

  /** The neighbours of the node in focus. */
  lemma {:induction false} FocusNeighbours(c: Path, t: Tree)
    requires t.Fork? && Distinct(Plug(c, t))
    ensures Follows(Inorder(Plug(c, t)), t.node, FirstOf(Inorder(t.right) + After(c)))
    ensures Precedes(Inorder(Plug(c, t)), t.node, LastOf(Before(c) + Inorder(t.left)))
  {
    SplitOrder(c, t);
    Neighbours(Before(c) + Inorder(t.left), t.node, Inorder(t.right) + After(c));
  }

  function MaxNode(t: Tree): Tree
    requires t.Fork?
    ensures MaxNode(t).Fork? && MaxNode(t).right.Leaf?
    decreases t
  {
    if t.right.Leaf? then t else MaxNode(t.right)
  }

  lemma {:induction false} MinFirst(t: Tree)
    requires t.Fork?
    ensures Inorder(t) != [] && FirstOf(Inorder(t)) == Min(t).node
  {
    MinFacts(Top, t);
  }

  lemma {:induction false} MaxLast(t: Tree)
    requires t.Fork?
    ensures Inorder(t) != [] && LastOf(Inorder(t)) == MaxNode(t).node
    decreases t
  {
    if t.right.Fork? {
      MaxLast(t.right);
    }
  }

  lemma {:induction false} MoveHead(a: seq<Node>, s: seq<Node>)
    requires s != []
    ensures (a + [s[0]]) + s[1..] == a + s
  {
  }
}
