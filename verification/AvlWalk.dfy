/** Iteration and neighbour queries of avltree.c. */
module AvlWalk {
  import opened Trees
  import opened Links
  import opened Search
  import opened Threads
  import opened Walk
  import opened AvlTree

  /** `avl_first`. */
  method AvlFirst(tree: Root) returns (p: Node?)
    requires Valid(tree)
    ensures Valid(tree) && p == FirstOf(Inorder(tree.tree))
  {
    ghost var S := Nodes(tree.tree);
    assert allocated(S);
    p := First(tree.node, tree, S, Top, tree.tree);
    assert Snap(S) == old(Snap(S));
    if tree.tree.Fork? {
      MinFirst(tree.tree);
    }
  }

  /** The descent to the rightmost node of a subtree. */
  method Last(top: Node?, root: Root, ghost S: set<Node>, ghost c: Path, ghost t: Tree) returns (p: Node?)
    requires At(Snap(S), c, t, root.node) && top == RootOf(t)
    ensures p == if t.Leaf? then null else MaxNode(t).node
  {
    var node := top;
    p := null;
    ghost var q, u := c, t;
    while node != null
      invariant At(Snap(S), q, u, root.node) && node == RootOf(u)
      invariant u.Fork? ==> t.Fork? && MaxNode(u) == MaxNode(t)
      invariant u.Leaf? ==> p == if t.Leaf? then null else MaxNode(t).node
      decreases u
    {
      Look(Snap(S), q, u, root.node);
      p := node;
      node := node.right;
      q, u := InRight(q, u.left, u.node, u.tag), u.right;
      AtUp(Snap(S), q, u, root.node);
    }
  }

  /** `avl_last`. */
  method AvlLast(tree: Root) returns (p: Node?)
    requires Holds(tree)
    ensures p == LastOf(Inorder(tree.tree))
  {
    p := Last(tree.node, tree, Nodes(tree.tree), Top, tree.tree);
    if tree.tree.Fork? {
      MaxLast(tree.tree);
    }
  }

  /** The climb of `avl_next`: the first ancestor reached from its left. */
  method ClimbNext(start: Node, root: Root, ghost S: set<Node>, ghost c: Path, ghost t: Tree) returns (r: Node?)
    requires t.Fork? && start == t.node && At(Snap(S), c, t, root.node)
    ensures r == FirstOf(After(c))
  {
    Look(Snap(S), c, t, root.node);
    var p, node := start, start.parent;
    ghost var q, u := c, t;
    while node != null
      invariant u.Fork? && p == u.node && At(Snap(S), q, u, root.node) && node == Above(q)
      invariant FirstOf(After(q)) == FirstOf(After(c))
      decreases Depth(q)
    {
      Look(Snap(S), q, u, root.node);
      if node.left == p {
        return node;
      }
      AtUp(Snap(S), q, u, root.node);
      q, u := q.up, Wrap(q, u);
      Look(Snap(S), q, u, root.node);
      p := node;
      node := node.parent;
    }
    return null;
  }

  method ClimbPrev(start: Node, root: Root, ghost S: set<Node>, ghost c: Path, ghost t: Tree) returns (r: Node?)
    requires t.Fork? && start == t.node && At(Snap(S), c, t, root.node)
    ensures r == LastOf(Before(c))
  {
    Look(Snap(S), c, t, root.node);
    var p, node := start, start.parent;
    ghost var q, u := c, t;
    while node != null
      invariant u.Fork? && p == u.node && At(Snap(S), q, u, root.node) && node == Above(q)
      invariant LastOf(Before(q)) == LastOf(Before(c))
      decreases Depth(q)
    {
      Look(Snap(S), q, u, root.node);
      if node.right == p {
        return node;
      }
      AtUp(Snap(S), q, u, root.node);
      q, u := q.up, Wrap(q, u);
      Look(Snap(S), q, u, root.node);
      p := node;
      node := node.parent;
    }
    return null;
  }

  /** `avl_next` at a known place, by way of the tree's own links. */
  method NextAt(node: Node, root: Root, ghost S: set<Node>, ghost c: Path, ghost t: Tree) returns (r: Node?)
    requires t.Fork? && node == t.node && At(Snap(S), c, t, root.node)
    ensures r == FirstOf(Inorder(t.right) + After(c))
  {
    Look(Snap(S), c, t, root.node);
    if node.right != null {
      ghost var b := InRight(c, t.left, t.node, t.tag);
      AtUp(Snap(S), b, t.right, root.node);
      r := First(node.right, root, S, b, t.right);
      MinFirst(t.right);
    } else {
      r := ClimbNext(node, root, S, c, t);
    }
  }

  method PrevAt(node: Node, root: Root, ghost S: set<Node>, ghost c: Path, ghost t: Tree) returns (r: Node?)
    requires t.Fork? && node == t.node && At(Snap(S), c, t, root.node)
    ensures r == LastOf(Before(c) + Inorder(t.left))
  {
    Look(Snap(S), c, t, root.node);
    if node.left != null {
      ghost var b := InLeft(c, t.node, t.tag, t.right);
      AtUp(Snap(S), b, t.left, root.node);
      r := Last(node.left, root, S, b, t.left);
      MaxLast(t.left);
    } else {
      r := ClimbPrev(node, root, S, c, t);
    }
  }

  /** `avl_next`, built without the list: it agrees with the list's pointers. */
  method AvlNext(node: Node?, tree: Root) returns (r: Node?)
    requires Valid(tree) && (node != null ==> node in Nodes(tree.tree))
    ensures node == null ==> r == null
    ensures node != null ==> Follows(Inorder(tree.tree), node, r) && r == node.next
    ensures Valid(tree)
  {
    if node == null {
      return null;
    }
    ghost var S := Nodes(tree.tree);
    ghost var (c, t) := Focus(Top, tree.tree, node);
    AtSwitch(Snap(S), Top, tree.tree, c, t, tree.node);
    FocusNeighbours(c, t);
    r := NextAt(node, tree, S, c, t);
    NodesInorder(tree.tree);
    assert node in Inorder(tree.tree);
  }

  /** `avl_prev`. */
  method AvlPrev(node: Node?, tree: Root) returns (r: Node?)
    requires Valid(tree) && (node != null ==> node in Nodes(tree.tree))
    ensures node == null ==> r == null
    ensures node != null ==> Precedes(Inorder(tree.tree), node, r) && r == node.prev
  {
    if node == null {
      return null;
    }
    ghost var S := Nodes(tree.tree);
    ghost var (c, t) := Focus(Top, tree.tree, node);
    AtSwitch(Snap(S), Top, tree.tree, c, t, tree.node);
    FocusNeighbours(c, t);
    r := PrevAt(node, tree, S, c, t);
    NodesInorder(tree.tree);
    assert node in Inorder(tree.tree);
  }

  /** The descent that `avl_search_greater` and `avl_search_smaller` share: the
      node with the key, and otherwise the last node visited. */
  method Visit(tree: Root, query: Node, cmp: Compare) returns (p: Node?, pp: Node?)
    requires Holds(tree) && Order(cmp)
    ensures var (c, t) := Locate(cmp, query.key, Top, tree.tree);
      At(Snap(Nodes(tree.tree)), c, t, tree.node) && p == RootOf(t) && (p == null ==> pp == Above(c))
  {
    p, pp := Descend(tree, query, cmp, Nodes(tree.tree));
  }

  /** `avl_search_greater`. */
  method AvlSearchGreater(tree: Root, query: Node, cmp: Compare) returns (r: Node?)
    requires Holds(tree) && Order(cmp) && Sorted(cmp, Inorder(tree.tree))
    ensures LeastNotBelow(cmp, Inorder(tree.tree), query.key, r)
  {
    ghost var S := Nodes(tree.tree);
    ghost var (c, t) := Locate(cmp, query.key, Top, tree.tree);
    LeastFound(cmp, tree.tree, query.key);
    var p, pp := Visit(tree, query, cmp);
    if p != null {
      return p;
    }
    if pp == null {
      return pp;
    }
    LocateSide(cmp, query.key, Top, tree.tree);
    if cmp(pp.key, query.key) > 0 {
      r := pp;
    } else {
      AtUp(Snap(S), c, t, tree.node);
      r := NextAt(pp, tree, S, c.up, Wrap(c, t));
    }
  }

  /** `avl_search_smaller`. */
  method AvlSearchSmaller(tree: Root, query: Node, cmp: Compare) returns (r: Node?)
    requires Holds(tree) && Order(cmp) && Sorted(cmp, Inorder(tree.tree))
    ensures GreatestNotAbove(cmp, Inorder(tree.tree), query.key, r)
  {
    ghost var S := Nodes(tree.tree);
    ghost var (c, t) := Locate(cmp, query.key, Top, tree.tree);
    GreatestFound(cmp, tree.tree, query.key);
    var p, pp := Visit(tree, query, cmp);
    if p != null {
      return p;
    }
    if pp == null {
      return pp;
    }
    LocateSide(cmp, query.key, Top, tree.tree);
    if cmp(pp.key, query.key) < 0 {
      r := pp;
    } else {
      AtUp(Snap(S), c, t, tree.node);
      r := PrevAt(pp, tree, S, c.up, Wrap(c, t));
    }
  }

  /** What the place where a search ends says about the whole sequence. */
  lemma {:induction false} SearchSplits(cmp: Compare, t: Tree, key: int)
    requires Order(cmp) && Sorted(cmp, Inorder(t))
    ensures var (c, u) := Locate(cmp, key, Top, t);
      if u.Fork? then u.node in Inorder(t) && cmp(u.node.key, key) == 0
      else
        && Inorder(t) == Before(c) + After(c) && Sorted(cmp, Before(c)) && Sorted(cmp, After(c))
        && AllBelow(cmp, Before(c), key) && AllAbove(cmp, After(c), key)
  {
    LocateBounds(cmp, key, Top, t);
    var (c, u) := Locate(cmp, key, Top, t);
    PlugInorder(c, u);
    if u.Leaf? {
      assert Inorder(t) == Before(c) + After(c);
      SortedTwo(cmp, Before(c), After(c));
    }
  }

  lemma {:induction false} LeastFound(cmp: Compare, t: Tree, key: int)
    requires Order(cmp) && Sorted(cmp, Inorder(t))
    ensures var (c, u) := Locate(cmp, key, Top, t);
      LeastNotBelow(cmp, Inorder(t), key, if u.Fork? then u.node else FirstOf(After(c)))
  {
    SearchSplits(cmp, t, key);
    var (c, u) := Locate(cmp, key, Top, t);
    if u.Fork? {
      BoundsAtKey(cmp, Inorder(t), key, u.node);
    } else {
      LeastAtHole(cmp, Before(c), After(c), key);
    }
  }

  lemma {:induction false} GreatestFound(cmp: Compare, t: Tree, key: int)
    requires Order(cmp) && Sorted(cmp, Inorder(t))
    ensures var (c, u) := Locate(cmp, key, Top, t);
      GreatestNotAbove(cmp, Inorder(t), key, if u.Fork? then u.node else LastOf(Before(c)))
  {
    SearchSplits(cmp, t, key);
    var (c, u) := Locate(cmp, key, Top, t);
    if u.Fork? {
      BoundsAtKey(cmp, Inorder(t), key, u.node);
    } else {
      GreatestAtHole(cmp, Before(c), After(c), key);
    }
  }

  /** One round of the sweep: take the next node, then remove the current one. */
  method SweepStep(cur: Node, tree: Root) returns (next: Node?, ghost rest: seq<Node>)
    requires Valid(tree) && Inorder(tree.tree) != [] && cur == Inorder(tree.tree)[0]
    modifies tree, Nodes(tree.tree)`left, Nodes(tree.tree)`right, Nodes(tree.tree)`parent, Nodes(tree.tree)`tag
    modifies Nodes(tree.tree)`prev, Nodes(tree.tree)`next
    ensures Valid(tree) && rest == Inorder(tree.tree) && next == FirstOf(rest)
    ensures rest == old(Inorder(tree.tree))[1..]
    ensures Nodes(tree.tree) <= old(Nodes(tree.tree))
  {
    NodesInorder(tree.tree);
    assert cur in Inorder(tree.tree);
    next := AvlNext(cur, tree);
    AvlRemove(tree, cur);
    rest := Inorder(tree.tree);
  }

  /** The sweep that empties a tree visits every node once, in order. */
  method Sweep(tree: Root) returns (visited: seq<Node>)
    requires Valid(tree)
    modifies tree, Nodes(tree.tree)
    ensures visited == old(Inorder(tree.tree))
    ensures Valid(tree) && tree.tree == Leaf && tree.node == null
  {
    ghost var all := Nodes(tree.tree);
    var cur := AvlFirst(tree);
    visited := [];
    ghost var rest := Inorder(tree.tree);
    while cur != null
      invariant Valid(tree) && Nodes(tree.tree) <= all
      invariant rest == Inorder(tree.tree) && cur == FirstOf(rest)
      invariant visited + rest == old(Inorder(tree.tree))
      decreases |rest|
    {
      var node: Node := cur;
      MoveHead(visited, rest);
      cur, rest := SweepStep(node, tree);
      visited := visited + [node];
    }
    if tree.tree.Fork? {
      MinFirst(tree.tree);
    }
  }
}
