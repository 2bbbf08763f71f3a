/** Iteration in rbtree.c, and replacing a node. */
module RbWalk {
  import opened Trees
  import opened Links
  import opened RbShape
  import opened Threads
  import opened Walk
  import opened RbTree

  /** `rb_first`. */
  method RbFirst(root: Root) returns (n: Node?)
    requires Valid(root)
    ensures n == FirstOf(Inorder(root.tree)) && Valid(root)
  {
    ghost var S := Nodes(root.tree);
    assert allocated(S);
    n := root.node;
    if n == null {
      return null;
    }
    MinFirst(root.tree);
    n := Leftmost(n, root, S, Top, root.tree);
    assert Snap(S) == old(Snap(S));
  }

  /** Down the right links as far as they go. */
  method Rightmost(start: Node, root: Root, ghost S: set<Node>, ghost c: Path, ghost t: Tree) returns (node: Node)
    requires t.Fork? && start == t.node && At(Snap(S), c, t, root.node)
    ensures node == MaxNode(t).node
  {
    ghost var q, u := c, t;
    node := start;
    Look(Snap(S), q, u, root.node);
    while node.right != null
      invariant u.Fork? && node == u.node && At(Snap(S), q, u, root.node) && node.right == RootOf(u.right)
      invariant MaxNode(u) == MaxNode(t)
      decreases u
    {
      node := node.right;
      q, u := InRight(q, u.left, u.node, u.tag), u.right;
      AtUp(Snap(S), q, u, root.node);
      Look(Snap(S), q, u, root.node);
    }
  }

  /** `rb_last`. */
  method RbLast(root: Root) returns (n: Node?)
    requires Holds(root)
    ensures n == LastOf(Inorder(root.tree))
  {
    n := root.node;
    if n == null {
      return null;
    }
    MaxLast(root.tree);
    n := Rightmost(n, root, Nodes(root.tree), Top, root.tree);
  }

  /** The climb of `rb_next`: up while coming from the right. */
  method ClimbRight(start: Node, root: Root, ghost S: set<Node>, ghost c: Path, ghost t: Tree) returns (parent: Node?)
    requires t.Fork? && start == t.node && At(Snap(S), c, t, root.node)
    ensures parent == FirstOf(After(c))
  {
    var node := start;
    ghost var q, u := c, t;
    Look(Snap(S), q, u, root.node);
    parent := node.parent;
    while parent != null && node == parent.right
      invariant u.Fork? && node == u.node && At(Snap(S), q, u, root.node) && parent == Above(q) == node.parent
      invariant FirstOf(After(q)) == FirstOf(After(c))
      decreases Depth(q)
    {
      Look(Snap(S), q, u, root.node);
      node := parent;
      AtUp(Snap(S), q, u, root.node);
      q, u := q.up, Wrap(q, u);
      Look(Snap(S), q, u, root.node);
      parent := node.parent;
    }
    Look(Snap(S), q, u, root.node);
  }

  method ClimbLeft(start: Node, root: Root, ghost S: set<Node>, ghost c: Path, ghost t: Tree) returns (parent: Node?)
    requires t.Fork? && start == t.node && At(Snap(S), c, t, root.node)
    ensures parent == LastOf(Before(c))
  {
    var node := start;
    ghost var q, u := c, t;
    Look(Snap(S), q, u, root.node);
    parent := node.parent;
    while parent != null && node == parent.left
      invariant u.Fork? && node == u.node && At(Snap(S), q, u, root.node) && parent == Above(q) == node.parent
      invariant LastOf(Before(q)) == LastOf(Before(c))
      decreases Depth(q)
    {
      Look(Snap(S), q, u, root.node);
      node := parent;
      AtUp(Snap(S), q, u, root.node);
      q, u := q.up, Wrap(q, u);
      Look(Snap(S), q, u, root.node);
      parent := node.parent;
    }
    Look(Snap(S), q, u, root.node);
  }

  /** `rb_next` at a known place. */
  method NextAt(node: Node, root: Root, ghost S: set<Node>, ghost c: Path, ghost t: Tree) returns (r: Node?)
    requires t.Fork? && node == t.node && At(Snap(S), c, t, root.node)
    ensures r == FirstOf(Inorder(t.right) + After(c))
  {
    Look(Snap(S), c, t, root.node);
    if node.parent == node {
      return null;
    }
    if node.right != null {
      ghost var b := InRight(c, t.left, t.node, t.tag);
      AtUp(Snap(S), b, t.right, root.node);
      MinFirst(t.right);
      r := Leftmost(node.right, root, S, b, t.right);
    } else {
      r := ClimbRight(node, root, S, c, t);
    }
  }

  method PrevAt(node: Node, root: Root, ghost S: set<Node>, ghost c: Path, ghost t: Tree) returns (r: Node?)
    requires t.Fork? && node == t.node && At(Snap(S), c, t, root.node)
    ensures r == LastOf(Before(c) + Inorder(t.left))
  {
    Look(Snap(S), c, t, root.node);
    if node.parent == node {
      return null;
    }
    if node.left != null {
      ghost var b := InLeft(c, t.node, t.tag, t.right);
      AtUp(Snap(S), b, t.left, root.node);
      MaxLast(t.left);
      r := Rightmost(node.left, root, S, b, t.left);
    } else {
      r := ClimbLeft(node, root, S, c, t);
    }
  }

  /** `rb_next`. */
  method RbNext(node: Node, root: Root) returns (r: Node?)
    requires Valid(root) && node in Nodes(root.tree)
    ensures Follows(Inorder(root.tree), node, r) && Valid(root)
  {
    ghost var S := Nodes(root.tree);
    assert allocated(S);
    ghost var (c, t) := Focus(Top, root.tree, node);
    AtSwitch(Snap(S), Top, root.tree, c, t, root.node);
    FocusNeighbours(c, t);
    r := NextAt(node, root, S, c, t);
    assert Snap(S) == old(Snap(S));
  }

  /** `rb_prev`. */
  method RbPrev(node: Node, root: Root) returns (r: Node?)
    requires Holds(root) && node in Nodes(root.tree)
    ensures Precedes(Inorder(root.tree), node, r)
  {
    ghost var S := Nodes(root.tree);
    ghost var (c, t) := Focus(Top, root.tree, node);
    AtSwitch(Snap(S), Top, root.tree, c, t, root.node);
    FocusNeighbours(c, t);
    r := PrevAt(node, root, S, c, t);
  }

  /** One round of the sweep: take the next node, then erase the current one. */
  method SweepStep(cur: Node, root: Root) returns (next: Node?, ghost rest: seq<Node>)
    requires Valid(root) && Inorder(root.tree) != [] && cur == Inorder(root.tree)[0]
    modifies root, Nodes(root.tree)`left, Nodes(root.tree)`right, Nodes(root.tree)`parent, Nodes(root.tree)`tag
    ensures Valid(root) && rest == Inorder(root.tree) && next == FirstOf(rest)
    ensures rest == old(Inorder(root.tree))[1..]
    ensures Nodes(root.tree) <= old(Nodes(root.tree))
  {
    NodesInorder(root.tree);
    assert cur in Inorder(root.tree);
    next := RbNext(cur, root);
    Erase(cur, root);
    rest := Inorder(root.tree);
  }

  /** The sweep that empties a tree visits every node once, in order. */
  method Sweep(root: Root) returns (visited: seq<Node>)
    requires Valid(root)
    modifies root, Nodes(root.tree)
    ensures visited == old(Inorder(root.tree))
    ensures Valid(root) && root.tree == Leaf && root.node == null
  {
    ghost var all := Nodes(root.tree);
    var cur := RbFirst(root);
    visited := [];
    ghost var rest := Inorder(root.tree);
    while cur != null
      invariant Valid(root) && Nodes(root.tree) <= all
      invariant rest == Inorder(root.tree) && cur == FirstOf(rest)
      invariant visited + rest == old(Inorder(root.tree))
      decreases |rest|
    {
      var node: Node := cur;
      MoveHead(visited, rest);
      cur, rest := SweepStep(node, root);
      visited := visited + [node];
    }
    if root.tree.Fork? {
      MinFirst(root.tree);
    }
  }

  /** `s'` is `s` with `n` in the place of `victim`. */
  ghost predicate Swapped(s: seq<Node>, victim: Node, n: Node, s': seq<Node>) {
    |s'| == |s| && forall k :: 0 <= k < |s| ==> s'[k] == if s[k] == victim then n else s[k]
  }

  lemma {:induction false} ReplacedOrder(c: Path, t: Tree, n: Node)
    requires t.Fork? && Distinct(Plug(c, t)) && Distinct(Plug(c, t.(node := n)))
    ensures Swapped(Inorder(Plug(c, t)), t.node, n, Inorder(Plug(c, t.(node := n))))
  {
    SplitOrder(c, t);
    SplitOrder(c, t.(node := n));
    OnlyOnce(Before(c) + Inorder(t.left), t.node, Inorder(t.right) + After(c));
  }

  lemma {:induction false} ReplacedValid(c: Path, t: Tree, n: Node)
    requires t.Fork? && RedBlack(Plug(c, t)) && Distinct(Plug(c, t)) && n !in Nodes(Plug(c, t))
    ensures var t' := t.(node := n);
      && RedBlack(Plug(c, t')) && Nodes(Plug(c, t')) == Nodes(Plug(c, t)) - {t.node} + {n}
      && Apart(c, t') && Swapped(Inorder(Plug(c, t)), t.node, n, Inorder(Plug(c, t')))
  {
    RbPlug(c, t);
    RbPlug(c, t.(node := n));
    ApartPlug(c, t);
    ApartPlug(c, t.(node := n));
    ReplacedOrder(c, t, n);
  }

  method ReplaceAt(victim: Node, new_: Node, root: Root, ghost S: set<Node>, ghost c: Path, ghost t: Tree)
    requires t.Fork? && victim == t.node && At(Snap(S), c, t, root.node)
    requires new_ in S && victim != new_ && Apart(c, t.(node := new_))
    modifies root`node, S`left, S`right, S`parent, S`tag
    ensures At(Snap(S), Top, Plug(c, t.(node := new_)), root.node)
  {
    Pieces(Snap(S), c, t.left, victim, t.tag, t.right, root.node);
    TakePlace(victim, new_, root, S, c, t.left, t.tag, t.right);
    AtPlug(Snap(S), c, t.(node := new_), root.node);
  }

  /** `rb_replace_node`: the new node takes the victim's links and colour. */
  method RbReplaceNode(victim: Node, new_: Node, root: Root)
    requires Valid(root) && victim in Nodes(root.tree) && new_ !in Nodes(root.tree)
    modifies root, Nodes(root.tree)`left, Nodes(root.tree)`right, Nodes(root.tree)`parent, Nodes(root.tree)`tag
    modifies new_`left, new_`right, new_`parent, new_`tag
    ensures Valid(root) && Swapped(old(Inorder(root.tree)), victim, new_, Inorder(root.tree))
    ensures Nodes(root.tree) == old(Nodes(root.tree)) - {victim} + {new_}
  {
    ghost var S := Nodes(root.tree) + {new_};
    ghost var (c, t) := Focus(Top, root.tree, victim);
    AtFrame(Snap(Nodes(root.tree)), Snap(S), root.tree, root.node);
    AtSwitch(Snap(S), Top, root.tree, c, t, root.node);
    ReplacedValid(c, t, new_);
    ReplaceAt(victim, new_, root, S, c, t);
    Install(root, Plug(c, t.(node := new_)), S);
  }
}
