/** How a linked structure represents a tree, and the pointer surgery that
    both balanced trees are made of.

    The heap is looked at through a snapshot of the four link fields of a set
    of nodes; that a snapshot shows a given tree is a matter of pure maps. */
module Links {
  import opened Trees

  datatype Cell = Cell(left: Node?, right: Node?, parent: Node?, tag: int)

  type Image = map<Node, Cell>

  ghost function Snap(S: set<Node>): Image
    reads S`left, S`right, S`parent, S`tag
  {
    map n | n in S :: Cell(n.left, n.right, n.parent, n.tag)
  }

  class Root {
    var node: Node?
    ghost var tree: Tree

    constructor ()
      ensures node == null && tree == Leaf
    {
      node, tree := null, Leaf;
    }
  }

  /** `t` is linked below `p`. */
  ghost predicate Sub(m: Image, t: Tree, p: Node?) {
    match t
    case Leaf => true
    case Fork(l, n, d, r) =>
      && n in m && m[n] == Cell(RootOf(l), RootOf(r), p, d)
      && Sub(m, l, n) && Sub(m, r, n)
  }

  /** `c` is linked above a hole whose link currently points to `x`. */
  ghost predicate Along(m: Image, c: Path, x: Node?, root: Node?) {
    match c
    case Top => root == x
    case InLeft(up, n, d, r) =>
      && n in m && m[n] == Cell(x, RootOf(r), Above(up), d)
      && Sub(m, r, n) && Along(m, up, n, root)
    case InRight(up, l, n, d) =>
      && n in m && m[n] == Cell(RootOf(l), x, Above(up), d)
      && Sub(m, l, n) && Along(m, up, n, root)
  }

  /** The tree `t` hangs in the hole of `c`, except that the link into the hole
      still points to `x`. */
  ghost predicate Loose(m: Image, c: Path, x: Node?, t: Tree, root: Node?) {
    Apart(c, t) && Along(m, c, x, root) && Sub(m, t, Above(c))
  }

  ghost predicate At(m: Image, c: Path, t: Tree, root: Node?) {
    Loose(m, c, RootOf(t), t, root)
  }

  ghost predicate Same(m: Image, m': Image, S: set<Node>) {
    forall n :: n in S && n in m ==> n in m' && m'[n] == m[n]
  }

  lemma {:induction false} SubFrame(m: Image, m': Image, t: Tree, p: Node?)
    requires Sub(m, t, p) && Same(m, m', Nodes(t))
    ensures Sub(m', t, p)
  {
    if t.Fork? {
      SubFrame(m, m', t.left, t.node);
      SubFrame(m, m', t.right, t.node);
    }
  }

  lemma {:induction false} AlongFrame(m: Image, m': Image, c: Path, x: Node?, root: Node?)
    requires Along(m, c, x, root) && Same(m, m', PathNodes(c))
    ensures Along(m', c, x, root)
  {
    if c.InLeft? {
      SubFrame(m, m', c.right, c.node);
      AlongFrame(m, m', c.up, c.node, root);
    } else if c.InRight? {
      SubFrame(m, m', c.left, c.node);
      AlongFrame(m, m', c.up, c.node, root);
    }
  }

  lemma {:induction false} SubNodes(m: Image, t: Tree, p: Node?)
    requires Sub(m, t, p)
    ensures Nodes(t) <= m.Keys
  {
    if t.Fork? {
      SubNodes(m, t.left, t.node);
      SubNodes(m, t.right, t.node);
    }
  }

  /** Moving the hole one level up. */
  lemma {:induction false} AtUp(m: Image, c: Path, t: Tree, root: Node?)
    requires !c.Top?
    ensures At(m, c, t, root) <==> At(m, c.up, Wrap(c, t), root)
  {
  }

  /** The place where the hole is does not matter. */
  lemma {:induction false} AtPlug(m: Image, c: Path, t: Tree, root: Node?)
    ensures At(m, c, t, root) <==> At(m, Top, Plug(c, t), root)
  {
    if !c.Top? {
      AtUp(m, c, t, root);
      AtPlug(m, c.up, Wrap(c, t), root);
    }
  }

  lemma {:induction false} AtSwitch(m: Image, c: Path, t: Tree, c': Path, t': Tree, root: Node?)
    requires At(m, c, t, root) && Plug(c, t) == Plug(c', t')
    ensures At(m, c', t', root)
  {
    AtPlug(m, c, t, root);
    AtPlug(m, c', t', root);
  }

  /** What the fields around the hole say. */
  lemma {:induction false} Look(m: Image, c: Path, t: Tree, root: Node?)
    requires At(m, c, t, root)
    ensures c.Top? ==> root == RootOf(t)
    ensures t.Fork? ==> t.node in m && m[t.node] == Cell(RootOf(t.left), RootOf(t.right), Above(c), t.tag)
    ensures c.InLeft? ==> c.node in m && m[c.node] == Cell(RootOf(t), RootOf(c.right), Above(c.up), c.tag)
    ensures c.InRight? ==> c.node in m && m[c.node] == Cell(RootOf(c.left), RootOf(t), Above(c.up), c.tag)
    ensures t.Fork? && c.InLeft? ==> m[c.node].right != t.node
    ensures t.Fork? && c.InRight? ==> m[c.node].left != t.node
    ensures t.Fork? && !c.Top? ==> c.node != t.node
  {
  }

  /** The root of the whole structure hangs in no hole but the topmost. */
  lemma {:induction false} AtTopmost(m: Image, c: Path, t: Tree, root: Node?)
    requires At(m, c, t, root)
    ensures RootOf(t) == root <==> c.Top?
  {
    AtPlug(m, c, t, root);
    if !c.Top? {
      RootAbove(c, t);
    }
  }

  lemma {:induction false} RootAbove(c: Path, t: Tree)
    requires !c.Top?
    ensures Plug(c, t).Fork? && Plug(c, t).node in PathNodes(c)
  {
    if !c.up.Top? {
      RootAbove(c.up, Wrap(c, t));
    }
  }

  /** The link into the hole has been redirected from `x` to `y`. */
  lemma {:induction false} Relinked(m: Image, m': Image, c: Path, x: Node?, y: Node?, root: Node?, root': Node?)
    requires DistinctPath(c) && Along(m, c, x, root)
    requires c.Top? ==> root' == y
    requires !c.Top? ==> root' == root && c.node in m && c.node in m' && Same(m, m', PathNodes(c) - {c.node})
    requires c.InLeft? ==> m'[c.node] == m[c.node].(left := y)
    requires c.InRight? ==> m'[c.node] == m[c.node].(right := y)
    ensures Along(m', c, y, root')
  {
    if !c.Top? {
      SubFrame(m, m', if c.InLeft? then c.right else c.left, c.node);
      AlongFrame(m, m', c.up, c.node, root);
    }
  }

  /** Only the parent pointer of the root of `t` has changed. */
  lemma {:induction false} Adopted(m: Image, m': Image, t: Tree, p: Node?, q: Node?)
    requires Distinct(t) && Sub(m, t, p)
    requires t.Fork? ==> t.node in m' && m'[t.node] == m[t.node].(parent := q)
    requires t.Fork? ==> Same(m, m', Nodes(t) - {t.node})
    ensures Sub(m', t, q)
  {
    if t.Fork? {
      SubFrame(m, m', t.left, t.node);
      SubFrame(m, m', t.right, t.node);
    }
  }

  /** Only the tag of the root of `t` has changed. */
  lemma {:induction false} Retagged(m: Image, m': Image, c: Path, x: Node?, t: Tree, d: int, root: Node?)
    requires t.Fork? && Loose(m, c, x, t, root)
    requires m' == m[t.node := m[t.node].(tag := d)]
    ensures Loose(m', c, x, Tagged(t, d), root)
  {
    AlongFrame(m, m', c, x, root);
    SubFrame(m, m', t.left, t.node);
    SubFrame(m, m', t.right, t.node);
  }

  method SetTag(n: Node, d: int, root: Root, ghost S: set<Node>, ghost c: Path, ghost x: Node?, ghost t: Tree)
    requires t.Fork? && n == t.node && Loose(Snap(S), c, x, t, root.node)
    modifies n`tag
    ensures Loose(Snap(S), c, x, Tagged(t, d), root.node)
  {
    ghost var m := Snap(S);
    n.tag := d;
    Retagged(m, Snap(S), c, x, t, d, root.node);
  }

  function Only(x: Node?): set<Node> {
    if x == null then {} else {x}
  }

  /** Redirect the link that leads from `parent` (or from the root) to `child`. */
  method ReplaceChild(root: Root, parent: Node?, child: Node, new_: Node?, ghost S: set<Node>, ghost c: Path)
    requires DistinctPath(c) && Along(Snap(S), c, child, root.node) && parent == Above(c)
    requires child !in PathNodes(c)
    modifies root`node, S`left, S`right
    ensures Along(Snap(S), c, new_, root.node)
    ensures Same(old(Snap(S)), Snap(S), S - PathNodes(c))
  {
    ghost var m := Snap(S);
    if parent != null {
      if child == parent.left {
        parent.left := new_;
      } else {
        parent.right := new_;
      }
    } else {
      root.node := new_;
    }
    Relinked(m, Snap(S), c, child, new_, old(root.node), root.node);
  }

  lemma {:induction false} RightCell(m: Image, c: Path, x: Node?, t: Tree, root: Node?)
    requires t.Fork? && t.right.Fork? && Loose(m, c, x, t, root)
    ensures t.right.node in m && t.right.node in Nodes(t) && t.right.node != t.node
    ensures m[t.right.node] == Cell(RootOf(t.right.left), RootOf(t.right.right), t.node, t.right.tag)
    ensures t.right.left.Fork? ==>
      var b := t.right.left.node; b in m && b in Nodes(t) && b != t.right.node && b != t.node
  {
    assert Sub(m, t.right, t.node) && Distinct(t.right);
    if t.right.left.Fork? {
      assert t.right.left.node in Nodes(t.right.left) && Sub(m, t.right.left, t.right.node);
    }
  }

  lemma {:induction false} LeftCell(m: Image, c: Path, x: Node?, t: Tree, root: Node?)
    requires t.Fork? && t.left.Fork? && Loose(m, c, x, t, root)
    ensures t.left.node in m && t.left.node in Nodes(t) && t.left.node != t.node
    ensures m[t.left.node] == Cell(RootOf(t.left.left), RootOf(t.left.right), t.node, t.left.tag)
    ensures t.left.right.Fork? ==>
      var b := t.left.right.node; b in m && b in Nodes(t) && b != t.left.node && b != t.node
  {
    assert Sub(m, t.left, t.node) && Distinct(t.left);
    if t.left.right.Fork? {
      assert t.left.right.node in Nodes(t.left.right) && Sub(m, t.left.right, t.left.node);
    }
  }

  lemma {:induction false} SpunLeft(m: Image, m': Image, c: Path, x: Node?, t: Tree, root: Node?)
    requires t.Fork? && t.right.Fork? && Loose(m, c, x, t, root)
    requires t.right.node in m && m'.Keys == m.Keys
    requires m'[t.node] == m[t.node].(right := m[t.right.node].left, parent := t.right.node)
    requires m'[t.right.node] == m[t.right.node].(left := t.node, parent := m[t.node].parent)
    requires var y := m[t.right.node].left; y != null ==> y in m && m'[y] == m[y].(parent := t.node)
    requires Same(m, m', m.Keys - {t.node, t.right.node} - Only(m[t.right.node].left))
    ensures Loose(m', c, x, RotatedLeft(t), root)
  {
    var Fork(a, n, _, Fork(b, r, _, d)) := t;
    assert Sub(m, t.right, n) && Distinct(t.right) && Nodes(t.right) == Nodes(b) + {r} + Nodes(d);
    SubFrame(m, m', a, n);
    SubFrame(m, m', d, r);
    Adopted(m, m', b, r, n);
    AlongFrame(m, m', c, x, root);
    RotatedInorder(t);
    SameInorderApart(c, t, RotatedLeft(t));
  }

  lemma {:induction false} SpunRight(m: Image, m': Image, c: Path, x: Node?, t: Tree, root: Node?)
    requires t.Fork? && t.left.Fork? && Loose(m, c, x, t, root)
    requires t.left.node in m && m'.Keys == m.Keys
    requires m'[t.node] == m[t.node].(left := m[t.left.node].right, parent := t.left.node)
    requires m'[t.left.node] == m[t.left.node].(right := t.node, parent := m[t.node].parent)
    requires var y := m[t.left.node].right; y != null ==> y in m && m'[y] == m[y].(parent := t.node)
    requires Same(m, m', m.Keys - {t.node, t.left.node} - Only(m[t.left.node].right))
    ensures Loose(m', c, x, RotatedRight(t), root)
  {
    var Fork(Fork(d, r, _, b), n, _, a) := t;
    assert Sub(m, t.left, n) && Distinct(t.left) && Nodes(t.left) == Nodes(d) + {r} + Nodes(b);
    SubFrame(m, m', a, n);
    SubFrame(m, m', d, r);
    Adopted(m, m', b, r, n);
    AlongFrame(m, m', c, x, root);
    RotatedInorder(t);
    SameInorderApart(c, t, RotatedRight(t));
  }

  /** The pointer part of a left rotation, up to the link into the subtree. */
  method SpinLeft(node: Node, root: Root, ghost S: set<Node>, ghost c: Path, ghost x: Node?, ghost t: Tree)
      returns (right: Node)
    requires t.Fork? && t.right.Fork? && node == t.node && Loose(Snap(S), c, x, t, root.node)
    modifies S`left, S`right, S`parent
    ensures right == t.right.node && Loose(Snap(S), c, x, RotatedLeft(t), root.node)
  {
    ghost var m := Snap(S);
    right := node.right;
    RightCell(m, c, x, t, root.node);
    node.right := right.left;
    if right.left != null {
      right.left.parent := node;
    }
    right.left := node;
    right.parent := node.parent;
    node.parent := right;
    SpunLeft(m, Snap(S), c, x, t, root.node);
  }

  /** The pointer part of a right rotation, up to the link into the subtree. */
  method SpinRight(node: Node, root: Root, ghost S: set<Node>, ghost c: Path, ghost x: Node?, ghost t: Tree)
      returns (left: Node)
    requires t.Fork? && t.left.Fork? && node == t.node && Loose(Snap(S), c, x, t, root.node)
    modifies S`left, S`right, S`parent
    ensures left == t.left.node && Loose(Snap(S), c, x, RotatedRight(t), root.node)
  {
    ghost var m := Snap(S);
    left := node.left;
    LeftCell(m, c, x, t, root.node);
    node.left := left.right;
    if left.right != null {
      left.right.parent := node;
    }
    left.right := node;
    left.parent := node.parent;
    node.parent := left;
    SpunRight(m, Snap(S), c, x, t, root.node);
  }

  /** Nodes on a path stay put while the hole is filled. */
  lemma {:induction false} LooseLinked(m: Image, m': Image, c: Path, x: Node?, t: Tree, root: Node?, root': Node?)
    requires Loose(m, c, x, t, root) && Along(m', c, RootOf(t), root')
    requires Same(m, m', Nodes(t))
    ensures At(m', c, t, root')
  {
    SubFrame(m, m', t, Above(c));
  }

  /** A new leaf hangs in a hole that was empty. */
  lemma {:induction false} LeafLinked(m: Image, m': Image, c: Path, n: Node, d: int, root: Node?, root': Node?)
    requires At(m, c, Leaf, root) && n !in PathNodes(c)
    requires n in m' && m'[n] == Cell(null, null, Above(c), d)
    requires c.Top? ==> root' == n
    requires !c.Top? ==> root' == root && c.node in m && c.node in m' && Same(m, m', PathNodes(c) - {c.node})
    requires c.InLeft? ==> m'[c.node] == m[c.node].(left := n)
    requires c.InRight? ==> m'[c.node] == m[c.node].(right := n)
    ensures At(m', c, Fork(Leaf, n, d, Leaf), root')
  {
    Relinked(m, m', c, null, n, root, root');
  }

  /** Unlink the node `n`, which has no left child and is itself a left child:
      its right subtree takes its place. */
  method Detach(n: Node, root: Root, ghost S: set<Node>, ghost c: Path, ghost t: Tree)
    requires c.InLeft? && t.Fork? && n == t.node && t.left.Leaf? && At(Snap(S), c, t, root.node)
    modifies S`left, S`parent
    ensures At(Snap(S), c, t.right, root.node)
    ensures n.parent == old(n.parent) && n.right == old(n.right)
  {
    ghost var m := Snap(S);
    Look(m, c, t, root.node);
    ghost var r := InRight(c, t.left, n, t.tag);
    AtUp(m, r, t.right, root.node);
    Look(m, r, t.right, root.node);
    n.parent.left := n.right;
    if n.right != null {
      n.right.parent := n.parent;
    }
    Adopted(m, Snap(S), t.right, n, c.node);
    Relinked(m, Snap(S), c, n, RootOf(t.right), root.node, root.node);
  }

  lemma {:induction false} Pieces(m: Image, c: Path, l: Tree, n: Node, d: int, r: Tree, root: Node?)
    requires At(m, c, Fork(l, n, d, r), root)
    ensures n in m && m[n] == Cell(RootOf(l), RootOf(r), Above(c), d) && n !in PathNodes(c)
    ensures Sub(m, l, n) && Sub(m, r, n) && Along(m, c, n, root)
  {
  }

  /** `old_` is about to be replaced by `s` at the top of `Fork(l, old_, d, r)`; the link
      into it points to `x`.  By now `s` is either outside the structure, or still
      the right child of `old_`, without a left child of its own. */
  ghost predicate Leaving(m: Image, old_: Node, s: Node, c: Path, x: Node, l: Tree, d: int, r: Tree, root: Node?) {
    && old_ != s && old_ !in PathNodes(c) && old_ !in Nodes(l) && old_ !in Nodes(r)
    && Apart(c, Fork(l, s, d, r))
    && old_ in m && s in m && Along(m, c, x, root) && Sub(m, l, old_)
    && m[old_].left == RootOf(l) && m[old_].parent == Above(c) && m[old_].tag == d
    && (if m[old_].right == s then m[s].right == RootOf(r) && Sub(m, r, s)
        else m[old_].right == RootOf(r) && Sub(m, r, old_))
  }

  /** `s` takes over every link of `old_` and its tag. */
  method TakePlace(old_: Node, s: Node, root: Root,
      ghost S: set<Node>, ghost c: Path, ghost l: Tree, ghost d: int, ghost r: Tree)
    requires Leaving(Snap(S), old_, s, c, old_, l, d, r, root.node)
    modifies root`node, S`left, S`right, S`parent, S`tag
    ensures At(Snap(S), c, Fork(l, s, d, r), root.node)
  {
    ghost var m := Snap(S);
    ReplaceChild(root, old_.parent, old_, s, S, c);
    SubFrame(m, Snap(S), l, old_);
    SubFrame(m, Snap(S), r, if old_.right == s then s else old_);
    Inherit(old_, s, S, c, l, d, r, root.node);
  }

  method Inherit(old_: Node, s: Node,
      ghost S: set<Node>, ghost c: Path, ghost l: Tree, ghost d: int, ghost r: Tree, ghost root: Node?)
    requires Leaving(Snap(S), old_, s, c, s, l, d, r, root)
    modifies S`left, S`right, S`parent, S`tag
    ensures At(Snap(S), c, Fork(l, s, d, r), root)
  {
    ghost var m := Snap(S);
    InheritRight(old_, s, S, r);
    ghost var m1 := Snap(S);
    SubFrame(m, m1, l, old_);
    InheritLeft(old_, s, S, l);
    ghost var m2 := Snap(S);
    SubFrame(m1, m2, r, s);
    AlongFrame(m, m2, c, s, root);
    assert m2[old_] == m1[old_] == m[old_];
    InheritWord(old_, s, S, c, l, d, r, root);
  }

  /** The packed word: the parent pointer together with the tag. */
  method InheritWord(old_: Node, s: Node,
      ghost S: set<Node>, ghost c: Path, ghost l: Tree, ghost d: int, ghost r: Tree, ghost root: Node?)
    requires s in S && Apart(c, Fork(l, s, d, r))
    requires s.left == RootOf(l) && s.right == RootOf(r) && old_.parent == Above(c) && old_.tag == d
    requires Along(Snap(S), c, s, root) && Sub(Snap(S), l, s) && Sub(Snap(S), r, s)
    modifies s`parent, s`tag
    ensures At(Snap(S), c, Fork(l, s, d, r), root)
  {
    ghost var m := Snap(S);
    s.parent, s.tag := old_.parent, old_.tag;
    Placed(m, Snap(S), c, l, s, d, r, root);
  }

  method InheritLeft(old_: Node, s: Node, ghost S: set<Node>, ghost l: Tree)
    requires old_ != s && old_ in S && s in S && Distinct(l) && s !in Nodes(l) && old_ !in Nodes(l)
    requires old_.left == RootOf(l) && Sub(Snap(S), l, old_)
    modifies S`left, S`parent
    ensures s.left == RootOf(l) && Sub(Snap(S), l, s)
    ensures Same(old(Snap(S)), Snap(S), S - {s} - Nodes(l))
    ensures s.right == old(s.right)
  {
    ghost var m := Snap(S);
    s.left := old_.left;
    if old_.left != null {
      old_.left.parent := s;
    }
    Adopted(m, Snap(S), l, old_, s);
  }

  method InheritRight(old_: Node, s: Node, ghost S: set<Node>, ghost r: Tree)
    requires old_ != s && old_ in S && s in S && Distinct(r) && s !in Nodes(r) && old_ !in Nodes(r)
    requires if old_.right == s then s.right == RootOf(r) && Sub(Snap(S), r, s)
             else old_.right == RootOf(r) && Sub(Snap(S), r, old_)
    modifies S`right, S`parent
    ensures s.right == RootOf(r) && Sub(Snap(S), r, s)
    ensures Same(old(Snap(S)), Snap(S), S - {s} - Nodes(r))
  {
    ghost var m := Snap(S);
    if old_.right != s {
      s.right := old_.right;
      if old_.right != null {
        old_.right.parent := s;
      }
      Adopted(m, Snap(S), r, old_, s);
    }
  }

  lemma {:induction false} Placed(m: Image, m': Image, c: Path, l: Tree, s: Node, d: int, r: Tree, root: Node?)
    requires Apart(c, Fork(l, s, d, r))
    requires Along(m, c, s, root) && Sub(m, l, s) && Sub(m, r, s)
    requires s in m' && m'[s] == Cell(RootOf(l), RootOf(r), Above(c), d) && Same(m, m', m.Keys - {s})
    ensures At(m', c, Fork(l, s, d, r), root)
  {
    SubFrame(m, m', l, s);
    SubFrame(m, m', r, s);
    AlongFrame(m, m', c, s, root);
  }

  /** Unlink a node with at most one child: the child takes its place. */
  method Lift(n: Node, child: Node?, root: Root, ghost S: set<Node>, ghost c: Path, ghost t: Tree, ghost u: Tree)
    requires t.Fork? && n == t.node && At(Snap(S), c, t, root.node) && child == RootOf(u)
    requires (t.left.Leaf? && u == t.right) || (t.right.Leaf? && u == t.left)
    modifies root`node, S`left, S`right, S`parent
    ensures At(Snap(S), c, u, root.node)
  {
    ghost var m := Snap(S);
    Pieces(m, c, t.left, n, t.tag, t.right, root.node);
    SubNodes(m, u, n);
    assert child != null ==> child in Nodes(u);
    var parent := n.parent;
    if child != null {
      child.parent := parent;
    }
    Adopted(m, Snap(S), u, n, parent);
    AlongFrame(m, Snap(S), c, n, root.node);
    ghost var m1 := Snap(S);
    ReplaceChild(root, parent, n, child, S, c);
    SubFrame(m1, Snap(S), u, parent);
  }

  /** The least node of the right subtree of `old_` leaves its place. */
  method DetachMin(old_: Node, s: Node, root: Root,
      ghost S: set<Node>, ghost c: Path, ghost t: Tree, ghost q: Path, ghost u: Tree)
    requires t.Fork? && t.right.Fork? && old_ == t.node && At(Snap(S), q, u, root.node)
    requires u == Min(t.right) && s == u.node && q == MinPath(InRight(c, t.left, t.node, t.tag), t.right)
    modifies S`left, S`parent
    ensures Leaving(Snap(S), old_, s, c, old_, t.left, t.tag, WithoutMin(t.right), root.node)
    ensures old_.right == s <==> t.right.left.Leaf?
    ensures s.right == old(s.right) && s.right == RootOf(u.right)
  {
    ghost var r, b := t.right, InRight(c, t.left, t.node, t.tag);
    MinFacts(b, r);
    AtSwitch(Snap(S), q, u, c, t, root.node);
    SpliceApart(c, t);
    Look(Snap(S), q, u, root.node);
    Pieces(Snap(S), c, t.left, old_, t.tag, r, root.node);
    if s.parent != old_ {
      MinPathSide(b, r);
      Detach(s, root, S, q, u);
      ghost var t' := Fork(t.left, old_, t.tag, WithoutMin(r));
      AtSwitch(Snap(S), q, u.right, c, t', root.node);
      Pieces(Snap(S), c, t.left, old_, t.tag, WithoutMin(r), root.node);
    } else {
      MinPathSide(b, r);
    }
  }

  lemma {:induction false} SpliceApart(c: Path, t: Tree)
    requires t.Fork? && t.right.Fork? && Apart(c, t)
    ensures var s, r := Min(t.right).node, WithoutMin(t.right);
      && Apart(c, Fork(t.left, s, t.tag, r)) && s != t.node && s in Nodes(t.right)
      && t.node !in PathNodes(c) && t.node !in Nodes(t.left) && t.node !in Nodes(r)
  {
    MinDistinct(t.right);
  }

  /** A structure does not depend on nodes outside it. */
  lemma {:induction false} AtFrame(m: Image, m': Image, t: Tree, root: Node?)
    requires At(m, Top, t, root) && Same(m, m', Nodes(t))
    ensures At(m', Top, t, root)
  {
    SubFrame(m, m', t, null);
  }

  /** `p->left = n`, which ties a loose subtree to the hole again. */
  method LinkLeft(p: Node, n: Node?, root: Root, ghost S: set<Node>, ghost c: Path, ghost x: Node?, ghost t: Tree)
    requires c.InLeft? && p == c.node && n == RootOf(t) && Loose(Snap(S), c, x, t, root.node)
    modifies p`left
    ensures At(Snap(S), c, t, root.node)
  {
    ghost var m := Snap(S);
    p.left := n;
    Relinked(m, Snap(S), c, x, n, root.node, root.node);
    SubFrame(m, Snap(S), t, p);
  }

  method LinkRight(p: Node, n: Node?, root: Root, ghost S: set<Node>, ghost c: Path, ghost x: Node?, ghost t: Tree)
    requires c.InRight? && p == c.node && n == RootOf(t) && Loose(Snap(S), c, x, t, root.node)
    modifies p`right
    ensures At(Snap(S), c, t, root.node)
  {
    ghost var m := Snap(S);
    p.right := n;
    Relinked(m, Snap(S), c, x, n, root.node, root.node);
    SubFrame(m, Snap(S), t, p);
  }

  /** The linked structure is the tree it is said to be. */
  ghost predicate Holds(root: Root)
    reads root, Nodes(root.tree)`left, Nodes(root.tree)`right, Nodes(root.tree)`parent, Nodes(root.tree)`tag
  {
    At(Snap(Nodes(root.tree)), Top, root.tree, root.node)
  }
}
