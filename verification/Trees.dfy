/** The nodes shared by both balanced trees, and the mathematical trees the
    linked structures are compared with.

    `struct avl_node` and `struct rb_node` have the same layout: two child
    pointers and one word that packs the parent pointer with a small tag (the
    balance factor, or the colour).  One class stands for both. */
module Trees {

  class Node {
    const key: int
    var left: Node?
    var right: Node?
    var parent: Node?
    var tag: int
    var prev: Node?  // only in the threaded AVL build
    var next: Node?  // only in the threaded AVL build
    var aug: int     // the client's augmented value

    constructor (key: int)
      ensures this.key == key
    {
      this.key := key;
    }
  }

  datatype Tree = Leaf | Fork(left: Tree, node: Node, tag: int, right: Tree)

  /** A tree with one hole, read from the hole up to the root. */
  datatype Path =
    | Top
    | InLeft(up: Path, node: Node, tag: int, right: Tree)
    | InRight(up: Path, left: Tree, node: Node, tag: int)

  function RootOf(t: Tree): Node? {
    if t.Leaf? then null else t.node
  }

  /** The node the hole hangs from. */
  function Above(c: Path): Node? {
    if c.Top? then null else c.node
  }

  /** The subtree of the node above the hole, once the hole holds `t`. */
  function Wrap(c: Path, t: Tree): Tree
    requires !c.Top?
  {
    match c
    case InLeft(_, n, d, r) => Fork(t, n, d, r)
    case InRight(_, l, n, d) => Fork(l, n, d, t)
  }

  function Plug(c: Path, t: Tree): Tree {
    if c.Top? then t else Plug(c.up, Wrap(c, t))
  }

  function Sibling(c: Path): Tree
    requires !c.Top?
  {
    if c.InLeft? then c.right else c.left
  }

  /** The path to the sibling, when the hole of `c` holds `t`. */
  function Beside(c: Path, t: Tree): Path
    requires !c.Top?
  {
    if c.InLeft? then InRight(c.up, t, c.node, c.tag) else InLeft(c.up, c.node, c.tag, t)
  }

  lemma {:induction false} PlugFork(c: Path, t: Tree)
    requires t.Fork? || !c.Top?
    ensures Plug(c, t).Fork?
  {
    if !c.Top? {
      PlugFork(c.up, Wrap(c, t));
    }
  }

  function Depth(c: Path): nat {
    if c.Top? then 0 else 1 + Depth(c.up)
  }

  function Max(a: int, b: int): int {
    if a > b then a else b
  }

  function Height(t: Tree): nat {
    if t.Leaf? then 0 else 1 + Max(Height(t.left), Height(t.right))
  }

  function Inorder(t: Tree): seq<Node> {
    match t
    case Leaf => []
    case Fork(l, n, _, r) => Inorder(l) + [n] + Inorder(r)
  }

  /** What precedes the hole in the in-order sequence. */
  function Before(c: Path): seq<Node> {
    match c
    case Top => []
    case InLeft(up, _, _, _) => Before(up)
    case InRight(up, l, n, _) => Before(up) + Inorder(l) + [n]
  }

  /** What follows the hole in the in-order sequence. */
  function After(c: Path): seq<Node> {
    match c
    case Top => []
    case InLeft(up, n, _, r) => [n] + Inorder(r) + After(up)
    case InRight(up, _, _, _) => After(up)
  }

  lemma {:induction false} PlugInorder(c: Path, t: Tree)
    ensures Inorder(Plug(c, t)) == Before(c) + Inorder(t) + After(c)
  {
    if !c.Top? {
      PlugInorder(c.up, Wrap(c, t));
    }
  }

  lemma {:induction false} PlugSame(c: Path, t: Tree, u: Tree)
    requires Inorder(t) == Inorder(u)
    ensures Inorder(Plug(c, t)) == Inorder(Plug(c, u))
  {
    PlugInorder(c, t);
    PlugInorder(c, u);
  }

  function Nodes(t: Tree): set<Node> {
    match t
    case Leaf => {}
    case Fork(l, n, _, r) => Nodes(l) + {n} + Nodes(r)
  }

  function PathNodes(c: Path): set<Node> {
    match c
    case Top => {}
    case InLeft(up, n, _, r) => PathNodes(up) + {n} + Nodes(r)
    case InRight(up, l, n, _) => PathNodes(up) + {n} + Nodes(l)
  }

  predicate Distinct(t: Tree) {
    match t
    case Leaf => true
    case Fork(l, n, _, r) =>
      && n !in Nodes(l) && n !in Nodes(r) && Nodes(l) !! Nodes(r)
      && Distinct(l) && Distinct(r)
  }

  predicate DistinctPath(c: Path) {
    match c
    case Top => true
    case InLeft(up, n, _, s) =>
      && n !in Nodes(s) && n !in PathNodes(up) && Nodes(s) !! PathNodes(up)
      && Distinct(s) && DistinctPath(up)
    case InRight(up, s, n, _) =>
      && n !in Nodes(s) && n !in PathNodes(up) && Nodes(s) !! PathNodes(up)
      && Distinct(s) && DistinctPath(up)
  }

  /** No node occurs twice in the tree with its hole filled. */
  predicate Apart(c: Path, t: Tree) {
    Distinct(t) && DistinctPath(c) && Nodes(t) !! PathNodes(c)
  }

  lemma {:induction false} ApartUp(c: Path, t: Tree)
    requires !c.Top?
    ensures Apart(c, t) <==> Apart(c.up, Wrap(c, t))
  {
  }

  lemma {:induction false} ApartPlug(c: Path, t: Tree)
    ensures Apart(c, t) <==> Distinct(Plug(c, t))
    ensures Nodes(Plug(c, t)) == PathNodes(c) + Nodes(t)
  {
    if !c.Top? {
      ApartPlug(c.up, Wrap(c, t));
    }
  }

  predicate NoRepeat(s: seq<Node>) {
    forall i, j :: 0 <= i < j < |s| ==> s[i] != s[j]
  }

  function Elements(s: seq<Node>): set<Node> {
    set n | n in s
  }

  lemma {:induction false} NodesInorder(t: Tree)
    ensures Nodes(t) == Elements(Inorder(t))
  {
    if t.Fork? {
      NodesInorder(t.left);
      NodesInorder(t.right);
    }
  }

  lemma {:induction false} NoRepeatConcat(a: seq<Node>, b: seq<Node>)
    ensures NoRepeat(a + b) <==> NoRepeat(a) && NoRepeat(b) && Elements(a) !! Elements(b)
    ensures Elements(a + b) == Elements(a) + Elements(b)
  {
    var s := a + b;
    if NoRepeat(s) {
      forall i, j | 0 <= i < j < |b| ensures b[i] != b[j] {
        assert s[|a| + i] != s[|a| + j];
      }
      forall i, j | 0 <= i < j < |a| ensures a[i] != a[j] {
        assert s[i] != s[j];
      }
      forall i, j | 0 <= i < |a| && 0 <= j < |b| ensures a[i] != b[j] {
        assert s[i] != s[|a| + j];
      }
    }
    if NoRepeat(a) && NoRepeat(b) && Elements(a) !! Elements(b) {
      forall i, j | 0 <= i < j < |s| ensures s[i] != s[j] {
        if i < |a| <= j {
          assert a[i] in Elements(a) && b[j - |a|] in Elements(b);
        }
      }
    }
  }

  lemma {:induction false} DistinctInorder(t: Tree)
    ensures Distinct(t) <==> NoRepeat(Inorder(t))
  {
    if t.Fork? {
      var l, r := Inorder(t.left), Inorder(t.right);
      DistinctInorder(t.left);
      DistinctInorder(t.right);
      NodesInorder(t.left);
      NodesInorder(t.right);
      NoRepeatConcat(l + [t.node], r);
      NoRepeatConcat(l, [t.node]);
      assert Elements([t.node]) == {t.node};
    }
  }

  /** A new leaf `n` in the hole of `c`, and a tree that has the same order as the
      result: where `n` is in the order, and what the nodes are. */
  lemma {:induction false} LeafOrder(c: Path, n: Node, d: int, t: Tree)
    requires Distinct(Plug(c, Leaf)) && n !in PathNodes(c)
    requires Inorder(t) == Inorder(Plug(c, Fork(Leaf, n, d, Leaf)))
    ensures Inorder(t) == Before(c) + [n] + After(c)
    ensures Distinct(t) && Nodes(t) == PathNodes(c) + {n}
  {
    var leaf := Fork(Leaf, n, d, Leaf);
    PlugInorder(c, leaf);
    ApartPlug(c, leaf);
    ApartPlug(c, Leaf);
    SameInorder(t, Plug(c, leaf));
  }

  /** Trees with the same in-order sequence have the same nodes. */
  lemma {:induction false} SameInorder(t: Tree, u: Tree)
    requires Inorder(t) == Inorder(u)
    ensures Nodes(t) == Nodes(u) && (Distinct(t) <==> Distinct(u))
  {
    NodesInorder(t);
    NodesInorder(u);
    DistinctInorder(t);
    DistinctInorder(u);
  }

  /** Replacing what the hole holds by something with the same in-order sequence. */
  lemma {:induction false} SameInorderApart(c: Path, t: Tree, u: Tree)
    requires Inorder(t) == Inorder(u) && Apart(c, t)
    ensures Apart(c, u) && Nodes(t) == Nodes(u)
  {
    SameInorder(t, u);
  }

  function Tagged(t: Tree, d: int): Tree {
    if t.Leaf? then t else t.(tag := d)
  }

  function RotatedLeft(t: Tree): Tree
    requires t.Fork? && t.right.Fork?
  {
    var r := t.right;
    Fork(Fork(t.left, t.node, t.tag, r.left), r.node, r.tag, r.right)
  }

  function RotatedRight(t: Tree): Tree
    requires t.Fork? && t.left.Fork?
  {
    var l := t.left;
    Fork(l.left, l.node, l.tag, Fork(l.right, t.node, t.tag, t.right))
  }

  lemma {:induction false} RotatedInorder(t: Tree)
    requires t.Fork?
    ensures t.right.Fork? ==> Inorder(RotatedLeft(t)) == Inorder(t)
    ensures t.left.Fork? ==> Inorder(RotatedRight(t)) == Inorder(t)
  {
    if t.right.Fork? {
      var a, b, d := Inorder(t.left), Inorder(t.right.left), Inorder(t.right.right);
      assert (a + [t.node] + b) + [t.right.node] + d == a + [t.node] + (b + [t.right.node] + d);
    }
    if t.left.Fork? {
      var a, b, d := Inorder(t.left.left), Inorder(t.left.right), Inorder(t.right);
      assert a + [t.left.node] + (b + [t.node] + d) == (a + [t.left.node] + b) + [t.node] + d;
    }
  }

  // The least node of a tree, and the hole it leaves behind.

  function Min(t: Tree): Tree
    requires t.Fork?
    decreases t
    ensures Min(t).Fork? && Min(t).left.Leaf?
  {
    if t.left.Leaf? then t else Min(t.left)
  }

  function MinPath(c: Path, t: Tree): Path
    requires t.Fork?
    decreases t
  {
    if t.left.Leaf? then c else MinPath(InLeft(c, t.node, t.tag, t.right), t.left)
  }

  function WithoutMin(t: Tree): Tree
    requires t.Fork?
    decreases t
  {
    if t.left.Leaf? then t.right else Fork(WithoutMin(t.left), t.node, t.tag, t.right)
  }

  lemma {:induction false} MinFacts(c: Path, t: Tree)
    requires t.Fork?
    decreases t
    ensures Plug(MinPath(c, t), Min(t)) == Plug(c, t)
    ensures Plug(MinPath(c, t), Min(t).right) == Plug(c, WithoutMin(t))
    ensures Inorder(t) == [Min(t).node] + Inorder(WithoutMin(t))
    ensures Before(MinPath(c, t)) == Before(c)
  {
    if t.left.Fork? {
      MinFacts(InLeft(c, t.node, t.tag, t.right), t.left);
    }
  }

  lemma {:induction false} MinDistinct(t: Tree)
    requires t.Fork? && Distinct(t)
    ensures Distinct(WithoutMin(t)) && Nodes(WithoutMin(t)) == Nodes(t) - {Min(t).node}
    ensures Min(t).node in Nodes(t)
    decreases t
  {
    if t.left.Fork? {
      MinDistinct(t.left);
    }
  }

  /** The place of a node in a tree. */
  ghost function Focus(c: Path, t: Tree, n: Node): (r: (Path, Tree))
    requires n in Nodes(t)
    ensures Plug(r.0, r.1) == Plug(c, t) && RootOf(r.1) == n
    decreases t
  {
    if n == t.node then (c, t)
    else if n in Nodes(t.left) then Focus(InLeft(c, t.node, t.tag, t.right), t.left, n)
    else Focus(InRight(c, t.left, t.node, t.tag), t.right, n)
  }

  lemma {:induction false} VacatedOrder(c: Path, t: Tree)
    requires t.Fork?
    ensures t.right.Fork? ==>
      Inorder(Plug(Vacated(c, t), Min(t.right).right)) == Before(c) + Inorder(t.left) + Inorder(t.right) + After(c)
  {
    if t.right.Fork? {
      VacatedFacts(c, t);
      var u := Fork(t.left, Min(t.right).node, t.tag, WithoutMin(t.right));
      PlugInorder(c, u);
      assert Before(c) + (Inorder(t.left) + Inorder(t.right)) + After(c)
          == Before(c) + Inorder(t.left) + Inorder(t.right) + After(c);
    }
  }

  /** A sequence without (the first occurrence of) a node. */
  function Without(s: seq<Node>, n: Node): seq<Node> {
    if s == [] then [] else if s[0] == n then s[1..] else [s[0]] + Without(s[1..], n)
  }

  lemma {:induction false} WithoutMiddle(a: seq<Node>, n: Node, b: seq<Node>)
    requires n !in a
    ensures Without(a + [n] + b, n) == a + b
  {
    var s := a + [n] + b;
    if a == [] {
      assert s[1..] == b;
    } else {
      WithoutMiddle(a[1..], n, b);
      assert s[1..] == a[1..] + [n] + b;
      assert [a[0]] + (a[1..] + b) == a + b;
    }
  }

  /** The root of `t` is removed and the least node of its right subtree moves
      to its place: where that node came from. */
  function Vacated(c: Path, t: Tree): Path
    requires t.Fork? && t.right.Fork?
  {
    MinPath(InRight(c, t.left, Min(t.right).node, t.tag), t.right)
  }

  lemma {:induction false} VacatedFacts(c: Path, t: Tree)
    requires t.Fork? && t.right.Fork?
    ensures var s, r, path := Min(t.right), t.right, Vacated(c, t);
      && Plug(path, s.right) == Plug(c, Fork(t.left, s.node, t.tag, WithoutMin(r)))
      && Plug(path, s) == Plug(c, Fork(t.left, s.node, t.tag, r))
      && Inorder(Fork(t.left, s.node, t.tag, WithoutMin(r))) == Inorder(t.left) + Inorder(r)
  {
    var s, r := Min(t.right), t.right;
    MinFacts(InRight(c, t.left, s.node, t.tag), r);
    assert Inorder(t.left) + [s.node] + Inorder(WithoutMin(r)) == Inorder(t.left) + ([s.node] + Inorder(WithoutMin(r)));
  }

  lemma {:induction false} OnlyOnce(a: seq<Node>, n: Node, b: seq<Node>)
    requires NoRepeat(a + [n] + b)
    ensures n !in a && n !in b && Without(a + [n] + b, n) == a + b
  {
    var s := a + [n] + b;
    assert s[|a|] == n;
    assert forall i :: 0 <= i < |a| ==> s[i] == a[i];
    assert forall i :: 0 <= i < |b| ==> s[|a| + 1 + i] == b[i];
    WithoutMiddle(a, n, b);
  }

  lemma {:induction false} FocusOrder(c: Path, t: Tree)
    requires t.Fork?
    ensures Inorder(Plug(c, t)) == (Before(c) + Inorder(t.left)) + [t.node] + (Inorder(t.right) + After(c))
    ensures After(InLeft(c, t.node, t.tag, t.right)) == [t.node] + (Inorder(t.right) + After(c))
  {
    PlugInorder(c, t);
    var l, n, r := Inorder(t.left), t.node, Inorder(t.right);
    assert Before(c) + (l + [n] + r) + After(c) == (Before(c) + l) + [n] + (r + After(c));
    assert [n] + r + After(c) == [n] + (r + After(c));
  }

  /** What precedes and what follows a node that is in focus. */
  lemma {:induction false} SplitOrder(c: Path, t: Tree)
    requires t.Fork? && Distinct(Plug(c, t))
    ensures var a, b := Before(c) + Inorder(t.left), Inorder(t.right) + After(c);
      && Inorder(Plug(c, t)) == a + [t.node] + b && NoRepeat(a + [t.node] + b)
      && Without(Inorder(Plug(c, t)), t.node) == a + b
  {
    FocusOrder(c, t);
    DistinctInorder(Plug(c, t));
    var a, b := Before(c) + Inorder(t.left), Inorder(t.right) + After(c);
    OnlyOnce(a, t.node, b);
  }

  lemma {:induction false} WithoutRoot(c: Path, t: Tree)
    requires t.Fork? && Distinct(Plug(c, t))
    ensures Without(Inorder(Plug(c, t)), t.node) == Before(c) + Inorder(t.left) + Inorder(t.right) + After(c)
  {
    SplitOrder(c, t);
    assert (Before(c) + Inorder(t.left)) + (Inorder(t.right) + After(c))
        == Before(c) + Inorder(t.left) + Inorder(t.right) + After(c);
  }

  lemma {:induction false} WithoutElements(s: seq<Node>, n: Node)
    requires NoRepeat(s)
    ensures Elements(Without(s, n)) == Elements(s) - {n}
  {
    if s != [] {
      assert NoRepeat(s[1..]) && s[0] !in s[1..];
      NoRepeatConcat([s[0]], s[1..]);
      assert s == [s[0]] + s[1..];
      if s[0] != n {
        WithoutElements(s[1..], n);
        assert Elements([s[0]] + Without(s[1..], n)) == {s[0]} + Elements(Without(s[1..], n));
      }
    }
  }

  lemma {:induction false} WithoutNodes(t: Tree, u: Tree, n: Node)
    requires Distinct(t) && Inorder(u) == Without(Inorder(t), n)
    ensures Nodes(u) == Nodes(t) - {n}
  {
    DistinctInorder(t);
    NodesInorder(t);
    NodesInorder(u);
    WithoutElements(Inorder(t), n);
  }

  /** Unless it is the subtree's root, the least node is a left child of some
      other node of the subtree. */
  lemma {:induction false} MinPathSide(b: Path, r: Tree)
    requires b.InRight? && r.Fork?
    ensures r.left.Leaf? ==> MinPath(b, r) == b && Min(r) == r
    ensures r.left.Fork? ==> MinPath(b, r).InLeft? && MinPath(b, r).node in Nodes(r)
    decreases r
  {
    if r.left.Fork? {
      SpinePath(InLeft(b, r.node, r.tag, r.right), r.left);
    }
  }

  lemma {:induction false} SpinePath(b: Path, r: Tree)
    requires b.InLeft? && r.Fork?
    ensures MinPath(b, r).InLeft? && MinPath(b, r).node in Nodes(r) + {b.node}
    decreases r
  {
    if r.left.Fork? {
      SpinePath(InLeft(b, r.node, r.tag, r.right), r.left);
    }
  }

  /** The hole that `Vacated` leaves: below the node that moved, if that was the
      root of the right subtree, and otherwise below the node's former parent. */
  lemma {:induction false} VacatedAbove(c: Path, t: Tree)
    requires t.Fork? && t.right.Fork?
    ensures var q := MinPath(InRight(c, t.left, t.node, t.tag), t.right);
      Above(Vacated(c, t)) == if t.right.left.Leaf? then Min(t.right).node else Above(q)
    ensures if t.right.left.Leaf? then Vacated(c, t).InRight? else Vacated(c, t).InLeft?
  {
    var b := InRight(c, t.left, Min(t.right).node, t.tag);
    MinPathSide(b, t.right);
    if t.right.left.Fork? {
      var x, s := t.right, Min(t.right).node;
      SameAbove(InLeft(InRight(c, t.left, t.node, t.tag), x.node, x.tag, x.right),
                InLeft(InRight(c, t.left, s, t.tag), x.node, x.tag, x.right), x.left);
    }
  }

  lemma {:induction false} SameAbove(b: Path, b': Path, r: Tree)
    requires r.Fork? && Above(b) == Above(b')
    ensures Above(MinPath(b, r)) == Above(MinPath(b', r))
    decreases r
  {
    if r.left.Fork? {
      SameAbove(InLeft(b, r.node, r.tag, r.right), InLeft(b', r.node, r.tag, r.right), r.left);
    }
  }
}
