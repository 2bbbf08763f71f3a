/** rbtree.c and rbwrap.c on linked nodes. */
module RbTree {
  import opened Trees
  import opened Links
  import opened RbShape
  import opened Search

  method RotateLeft(node: Node, root: Root, ghost S: set<Node>, ghost c: Path, ghost t: Tree)
    requires t.Fork? && t.right.Fork? && node == t.node && At(Snap(S), c, t, root.node)
    modifies root`node, S`left, S`right, S`parent
    ensures At(Snap(S), c, RotatedLeft(t), root.node)
  {
    var parent := node.parent;
    var right := SpinLeft(node, root, S, c, node, t);
    ghost var m := Snap(S);
    ReplaceChild(root, parent, node, right, S, c);
    LooseLinked(m, Snap(S), c, node, RotatedLeft(t), old(root.node), root.node);
  }

  method RotateRight(node: Node, root: Root, ghost S: set<Node>, ghost c: Path, ghost t: Tree)
    requires t.Fork? && t.left.Fork? && node == t.node && At(Snap(S), c, t, root.node)
    modifies root`node, S`left, S`right, S`parent
    ensures At(Snap(S), c, RotatedRight(t), root.node)
  {
    var parent := node.parent;
    var left := SpinRight(node, root, S, c, node, t);
    ghost var m := Snap(S);
    ReplaceChild(root, parent, node, left, S, c);
    LooseLinked(m, Snap(S), c, node, RotatedRight(t), old(root.node), root.node);
  }

  /** Red parent, red uncle: pass the violation on to the grandparent. */
  method Recolor(uncle: Node, parent: Node, gparent: Node, root: Root, ghost S: set<Node>, ghost c: Path, ghost t: Tree)
    requires !c.Top? && !c.up.Top? && t.Fork? && Red(Sibling(c.up)) && At(Snap(S), c, t, root.node)
    requires uncle == Sibling(c.up).node && parent == c.node && gparent == c.up.node
    modifies S`tag
    ensures At(Snap(S), c.up.up, Recolored(c, t), root.node)
  {
    ghost var p, u := Wrap(c, t), Sibling(c.up);
    ghost var top := c.up.up;
    ghost var beside := Beside(c.up, p);
    AtSwitch(Snap(S), c, t, beside, u, root.node);
    SetTag(uncle, BLACK, root, S, beside, uncle, u);
    ghost var c' := if c.up.InLeft? then c.up.(right := Tagged(u, BLACK)) else c.up.(left := Tagged(u, BLACK));
    AtSwitch(Snap(S), beside, Tagged(u, BLACK), c', p, root.node);
    SetTag(parent, BLACK, root, S, c', parent, p);
    AtUp(Snap(S), c', Tagged(p, BLACK), root.node);
    SetTag(gparent, RED, root, S, top, gparent, Wrap(c', Tagged(p, BLACK)));
  }

  /** Red parent under a left link, black uncle: one or two rotations. */
  method TurnLeftCase(node: Node, parent: Node, gparent: Node, root: Root,
      ghost S: set<Node>, ghost c: Path, ghost t: Tree)
      returns (node': Node)
    requires !c.Top? && c.up.InLeft? && t.Fork? && At(Snap(S), c, t, root.node)
    requires node == t.node && parent == c.node && gparent == c.up.node
    modifies root`node, S`left, S`right, S`parent, S`tag
    ensures At(Snap(S), c.up.up, Turned(c, t), root.node) && node' == Settled(c, t).1.node
  {
    ghost var p, p' := Wrap(c, t), Straightened(c, t);
    AtUp(Snap(S), c, t, root.node);
    Look(Snap(S), c, t, root.node);
    var parent, node := parent, node;
    if parent.right == node {
      RotateLeft(parent, root, S, c.up, p);
      parent, node := node, parent;
    }
    node' := node;
    SetTag(parent, BLACK, root, S, c.up, parent, p');
    ghost var g := Wrap(c.up, Blackened(p'));
    AtUp(Snap(S), c.up, Blackened(p'), root.node);
    SetTag(gparent, RED, root, S, c.up.up, gparent, g);
    RotateRight(gparent, root, S, c.up.up, Tagged(g, RED));
  }
  /** Red parent under a right link, black uncle: one or two rotations. */
  method TurnRightCase(node: Node, parent: Node, gparent: Node, root: Root,
      ghost S: set<Node>, ghost c: Path, ghost t: Tree)
      returns (node': Node)
    requires !c.Top? && c.up.InRight? && t.Fork? && At(Snap(S), c, t, root.node)
    requires node == t.node && parent == c.node && gparent == c.up.node
    modifies root`node, S`left, S`right, S`parent, S`tag
    ensures At(Snap(S), c.up.up, Turned(c, t), root.node) && node' == Settled(c, t).1.node
  {
    ghost var p, p' := Wrap(c, t), Straightened(c, t);
    AtUp(Snap(S), c, t, root.node);
    Look(Snap(S), c, t, root.node);
    var parent, node := parent, node;
    if parent.left == node {
      RotateRight(parent, root, S, c.up, p);
      parent, node := node, parent;
    }
    node' := node;
    SetTag(parent, BLACK, root, S, c.up, parent, p');
    ghost var g := Wrap(c.up, Blackened(p'));
    AtUp(Snap(S), c.up, Blackened(p'), root.node);
    SetTag(gparent, RED, root, S, c.up.up, gparent, g);
    RotateLeft(gparent, root, S, c.up.up, Tagged(g, RED));
  }

  /** What `rb_insert_color` needs at the head of its loop. */
  ghost predicate Pending(m: Image, c: Path, t: Tree, node: Node, root: Node?) {
    && t.Fork? && node == t.node && At(m, c, t, root)
    && (c.Top? || (Red(t) && Rb(t) && RbPath(c, BlackHeight(t), false)))
  }

  /** One iteration of `rb_insert_color`. */
  method InsertStep(node: Node, root: Root, ghost S: set<Node>, ghost c: Path, ghost t: Tree)
      returns (node': Node, ghost c': Path, ghost t': Tree)
    requires Pending(Snap(S), c, t, node, root.node)
    requires !c.Top? && c.tag == RED
    modifies root`node, S`left, S`right, S`parent, S`tag
    ensures Pending(Snap(S), c', t', node', root.node)
    ensures InsertFix(c', t') == InsertFix(c, t) && Depth(c') < Depth(c)
  {
    Grandparent(Snap(S), c, t, root.node);
    var parent := node.parent;
    var gparent := parent.parent;
    var uncle := if parent == gparent.left then gparent.right else gparent.left;
    if uncle != null && uncle.tag == RED {
      RecoloredRb(c, t);
      Recolor(uncle, parent, gparent, root, S, c, t);
      return gparent, c.up.up, Recolored(c, t);
    }
    SettledFacts(c, t);
    c', t' := Settled(c, t).0, Settled(c, t).1;
    if parent == gparent.left {
      node' := TurnLeftCase(node, parent, gparent, root, S, c, t);
    } else {
      node' := TurnRightCase(node, parent, gparent, root, S, c, t);
    }
    AtSwitch(Snap(S), c.up.up, Turned(c, t), c', t', root.node);
  }

  /** A red parent has a parent, and the links tell on which side. */
  lemma {:induction false} Grandparent(m: Image, c: Path, t: Tree, root: Node?)
    requires t.Fork? && At(m, c, t, root) && RbPath(c, BlackHeight(t), false) && !c.Top? && c.tag == RED
    ensures t.node in m && m[t.node].parent == c.node
    ensures !c.up.Top? && c.node in m && m[c.node].parent == c.up.node && c.up.node in m
    ensures m[c.up.node].left == c.node <==> c.up.InLeft?
    ensures var u := if c.up.InLeft? then m[c.up.node].right else m[c.up.node].left;
      && (u != null ==> u in m && Sibling(c.up).Fork? && u == Sibling(c.up).node)
      && (Red(Sibling(c.up)) <==> u != null && m[u].tag == RED)
  {
    Look(m, c, t, root);
    AtUp(m, c, t, root);
    Look(m, c.up, Wrap(c, t), root);
    assert RbPath(c.up, BlackHeight(t), true);
  }

  /** `rb_insert_color`. */
  method InsertColor(first: Node, root: Root, ghost S: set<Node>, ghost c0: Path, ghost t0: Tree)
    requires Pending(Snap(S), c0, t0, first, root.node)
    modifies root`node, S`left, S`right, S`parent, S`tag
    ensures At(Snap(S), Top, InsertFix(c0, t0), root.node)
  {
    var node := first;
    ghost var c, t := c0, t0;
    Look(Snap(S), c, t, root.node);
    while node.parent != null && node.parent.tag == RED
      invariant Pending(Snap(S), c, t, node, root.node)
      invariant InsertFix(c, t) == InsertFix(c0, t0)
      decreases Depth(c)
    {
      Look(Snap(S), c, t, root.node);
      node, c, t := InsertStep(node, root, S, c, t);
    }
    Look(Snap(S), c, t, root.node);
    RootBlackened(Snap(S), c, t, root.node);
    SetTag(root.node, BLACK, root, S, Top, root.node, Plug(c, t));
  }

  lemma {:induction false} RootBlackened(m: Image, c: Path, t: Tree, root: Node?)
    requires t.Fork? && At(m, c, t, root)
    ensures Plug(c, t).Fork? && root == Plug(c, t).node && At(m, Top, Plug(c, t), root)
  {
    AtPlug(m, c, t, root);
    PlugFork(c, t);
  }

  /** Red sibling: turn it above the parent; the hole is then next to a black one. */
  method RaiseRight(other: Node, parent: Node, root: Root, ghost S: set<Node>, ghost c: Path, ghost t: Tree)
    requires c.InLeft? && Red(Sibling(c)) && At(Snap(S), c, t, root.node)
    requires other == Sibling(c).node && parent == c.node
    modifies root`node, S`left, S`right, S`parent, S`tag
    ensures At(Snap(S), Lowered(c), t, root.node)
  {
    ghost var o := Sibling(c);
    AtSwitch(Snap(S), c, t, Beside(c, t), o, root.node);
    SetTag(other, BLACK, root, S, Beside(c, t), other, o);
    AtUp(Snap(S), Beside(c, t), Blackened(o), root.node);
    ghost var p := Wrap(Beside(c, t), Blackened(o));
    SetTag(parent, RED, root, S, c.up, parent, p);
    RotateLeft(parent, root, S, c.up, Tagged(p, RED));
    AtSwitch(Snap(S), c.up, RotatedLeft(Tagged(p, RED)), Lowered(c), t, root.node);
  }

  /** Black sibling, red near nephew, black far one: turn the near nephew up. */
  method OutwardRight(other: Node, parent: Node, root: Root, ghost S: set<Node>, ghost c: Path, ghost t: Tree)
    requires c.InLeft? && Sibling(c).Fork? && Red(Sibling(c).left) && !Red(Sibling(c).right)
    requires At(Snap(S), Beside(c, t), Sibling(c), root.node) && other == Sibling(c).node && parent == c.node
    modifies root`node, S`left, S`right, S`parent, S`tag
    ensures At(Snap(S), Beside(c, t), Outward(c), root.node) && parent.right == Outward(c).node
  {
    ghost var o, b := Sibling(c), Beside(c, t);
    Look(Snap(S), b, o, root.node);
    ghost var inner := InLeft(b, o.node, o.tag, o.right);
    AtUp(Snap(S), inner, o.left, root.node);
    SetTag(other.left, BLACK, root, S, inner, other.left, o.left);
    AtUp(Snap(S), inner, Blackened(o.left), root.node);
    ghost var o' := Wrap(inner, Blackened(o.left));
    SetTag(other, RED, root, S, b, other, o');
    RotateRight(other, root, S, b, Tagged(o', RED));
    Look(Snap(S), b, Outward(c), root.node);
  }

  /** The recolouring that precedes the last rotation. */
  method PaintRight(other: Node, parent: Node, root: Root, ghost S: set<Node>, ghost c: Path, ghost t: Tree)
    requires c.InLeft? && Sibling(c).Fork? && (Red(Sibling(c).left) || Red(Sibling(c).right))
    requires At(Snap(S), Beside(c, t), Outward(c), root.node)
    requires other == Outward(c).node && parent == c.node
    modifies S`tag
    ensures At(Snap(S), c.up, EraseReady(c, t), root.node)
  {
    ghost var o, b := Outward(c), Beside(c, t);
    Look(Snap(S), b, o, root.node);
    SetTag(other, parent.tag, root, S, b, other, o);
    ghost var o1 := Tagged(o, c.tag);
    AtUp(Snap(S), b, o1, root.node);
    SetTag(parent, BLACK, root, S, c.up, parent, Wrap(b, o1));
    ghost var outer := InRight(InRight(c.up, t, c.node, BLACK), o.left, o.node, c.tag);
    AtSwitch(Snap(S), c.up, Tagged(Wrap(b, o1), BLACK), outer, o.right, root.node);
    Look(Snap(S), outer, o.right, root.node);
    SetTag(other.right, BLACK, root, S, outer, other.right, o.right);
    AtSwitch(Snap(S), outer, Blackened(o.right), c.up, EraseReady(c, t), root.node);
  }

  /** Black sibling, red far nephew: one rotation fills in the missing black. */
  method FinishRight(other: Node, parent: Node, root: Root, ghost S: set<Node>, ghost c: Path, ghost t: Tree)
    requires c.InLeft? && Sibling(c).Fork? && (Red(Sibling(c).left) || Red(Sibling(c).right))
    requires At(Snap(S), Beside(c, t), Outward(c), root.node)
    requires other == Outward(c).node && parent == c.node
    modifies root`node, S`left, S`right, S`parent, S`tag
    ensures At(Snap(S), c.up, EraseTurned(c, t), root.node)
  {
    PaintRight(other, parent, root, S, c, t);
    RotateLeft(parent, root, S, c.up, EraseReady(c, t));
  }

  /** Red sibling: turn it above the parent; the hole is then next to a black one. */
  method RaiseLeft(other: Node, parent: Node, root: Root, ghost S: set<Node>, ghost c: Path, ghost t: Tree)
    requires c.InRight? && Red(Sibling(c)) && At(Snap(S), c, t, root.node)
    requires other == Sibling(c).node && parent == c.node
    modifies root`node, S`left, S`right, S`parent, S`tag
    ensures At(Snap(S), Lowered(c), t, root.node)
  {
    ghost var o := Sibling(c);
    AtSwitch(Snap(S), c, t, Beside(c, t), o, root.node);
    SetTag(other, BLACK, root, S, Beside(c, t), other, o);
    AtUp(Snap(S), Beside(c, t), Blackened(o), root.node);
    ghost var p := Wrap(Beside(c, t), Blackened(o));
    SetTag(parent, RED, root, S, c.up, parent, p);
    RotateRight(parent, root, S, c.up, Tagged(p, RED));
    AtSwitch(Snap(S), c.up, RotatedRight(Tagged(p, RED)), Lowered(c), t, root.node);
  }

  /** Black sibling, red near nephew, black far one: turn the near nephew up. */
  method OutwardLeft(other: Node, parent: Node, root: Root, ghost S: set<Node>, ghost c: Path, ghost t: Tree)
    requires c.InRight? && Sibling(c).Fork? && Red(Sibling(c).right) && !Red(Sibling(c).left)
    requires At(Snap(S), Beside(c, t), Sibling(c), root.node) && other == Sibling(c).node && parent == c.node
    modifies root`node, S`left, S`right, S`parent, S`tag
    ensures At(Snap(S), Beside(c, t), Outward(c), root.node) && parent.left == Outward(c).node
  {
    ghost var o, b := Sibling(c), Beside(c, t);
    Look(Snap(S), b, o, root.node);
    ghost var inner := InRight(b, o.left, o.node, o.tag);
    AtUp(Snap(S), inner, o.right, root.node);
    SetTag(other.right, BLACK, root, S, inner, other.right, o.right);
    AtUp(Snap(S), inner, Blackened(o.right), root.node);
    ghost var o' := Wrap(inner, Blackened(o.right));
    SetTag(other, RED, root, S, b, other, o');
    RotateLeft(other, root, S, b, Tagged(o', RED));
    Look(Snap(S), b, Outward(c), root.node);
  }

  /** The recolouring that precedes the last rotation. */
  method PaintLeft(other: Node, parent: Node, root: Root, ghost S: set<Node>, ghost c: Path, ghost t: Tree)
    requires c.InRight? && Sibling(c).Fork? && (Red(Sibling(c).right) || Red(Sibling(c).left))
    requires At(Snap(S), Beside(c, t), Outward(c), root.node)
    requires other == Outward(c).node && parent == c.node
    modifies S`tag
    ensures At(Snap(S), c.up, EraseReady(c, t), root.node)
  {
    ghost var o, b := Outward(c), Beside(c, t);
    Look(Snap(S), b, o, root.node);
    SetTag(other, parent.tag, root, S, b, other, o);
    ghost var o1 := Tagged(o, c.tag);
    AtUp(Snap(S), b, o1, root.node);
    SetTag(parent, BLACK, root, S, c.up, parent, Wrap(b, o1));
    ghost var outer := InLeft(InLeft(c.up, c.node, BLACK, t), o.node, c.tag, o.right);
    AtSwitch(Snap(S), c.up, Tagged(Wrap(b, o1), BLACK), outer, o.left, root.node);
    Look(Snap(S), outer, o.left, root.node);
    SetTag(other.left, BLACK, root, S, outer, other.left, o.left);
    AtSwitch(Snap(S), outer, Blackened(o.left), c.up, EraseReady(c, t), root.node);
  }

  /** Black sibling, red far nephew: one rotation fills in the missing black. */
  method FinishLeft(other: Node, parent: Node, root: Root, ghost S: set<Node>, ghost c: Path, ghost t: Tree)
    requires c.InRight? && Sibling(c).Fork? && (Red(Sibling(c).right) || Red(Sibling(c).left))
    requires At(Snap(S), Beside(c, t), Outward(c), root.node)
    requires other == Outward(c).node && parent == c.node
    modifies root`node, S`left, S`right, S`parent, S`tag
    ensures At(Snap(S), c.up, EraseTurned(c, t), root.node)
  {
    PaintLeft(other, parent, root, S, c, t);
    RotateRight(parent, root, S, c.up, EraseReady(c, t));
  }

  /** One iteration of the repair loop: it is done, or a smaller problem of the
      same kind is left. */
  ghost predicate Repaired(c: Path, t: Tree, done: bool, c': Path, t': Tree) {
    if done then c'.Top? && EraseFix(c, t) == Plug(c', Blackened(t'))
    else
      && EraseFix(c', t') == EraseFix(c, t) && OneShort(c', t')
      && (Depth(c') < Depth(c) || (Depth(c') == Depth(c) && !Red(t) && Red(t')))
  }

  /** What the fields say about the sibling and its children. */
  lemma {:induction false} LookBeside(m: Image, c: Path, t: Tree, root: Node?)
    requires !c.Top? && Sibling(c).Fork? && Rb(Sibling(c)) && At(m, c, t, root)
    ensures var o := Sibling(c);
      && At(m, Beside(c, t), o, root)
      && o.node in m && m[o.node] == Cell(RootOf(o.left), RootOf(o.right), c.node, o.tag)
      && (o.left.Fork? ==> o.left.node in m && m[o.left.node].tag == o.left.tag)
      && (o.right.Fork? ==> o.right.node in m && m[o.right.node].tag == o.right.tag)
    ensures var o := Sibling(c);
      && (Red(o.left) <==> o.left.Fork? && o.left.tag != BLACK)
      && (Red(o.right) <==> o.right.Fork? && o.right.tag != BLACK)
  {
    var o := Sibling(c);
    AtSwitch(m, c, t, Beside(c, t), o, root);
    Look(m, Beside(c, t), o, root);
    assert Rb(o.left) && Rb(o.right) && Sub(m, o.left, o.node) && Sub(m, o.right, o.node);
  }

  /** The rest of an iteration for a left child, next to a black sibling. */
  method EraseBlackLeft(other: Node, parent: Node, root: Root, ghost S: set<Node>, ghost c: Path, ghost t: Tree)
      returns (done: bool, ghost c': Path, ghost t': Tree)
    requires c.InLeft? && !Red(t) && OneShort(c, t) && Sibling(c).Fork? && !Red(Sibling(c))
    requires At(Snap(S), c, t, root.node) && parent == c.node && other == Sibling(c).node
    modifies root`node, S`left, S`right, S`parent, S`tag
    ensures At(Snap(S), c', t', root.node)
    ensures done ==> EraseSibling(c, t) == Plug(c', Blackened(t')) && c'.Top?
    ensures !done ==> EraseSibling(c, t) == EraseFix(c', t') && OneShort(c', t') && c' == c.up
    ensures !done ==> t'.Fork? && t'.node == parent && t'.tag == c.tag
  {
    LookBeside(Snap(S), c, t, root.node);
    ghost var o, b := Sibling(c), Beside(c, t);
    if (other.left == null || other.left.tag == BLACK) && (other.right == null || other.right.tag == BLACK) {
      RecoloredValid(c, t);
      SetTag(other, RED, root, S, b, other, o);
      AtUp(Snap(S), b, Tagged(o, RED), root.node);
      return false, c.up, Wrap(b, Tagged(o, RED));
    }
    var last := other;
    if other.right == null || other.right.tag == BLACK {
      OutwardRight(other, parent, root, S, c, t);
      last := parent.right;
    }
    FinishRight(last, parent, root, S, c, t);
    AtPlug(Snap(S), c.up, EraseTurned(c, t), root.node);
    return true, Top, Plug(c.up, EraseTurned(c, t));
  }

  /** One iteration of `__rb_erase_color` for a left child. */
  method EraseStepLeft(parent: Node, root: Root, ghost S: set<Node>, ghost c: Path, ghost t: Tree)
      returns (done: bool, ghost c': Path, ghost t': Tree)
    requires c.InLeft? && !Red(t) && OneShort(c, t)
    requires At(Snap(S), c, t, root.node) && parent == c.node
    modifies root`node, S`left, S`right, S`parent, S`tag
    ensures At(Snap(S), c', t', root.node) && Repaired(c, t, done, c', t')
    ensures !done ==> t'.Fork? && t'.node == parent
  {
    SiblingExists(c, t);
    Look(Snap(S), c, t, root.node);
    LookBeside(Snap(S), c, t, root.node);
    var other := parent.right;
    if other.tag == RED {
      RaiseRight(other, parent, root, S, c, t);
      Look(Snap(S), Lowered(c), t, root.node);
      other := parent.right;
      done, c', t' := EraseBlackLeft(other, parent, root, S, Lowered(c), t);
    } else {
      done, c', t' := EraseBlackLeft(other, parent, root, S, c, t);
    }
  }

  /** The rest of an iteration for a right child, next to a black sibling. */
  method EraseBlackRight(other: Node, parent: Node, root: Root, ghost S: set<Node>, ghost c: Path, ghost t: Tree)
      returns (done: bool, ghost c': Path, ghost t': Tree)
    requires c.InRight? && !Red(t) && OneShort(c, t) && Sibling(c).Fork? && !Red(Sibling(c))
    requires At(Snap(S), c, t, root.node) && parent == c.node && other == Sibling(c).node
    modifies root`node, S`left, S`right, S`parent, S`tag
    ensures At(Snap(S), c', t', root.node)
    ensures done ==> EraseSibling(c, t) == Plug(c', Blackened(t')) && c'.Top?
    ensures !done ==> EraseSibling(c, t) == EraseFix(c', t') && OneShort(c', t') && c' == c.up
    ensures !done ==> t'.Fork? && t'.node == parent && t'.tag == c.tag
  {
    LookBeside(Snap(S), c, t, root.node);
    ghost var o, b := Sibling(c), Beside(c, t);
    if (other.right == null || other.right.tag == BLACK) && (other.left == null || other.left.tag == BLACK) {
      RecoloredValid(c, t);
      SetTag(other, RED, root, S, b, other, o);
      AtUp(Snap(S), b, Tagged(o, RED), root.node);
      return false, c.up, Wrap(b, Tagged(o, RED));
    }
    var last := other;
    if other.left == null || other.left.tag == BLACK {
      OutwardLeft(other, parent, root, S, c, t);
      last := parent.left;
    }
    FinishLeft(last, parent, root, S, c, t);
    AtPlug(Snap(S), c.up, EraseTurned(c, t), root.node);
    return true, Top, Plug(c.up, EraseTurned(c, t));
  }

  /** One iteration of `__rb_erase_color` for a right child. */
  method EraseStepRight(parent: Node, root: Root, ghost S: set<Node>, ghost c: Path, ghost t: Tree)
      returns (done: bool, ghost c': Path, ghost t': Tree)
    requires c.InRight? && !Red(t) && OneShort(c, t)
    requires At(Snap(S), c, t, root.node) && parent == c.node
    modifies root`node, S`left, S`right, S`parent, S`tag
    ensures At(Snap(S), c', t', root.node) && Repaired(c, t, done, c', t')
    ensures !done ==> t'.Fork? && t'.node == parent
  {
    SiblingExists(c, t);
    Look(Snap(S), c, t, root.node);
    LookBeside(Snap(S), c, t, root.node);
    var other := parent.left;
    if other.tag == RED {
      RaiseLeft(other, parent, root, S, c, t);
      Look(Snap(S), Lowered(c), t, root.node);
      other := parent.left;
      done, c', t' := EraseBlackRight(other, parent, root, S, Lowered(c), t);
    } else {
      done, c', t' := EraseBlackRight(other, parent, root, S, c, t);
    }
  }

  /** `__rb_erase_color`. */
  method EraseColor(node0: Node?, parent0: Node?, root: Root, ghost S: set<Node>, ghost c0: Path, ghost t0: Tree)
    requires OneShort(c0, t0) && At(Snap(S), c0, t0, root.node)
    requires node0 == RootOf(t0) && parent0 == Above(c0)
    modifies root`node, S`left, S`right, S`parent, S`tag
    ensures At(Snap(S), Top, EraseFix(c0, t0), root.node)
  {
    var node, parent := node0, parent0;
    ghost var c, t := c0, t0;
    Look(Snap(S), c, t, root.node);
    while (node == null || node.tag == BLACK) && node != root.node
      invariant At(Snap(S), c, t, root.node) && node == RootOf(t)
      invariant parent == Above(c) && OneShort(c, t) && EraseFix(c, t) == EraseFix(c0, t0)
      decreases Depth(c), !Red(t)
    {
      Look(Snap(S), c, t, root.node);
      var done;
      if parent.left == node {
        done, c, t := EraseStepLeft(parent, root, S, c, t);
      } else {
        done, c, t := EraseStepRight(parent, root, S, c, t);
      }
      Look(Snap(S), c, t, root.node);
      if done {
        node := root.node;
        break;
      }
      node := parent;
      parent := node.parent;
    }
    Look(Snap(S), c, t, root.node);
    AtTopmost(Snap(S), c, t, root.node);
    assert EraseFix(c0, t0) == Plug(c, Blackened(t));
    if node != null {
      SetTag(node, BLACK, root, S, c, node, t);
    }
    AtPlug(Snap(S), c, Blackened(t), root.node);
  }

  // ----- the whole operations -----

  ghost predicate Valid(root: Root)
    reads root, Nodes(root.tree)`left, Nodes(root.tree)`right, Nodes(root.tree)`parent, Nodes(root.tree)`tag
  {
    Holds(root) && RedBlack(root.tree)
  }

  /** Down the left links as far as they go. */
  method Leftmost(start: Node, root: Root, ghost S: set<Node>, ghost c: Path, ghost t: Tree) returns (node: Node)
    requires t.Fork? && start == t.node && At(Snap(S), c, t, root.node)
    ensures node == Min(t).node && At(Snap(S), MinPath(c, t), Min(t), root.node)
  {
    ghost var q, u := c, t;
    node := start;
    Look(Snap(S), q, u, root.node);
    while node.left != null
      invariant u.Fork? && node == u.node && At(Snap(S), q, u, root.node) && node.left == RootOf(u.left)
      invariant MinPath(q, u) == MinPath(c, t) && Min(u) == Min(t)
      decreases u
    {
      node := node.left;
      q, u := InLeft(q, u.node, u.tag, u.right), u.left;
      AtUp(Snap(S), q, u, root.node);
      Look(Snap(S), q, u, root.node);
    }
  }

  /** `rb_erase`, when the node has two children: its successor takes its place. */
  method EraseInner(old_: Node, root: Root, ghost S: set<Node>, ghost c: Path, ghost t: Tree)
      returns (child: Node?, parent: Node?, color: int)
    requires t.Fork? && t.left.Fork? && t.right.Fork? && old_ == t.node && At(Snap(S), c, t, root.node)
    modifies root`node, S`left, S`right, S`parent, S`tag
    ensures var (hole, u, col) := EraseHole(c, t);
      At(Snap(S), hole, u, root.node) && child == RootOf(u) && parent == Above(hole) && color == col
  {
    ghost var b := InRight(c, t.left, t.node, t.tag);
    AtUp(Snap(S), b, t.right, root.node);
    Look(Snap(S), c, t, root.node);
    var node := Leftmost(old_.right, root, S, b, t.right);
    ghost var q, u := MinPath(b, t.right), Min(t.right);
    Look(Snap(S), q, u, root.node);
    color := node.tag;
    child := node.right;
    parent := if node.parent == old_ then node else node.parent;
    ghost var r := WithoutMin(t.right);
    DetachMin(old_, node, root, S, c, t, q, u);
    TakePlace(old_, node, root, S, c, t.left, t.tag, r);
    VacatedFacts(c, t);
    AtSwitch(Snap(S), c, Fork(t.left, node, t.tag, r), Vacated(c, t), u.right, root.node);
    VacatedAbove(c, t);
  }

  method EraseAt(node: Node, root: Root, ghost S: set<Node>, ghost c: Path, ghost t: Tree)
    requires t.Fork? && node == t.node && At(Snap(S), c, t, root.node) && RedBlack(Plug(c, t))
    modifies root`node, S`left, S`right, S`parent, S`tag
    ensures At(Snap(S), Top, Erased(c, t), root.node)
  {
    Look(Snap(S), c, t, root.node);
    ghost var (hole, u, _) := EraseHole(c, t);
    EraseHoleShort(c, t);
    var child, parent, color;
    if node.left == null {
      child, parent, color := node.right, node.parent, node.tag;
      Lift(node, child, root, S, c, t, t.right);
    } else if node.right == null {
      child, parent, color := node.left, node.parent, node.tag;
      Lift(node, child, root, S, c, t, t.left);
    } else {
      child, parent, color := EraseInner(node, root, S, c, t);
    }
    if color == BLACK {
      EraseColor(child, parent, root, S, hole, u);
    } else {
      AtPlug(Snap(S), hole, u, root.node);
    }
  }

  /** Declare what the links now show. */
  method Install(root: Root, ghost t: Tree, ghost S: set<Node>)
    requires At(Snap(S), Top, t, root.node) && Nodes(t) <= S && RedBlack(t)
    modifies root`tree
    ensures Valid(root) && root.tree == t
  {
    AtFrame(Snap(S), Snap(Nodes(t)), t, root.node);
    root.tree := t;
  }

  /** `rb_erase`. */
  method Erase(node: Node, root: Root)
    requires Valid(root) && node in Nodes(root.tree)
    modifies root, Nodes(root.tree)`left, Nodes(root.tree)`right, Nodes(root.tree)`parent, Nodes(root.tree)`tag
    ensures Valid(root)
    ensures Inorder(root.tree) == Without(old(Inorder(root.tree)), node)
    ensures Nodes(root.tree) == old(Nodes(root.tree)) - {node}
    ensures var (c, t) := Focus(Top, old(root.tree), node); root.tree == Erased(c, t)
  {
    ghost var S := Nodes(root.tree);
    ghost var (c, t) := Focus(Top, root.tree, node);
    AtSwitch(Snap(S), Top, root.tree, c, t, root.node);
    ErasedWhole(c, t, S);
    EraseAt(node, root, S, c, t);
    Install(root, Erased(c, t), S);
  }

  lemma {:induction false} ErasedWhole(c: Path, t: Tree, S: set<Node>)
    requires t.Fork? && RedBlack(Plug(c, t)) && Distinct(Plug(c, t)) && S == Nodes(Plug(c, t))
    ensures RedBlack(Erased(c, t)) && Inorder(Erased(c, t)) == Without(Inorder(Plug(c, t)), t.node)
    ensures Nodes(Erased(c, t)) == S - {t.node}
  {
    ErasedValid(c, t);
    WithoutNodes(Plug(c, t), Erased(c, t), t.node);
  }

  /** Where a link is stored: a pointer to a pointer. */
  datatype Link = AtRoot | LeftOf(node: Node) | RightOf(node: Node)

  function LinkInto(c: Path): Link {
    match c
    case Top => AtRoot
    case InLeft(_, n, _, _) => LeftOf(n)
    case InRight(_, _, n, _) => RightOf(n)
  }

  function Load(root: Root, link: Link): Node?
    reads root`node, if link.AtRoot? then {} else {link.node}
  {
    match link
    case AtRoot => root.node
    case LeftOf(n) => n.left
    case RightOf(n) => n.right
  }

  lemma {:induction false} LoadAt(root: Root, S: set<Node>, c: Path, t: Tree)
    requires At(Snap(S), c, t, root.node)
    ensures Load(root, LinkInto(c)) == RootOf(t)
    ensures t.Fork? ==> t.node.left == RootOf(t.left) && t.node.right == RootOf(t.right)
  {
    Look(Snap(S), c, t, root.node);
  }

  /** `rbwrap_search`, with a count of its rounds. */
  method RbwrapSearch(root: Root, query: Node, cmp: Compare) returns (n: Node?, ghost rounds: nat)
    requires Holds(root) && Order(cmp)
    ensures n == RootOf(Locate(cmp, query.key, Top, root.tree).1)
    ensures rounds == Depth(Locate(cmp, query.key, Top, root.tree).0) + (if n == null then 0 else 1)
    ensures rounds <= Height(root.tree)
  {
    ghost var S := Nodes(root.tree);
    ghost var c, t := Top, root.tree;
    n, rounds := root.node, 0;
    while n != null
      invariant At(Snap(S), c, t, root.node) && n == RootOf(t)
      invariant Locate(cmp, query.key, c, t) == Locate(cmp, query.key, Top, root.tree)
      invariant rounds == Depth(c) && rounds + Height(t) <= Height(root.tree)
      decreases t
    {
      rounds := rounds + 1;
      LoadAt(root, S, c, t);
      var r := cmp(query.key, n.key);
      if r < 0 {
        n := n.left;
        c, t := InLeft(c, t.node, t.tag, t.right), t.left;
      } else if r > 0 {
        n := n.right;
        c, t := InRight(c, t.left, t.node, t.tag), t.right;
      } else {
        return;
      }
      AtUp(Snap(S), c, t, root.node);
    }
  }

  /** The descent of `__rbwrap_insert`: the node with the same key, or the
      empty link to store the new node in. */
  method FindLink(root: Root, node: Node, cmp: Compare, ghost S: set<Node>)
      returns (same: Node?, parent: Node?, p: Link)
    requires Holds(root) && Order(cmp) && S == Nodes(root.tree)
    ensures var (c, t) := Locate(cmp, node.key, Top, root.tree);
      At(Snap(S), c, t, root.node) && same == RootOf(t) && (same == null ==> parent == Above(c) && p == LinkInto(c))
    ensures Snap(S) == old(Snap(S))
  {
    ghost var c, t := Top, root.tree;
    p, parent, same := AtRoot, null, null;
    LoadAt(root, S, c, t);
    while Load(root, p) != null
      invariant At(Snap(S), c, t, root.node) && p == LinkInto(c) && Load(root, p) == RootOf(t)
      invariant Locate(cmp, node.key, c, t) == Locate(cmp, node.key, Top, root.tree)
      invariant same == null && parent == Above(c)
      decreases t
    {
      parent := Load(root, p);
      LoadAt(root, S, c, t);
      var r := cmp(node.key, parent.key);
      if r < 0 {
        p := LeftOf(parent);
        c, t := InLeft(c, t.node, t.tag, t.right), t.left;
      } else if r > 0 {
        p := RightOf(parent);
        c, t := InRight(c, t.left, t.node, t.tag), t.right;
      } else {
        return parent, parent, p;
      }
      AtUp(Snap(S), c, t, root.node);
    }
  }

  /** `rb_link_node`, or `rb_root_init` in an empty tree. */
  method LinkNode(node: Node, parent: Node?, p: Link, root: Root, ghost S: set<Node>, ghost c: Path)
    requires At(Snap(S), c, Leaf, root.node) && node in S && node !in PathNodes(c)
    requires parent == Above(c) && p == LinkInto(c)
    modifies root`node, S`left, S`right, node`parent, node`tag
    ensures At(Snap(S), c, Fork(Leaf, node, if c.Top? then BLACK else RED, Leaf), root.node)
  {
    ghost var m := Snap(S);
    Look(m, c, Leaf, root.node);
    node.parent, node.tag := parent, if parent == null then BLACK else RED;
    node.left, node.right := null, null;
    match p {
      case AtRoot => root.node := node;
      case LeftOf(n) => n.left := node;
      case RightOf(n) => n.right := node;
    }
    LeafLinked(m, Snap(S), c, node, node.tag, old(root.node), root.node);
  }

  /** The whole tree after a new red leaf has been put into the hole of `c`. */
  function Inserted(c: Path, n: Node): Tree {
    InsertFix(c, Fork(Leaf, n, RED, Leaf))
  }

  /** A red leaf in any hole of a valid tree: the repair keeps every rule and
      puts the node at the hole's place in the order. */
  lemma {:induction false} InsertedValid(c: Path, n: Node)
    requires RedBlack(Plug(c, Leaf)) && Distinct(Plug(c, Leaf)) && n !in PathNodes(c)
    ensures RbPath(c, 0, false) && RedBlack(Inserted(c, n))
    ensures Inorder(Inserted(c, n)) == Before(c) + [n] + After(c)
    ensures Distinct(Inserted(c, n)) && Nodes(Inserted(c, n)) == PathNodes(c) + {n}
  {
    RbPlug(c, Leaf);
    var leaf := Fork(Leaf, n, RED, Leaf);
    InsertFixValid(c, leaf);
    LeafOrder(c, n, RED, Inserted(c, n));
  }

  method InsertNew(node: Node, parent: Node?, p: Link, root: Root, ghost c: Path)
    requires Valid(root) && root.tree == Plug(c, Leaf) && At(Snap(Nodes(root.tree)), c, Leaf, root.node)
    requires node !in PathNodes(c) && parent == Above(c) && p == LinkInto(c)
    modifies root, Nodes(root.tree)`left, Nodes(root.tree)`right, Nodes(root.tree)`parent, Nodes(root.tree)`tag
    modifies node`left, node`right, node`parent, node`tag
    ensures Valid(root) && root.tree == Inserted(c, node)
    ensures Inorder(root.tree) == Before(c) + [node] + After(c)
    ensures Nodes(root.tree) == old(Nodes(root.tree)) + {node}
  {
    HoleFacts(c);
    InsertedValid(c, node);
    ghost var S := Nodes(root.tree);
    InsertAt(node, parent, p, root, S, c);
    Install(root, Inserted(c, node), S + {node});
  }

  /** `rbwrap_insert`. */
  method RbwrapInsert(root: Root, node: Node, cmp: Compare) returns (ret: Node?)
    requires Valid(root) && Order(cmp) && Sorted(cmp, Inorder(root.tree))
    modifies root, Nodes(root.tree)`left, Nodes(root.tree)`right, Nodes(root.tree)`parent, Nodes(root.tree)`tag
    modifies node`left, node`right, node`parent, node`tag
    ensures Valid(root)
    ensures ret == RootOf(Locate(cmp, node.key, Top, old(root.tree)).1)
    ensures ret != null ==>
      && ret in old(Inorder(root.tree)) && cmp(ret.key, node.key) == 0
      && unchanged(root) && unchanged(node) && Snap(Nodes(root.tree)) == old(Snap(Nodes(root.tree)))
    ensures ret == null ==>
      && Admits(cmp, old(Inorder(root.tree)), node, Inorder(root.tree))
      && Nodes(root.tree) == old(Nodes(root.tree)) + {node}
      && root.tree == Inserted(Locate(cmp, node.key, Top, old(root.tree)).0, node)
  {
    ghost var T := root.tree;
    ghost var (c, u) := Locate(cmp, node.key, Top, T);
    SearchEnds(cmp, T, node);
    HoleForNew(cmp, T, node);
    var parent, p;
    ret, parent, p := FindLink(root, node, cmp, Nodes(T));
    if ret != null {
      return;
    }
    InsertNew(node, parent, p, root, c);
  }

  lemma {:induction false} LeafReady(c: Path, n: Node)
    requires RbPath(c, 0, false)
    ensures !c.Top? ==> var leaf := Fork(Leaf, n, RED, Leaf); Red(leaf) && Rb(leaf) && RbPath(c, BlackHeight(leaf), false)
    ensures c.Top? ==> InsertFix(c, Fork(Leaf, n, BLACK, Leaf)) == Inserted(c, n)
  {
  }

  method InsertAt(node: Node, parent: Node?, p: Link, root: Root, ghost S: set<Node>, ghost c: Path)
    requires At(Snap(S), c, Leaf, root.node) && PathNodes(c) == S && node !in S
    requires parent == Above(c) && p == LinkInto(c) && RbPath(c, 0, false)
    modifies root`node, (S + {node})`left, (S + {node})`right, (S + {node})`parent, (S + {node})`tag
    ensures At(Snap(S + {node}), Top, Inserted(c, node), root.node)
  {
    ghost var S', leaf := S + {node}, Fork(Leaf, node, if c.Top? then BLACK else RED, Leaf);
    AlongFrame(Snap(S), Snap(S'), c, null, root.node);
    LinkNode(node, parent, p, root, S', c);
    LeafReady(c, node);
    InsertColor(node, root, S', c, leaf);
  }
}
