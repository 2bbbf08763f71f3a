/** The augmentation hooks on linked nodes, and their use around an insertion
    and a deletion. */
module RbAugmentTree {
  import opened Trees
  import opened Links
  import opened RbShape
  import opened RbAugment
  import opened Search
  import opened Threads
  import opened Walk
  import opened RbTree
  import RbWalk

  ghost function Augs(S: set<Node>): Values
    reads S`aug
  {
    map n | n in S :: n.aug
  }

  function AugOf(n: Node?): Option
    reads Only(n)`aug
  {
    if n == null then None else Some(n.aug)
  }

  lemma {:induction false} AugFrame(f: Augment, v: Values, v': Values, t: Tree)
    requires Augmented(f, v, t) && forall n :: n in Nodes(t) && n in v ==> n in v' && v'[n] == v[n]
    ensures Augmented(f, v', t)
  {
    if t.Fork? {
      assert t.left.Fork? ==> t.left.node in Nodes(t.left);
      assert t.right.Fork? ==> t.right.node in Nodes(t.right);
      AugFrame(f, v, v', t.left);
      AugFrame(f, v, v', t.right);
    }
  }

  lemma {:induction false} PathFrame(f: Augment, v: Values, v': Values, c: Path)
    requires BelowPath(f, v, c) && forall n :: n in PathNodes(c) && n in v ==> n in v' && v'[n] == v[n]
    ensures BelowPath(f, v', c)
  {
    if !c.Top? {
      var s := Sibling(c);
      if s.Fork? {
        AugFrame(f, v, v', s.left);
        AugFrame(f, v, v', s.right);
      }
      PathFrame(f, v, v', c.up);
    }
  }

  /** The callback, once the values below `n` are right, makes the whole subtree right. */
  method Apply(n: Node, f: Augment, root: Root, ghost S: set<Node>, ghost c: Path, ghost t: Tree)
    requires t.Fork? && n == t.node && At(Snap(S), c, t, root.node) && Below(f, Augs(S), t)
    modifies n`aug
    ensures Augmented(f, Augs(S), t)
    ensures forall x :: x in S && x != n ==> Augs(S)[x] == old(Augs(S))[x]
    ensures Snap(S) == old(Snap(S))
  {
    ghost var v := Augs(S);
    Look(Snap(S), c, t, root.node);
    n.aug := f(n, AugOf(n.left), AugOf(n.right));
    AugFrame(f, v, Augs(S), t.left);
    AugFrame(f, v, Augs(S), t.right);
  }

  /** One round of `rb_augment_path`: the node, then its sibling. */
  method AugmentStep(node: Node, parent: Node, f: Augment, root: Root, ghost S: set<Node>, ghost c: Path, ghost t: Tree)
    requires t.Fork? && node == t.node && !c.Top? && parent == c.node && At(Snap(S), c, t, root.node)
    requires Augmented(f, Augs(S), t) && BelowPath(f, Augs(S), c)
    modifies S`aug
    ensures Below(f, Augs(S), Wrap(c, t)) && BelowPath(f, Augs(S), c.up)
    ensures Snap(S) == old(Snap(S)) && At(Snap(S), c.up, Wrap(c, t), root.node)
  {
    AtUp(Snap(S), c, t, root.node);
    ghost var v, b, s := Augs(S), Beside(c, t), Sibling(c);
    Look(Snap(S), c, t, root.node);
    AtSwitch(Snap(S), c, t, b, s, root.node);
    Look(Snap(S), b, s, root.node);
    if node == parent.left && parent.right != null {
      Apply(parent.right, f, root, S, b, s);
      AugFrame(f, v, Augs(S), t);
    } else if parent.left != null {
      if node == parent.left {
        Apply(parent.left, f, root, S, c, t);
      } else {
        Apply(parent.left, f, root, S, b, s);
        AugFrame(f, v, Augs(S), t);
      }
    }
    PathFrame(f, v, Augs(S), c.up);
  }

  /** What holds at the head of the climb. */
  ghost predicate Mending(f: Augment, v: Values, m: Image, c: Path, t: Tree, node: Node, root: Node?) {
    && t.Fork? && node == t.node && At(m, c, t, root)
    && Below(f, v, t) && BelowPath(f, v, c)
  }

  method ApplyHere(node: Node, f: Augment, root: Root, ghost S: set<Node>, ghost c: Path, ghost t: Tree)
    requires Mending(f, Augs(S), Snap(S), c, t, node, root.node)
    modifies node`aug
    ensures Augmented(f, Augs(S), t) && BelowPath(f, Augs(S), c) && At(Snap(S), c, t, root.node)
    ensures Snap(S) == old(Snap(S)) && node.parent == Above(c)
  {
    ghost var v := Augs(S);
    Look(Snap(S), c, t, root.node);
    Apply(node, f, root, S, c, t);
    PathFrame(f, v, Augs(S), c);
  }

  /** `rb_augment_path`. */
  method AugmentPath(start: Node, f: Augment, root: Root, ghost S: set<Node>, ghost c0: Path, ghost t0: Tree)
    requires Mending(f, Augs(S), Snap(S), c0, t0, start, root.node)
    modifies S`aug
    ensures Augmented(f, Augs(S), Plug(c0, t0)) && Snap(S) == old(Snap(S))
  {
    var node: Node := start;
    ghost var c, t := c0, t0;
    while true
      invariant Mending(f, Augs(S), Snap(S), c, t, node, root.node) && Plug(c, t) == Plug(c0, t0)
      invariant Snap(S) == old(Snap(S))
      decreases Depth(c)
    {
      SubNodes(Snap(S), t, Above(c));
      ApplyHere(node, f, root, S, c, t);
      var parent := node.parent;
      if parent == null {
        return;
      }
      AugmentStep(node, parent, f, root, S, c, t);
      node := parent;
      c, t := c.up, Wrap(c, t);
    }
  }

  /** Repairing a tree whose damage is known to lie around the way to `s`. */
  method MendFrom(s: Node, f: Augment, root: Root)
    requires Valid(root) && s in Nodes(root.tree) && Repairable(f, Augs(Nodes(root.tree)), root.tree, s)
    modifies Nodes(root.tree)`aug
    ensures Valid(root) && Augmented(f, Augs(Nodes(root.tree)), root.tree)
  {
    ghost var S := Nodes(root.tree);
    ghost var (c, t) := Focus(Top, root.tree, s);
    AtSwitch(Snap(S), Top, root.tree, c, t, root.node);
    RepairableFocus(f, Augs(S), Top, root.tree, s);
    AugmentPath(s, f, root, S, c, t);
  }

  /** `rb_augment_insert`. */
  method AugmentInsert(x: Node, f: Augment, root: Root)
    requires Valid(root) && x in Nodes(root.tree) && Shaken(f, Augs(Nodes(root.tree)), root.tree, x)
    modifies Nodes(root.tree)`aug
    ensures Valid(root) && Augmented(f, Augs(Nodes(root.tree)), root.tree)
  {
    ghost var S := Nodes(root.tree);
    ghost var (c, t) := Focus(Top, root.tree, x);
    AtSwitch(Snap(S), Top, root.tree, c, t, root.node);
    Look(Snap(S), c, t, root.node);
    ShakenRepairable(f, Augs(S), root.tree, x);
    var node := x;
    if node.left != null {
      node := node.left;
    } else if node.right != null {
      node := node.right;
    }
    MendFrom(node, f, root);
  }

  /** `rb_augment_erase_begin`. */
  method AugmentEraseBegin(node: Node, root: Root) returns (deepest: Node?)
    requires Valid(root) && node in Nodes(root.tree)
    ensures var (c, t) := Focus(Top, root.tree, node); deepest == Deepest(c, t)
  {
    ghost var S := Nodes(root.tree);
    ghost var (c, t) := Focus(Top, root.tree, node);
    AtSwitch(Snap(S), Top, root.tree, c, t, root.node);
    Look(Snap(S), c, t, root.node);
    if node.right == null && node.left == null {
      deepest := node.parent;
    } else if node.right == null {
      deepest := node.left;
    } else if node.left == null {
      deepest := node.right;
    } else {
      ghost var b := InRight(c, t.left, t.node, t.tag);
      deepest := RbWalk.NextAt(node, root, S, c, t);
      MinFirst(t.right);
      MinFacts(b, t.right);
      AtSwitch(Snap(S), c, t, MinPath(b, t.right), Min(t.right), root.node);
      Look(Snap(S), MinPath(b, t.right), Min(t.right), root.node);
      VacatedAbove(c, t);
      MinPathSide(b, t.right);
      if deepest.right != null {
        deepest := deepest.right;
      } else if deepest.parent != node {
        deepest := deepest.parent;
      }
    }
  }

  /** `rb_augment_erase_end`. */
  method AugmentEraseEnd(node: Node?, f: Augment, root: Root)
    requires Valid(root) && Mendable(f, Augs(Nodes(root.tree)), root.tree, node)
    modifies Nodes(root.tree)`aug
    ensures Valid(root) && Augmented(f, Augs(Nodes(root.tree)), root.tree)
  {
    if node != null {
      MendFrom(node, f, root);
    }
  }

  // ----- the two protocols -----

  /** An insertion alone leaves damage of the kind `rb_augment_insert` repairs. */
  method InsertShaken(root: Root, node: Node, cmp: Compare, f: Augment) returns (ret: Node?)
    requires Valid(root) && Order(cmp) && Sorted(cmp, Inorder(root.tree))
    requires Augmented(f, Augs(Nodes(root.tree)), root.tree)
    modifies root, Nodes(root.tree), node
    ensures Valid(root)
    ensures ret == null ==>
      && Admits(cmp, old(Inorder(root.tree)), node, Inorder(root.tree))
      && node in Nodes(root.tree) && Nodes(root.tree) == old(Nodes(root.tree)) + {node}
      && Shaken(f, Augs(Nodes(root.tree)), root.tree, node)
    ensures ret != null ==>
      && ret in old(Inorder(root.tree)) && cmp(ret.key, node.key) == 0
      && root.tree == old(root.tree) && Augmented(f, Augs(Nodes(root.tree)), root.tree)
  {
    ghost var v := Augs(Nodes(root.tree) + {node});
    NewShaken(f, Augs(Nodes(root.tree)), v, cmp, root.tree, node);
    ret := RbwrapInsert(root, node, cmp);
    if ret == null {
      assert Augs(Nodes(root.tree)) == v;
    } else {
      AugFrame(f, v, Augs(Nodes(root.tree)), root.tree);
    }
  }

  lemma {:induction false} NewShaken(f: Augment, v: Values, v': Values, cmp: Compare, t: Tree, n: Node)
    requires Augmented(f, v, t) && forall x :: x in Nodes(t) && x in v ==> x in v' && v'[x] == v[x]
    requires Order(cmp) && Sorted(cmp, Inorder(t)) && Distinct(t)
    ensures Augmented(f, v', t)
    ensures var (c, u) := Locate(cmp, n.key, Top, t); u.Leaf? ==> Shaken(f, v', Inserted(c, n), n)
  {
    AugFrame(f, v, v', t);
    HoleForNew(cmp, t, n);
    var (c, u) := Locate(cmp, n.key, Top, t);
    if u.Leaf? {
      InsertedShaken(f, v', c, n);
    }
  }

  /** An insertion followed by `rb_augment_insert` keeps every value right. */
  method InsertAugmented(root: Root, node: Node, cmp: Compare, f: Augment) returns (ret: Node?)
    requires Valid(root) && Order(cmp) && Sorted(cmp, Inorder(root.tree))
    requires Augmented(f, Augs(Nodes(root.tree)), root.tree)
    modifies root, Nodes(root.tree), node
    ensures Valid(root) && Augmented(f, Augs(Nodes(root.tree)), root.tree)
    ensures ret == null ==>
      && Admits(cmp, old(Inorder(root.tree)), node, Inorder(root.tree))
      && Nodes(root.tree) == old(Nodes(root.tree)) + {node}
    ensures ret != null ==>
      && ret in old(Inorder(root.tree)) && cmp(ret.key, node.key) == 0
      && root.tree == old(root.tree)
  {
    ret := InsertShaken(root, node, cmp, f);
    if ret == null {
      AugmentInsert(node, f, root);
    }
  }

  /** `rb_augment_erase_begin`, `rb_erase`, `rb_augment_erase_end`: likewise. */
  method EraseAugmented(root: Root, node: Node, f: Augment)
    requires Valid(root) && node in Nodes(root.tree)
    requires Augmented(f, Augs(Nodes(root.tree)), root.tree)
    modifies root, Nodes(root.tree)
    ensures Valid(root) && Augmented(f, Augs(Nodes(root.tree)), root.tree)
    ensures Inorder(root.tree) == Without(old(Inorder(root.tree)), node)
  {
    ghost var v := Augs(Nodes(root.tree));
    ghost var (c, t) := Focus(Top, root.tree, node);
    ErasedMendable(f, v, c, t);
    var deepest := AugmentEraseBegin(node, root);
    Erase(node, root);
    MendableFrame(f, v, Augs(Nodes(root.tree)), root.tree, deepest);
    AugmentEraseEnd(deepest, f, root);
  }

  lemma {:induction false} MendableFrame(f: Augment, v: Values, v': Values, t: Tree, s: Node?)
    requires Mendable(f, v, t, s) && forall n :: n in Nodes(t) && n in v ==> n in v' && v'[n] == v[n]
    ensures Mendable(f, v', t, s)
  {
    if t.Fork? {
      RepairableFrame(f, v, v', t, s);
    }
  }

  lemma {:induction false} RepairableFrame(f: Augment, v: Values, v': Values, t: Tree, s: Node)
    requires Repairable(f, v, t, s) && forall n :: n in Nodes(t) && n in v ==> n in v' && v'[n] == v[n]
    ensures Repairable(f, v', t, s)
  {
    BelowFrame(f, v, v', t.left);
    BelowFrame(f, v, v', t.right);
    if t.node == s {
      AugFrame(f, v, v', t.left);
      AugFrame(f, v, v', t.right);
    } else {
      RepairableFrame(f, v, v', if s in Nodes(t.left) then t.left else t.right, s);
    }
  }

  lemma {:induction false} BelowFrame(f: Augment, v: Values, v': Values, t: Tree)
    requires forall n :: n in Nodes(t) && n in v ==> n in v' && v'[n] == v[n]
    ensures Below(f, v, t) ==> Below(f, v', t)
  {
    if t.Fork? && Below(f, v, t) {
      AugFrame(f, v, v', t.left);
      AugFrame(f, v, v', t.right);
    }
  }
}
