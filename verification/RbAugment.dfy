/** The augmentation hooks of rbtree.c: a value per node that depends on the
    node and on its children's values, repaired along one path. */
module RbAugment {
  import opened Trees
  import opened RbShape

  datatype Option = None | Some(value: int)

  /** What the client's callback computes for a node from its children's values. */
  type Augment = (Node, Option, Option) -> int

  type Values = map<Node, int>

  function ValueOf(v: Values, t: Tree): Option
    requires t.Fork? ==> t.node in v
  {
    if t.Leaf? then None else Some(v[t.node])
  }

  predicate Rooted(v: Values, t: Tree) {
    t.Fork? ==> t.node in v
  }

  /** The value of the root agrees with those of its children. */
  predicate Agrees(f: Augment, v: Values, t: Tree) {
    && Rooted(v, t)
    && (t.Fork? ==> Rooted(v, t.left) && Rooted(v, t.right))
    && (t.Fork? ==> v[t.node] == f(t.node, ValueOf(v, t.left), ValueOf(v, t.right)))
  }

  /** Every value in `t` is right. */
  predicate Augmented(f: Augment, v: Values, t: Tree) {
    Agrees(f, v, t) && (t.Fork? ==> Augmented(f, v, t.left) && Augmented(f, v, t.right))
  }

  /** Every value but perhaps the root's is right. */
  predicate Below(f: Augment, v: Values, t: Tree) {
    t.Fork? ==> Augmented(f, v, t.left) && Augmented(f, v, t.right)
  }

  // ----- two augmentations -----

  /** The number of nodes below a node, itself included. */
  function CountNodes(n: Node, left: Option, right: Option): int {
    1 + (if left.Some? then left.value else 0) + (if right.Some? then right.value else 0)
  }

  lemma {:induction false} CountsAreSizes(v: Values, t: Tree)
    requires t.Fork? && Augmented(CountNodes, v, t)
    ensures v[t.node] == |Inorder(t)|
  {
    if t.left.Fork? {
      CountsAreSizes(v, t.left);
    }
    if t.right.Fork? {
      CountsAreSizes(v, t.right);
    }
  }

  /** The key of the first node below a node. */
  function FirstKey(n: Node, left: Option, right: Option): int {
    if left.Some? then left.value else n.key
  }

  lemma {:induction false} FirstKeysAreFirst(v: Values, t: Tree)
    requires t.Fork? && Augmented(FirstKey, v, t)
    ensures Inorder(t) != [] && v[t.node] == Inorder(t)[0].key
  {
    if t.left.Fork? {
      FirstKeysAreFirst(v, t.left);
    }
  }

  /** The only values that may be wrong are on the way from the root to `s`, or
      at the siblings of that way. */
  predicate Repairable(f: Augment, v: Values, t: Tree, s: Node) {
    t.Fork? && (
      if t.node == s then Below(f, v, t)
      else if s in Nodes(t.left) then Repairable(f, v, t.left, s) && Below(f, v, t.right)
      else s in Nodes(t.right) && Repairable(f, v, t.right, s) && Below(f, v, t.left))
  }

  /** The same for everything around a hole. */
  predicate AugmentedPath(f: Augment, v: Values, c: Path) {
    c.Top? || (Augmented(f, v, Sibling(c)) && AugmentedPath(f, v, c.up))
  }

  lemma {:induction false} AugmentedPlug(f: Augment, v: Values, c: Path, t: Tree)
    requires Augmented(f, v, Plug(c, t))
    ensures Augmented(f, v, t) && AugmentedPath(f, v, c)
  {
    if !c.Top? {
      AugmentedPlug(f, v, c.up, Wrap(c, t));
    }
  }

  lemma {:induction false} RepairablePlug(f: Augment, v: Values, c: Path, t: Tree, s: Node)
    requires Repairable(f, v, t, s) && AugmentedPath(f, v, c) && s in Nodes(t) && s !in PathNodes(c)
    ensures Repairable(f, v, Plug(c, t), s)
  {
    if !c.Top? {
      assert s !in Nodes(Sibling(c)) && Below(f, v, Sibling(c));
      RepairablePlug(f, v, c.up, Wrap(c, t), s);
    }
  }

  // ----- insertion -----

  /** The new leaf `x` hangs in a tree whose other values off the way to `x` are right. */
  predicate Fresh(f: Augment, v: Values, t: Tree, x: Node) {
    t.Fork? && (
      if t.node == x then t.left.Leaf? && t.right.Leaf?
      else if x in Nodes(t.left) then Fresh(f, v, t.left, x) && Augmented(f, v, t.right)
      else x in Nodes(t.right) && Fresh(f, v, t.right, x) && Augmented(f, v, t.left))
  }

  /** Once rebalanced: everything wrong is on the way to `x`, at siblings of that
      way, at `x` itself or at its children. */
  predicate Shaken(f: Augment, v: Values, t: Tree, x: Node) {
    t.Fork? && (
      if t.node == x then Below(f, v, t.left) && Below(f, v, t.right)
      else if x in Nodes(t.left) then Shaken(f, v, t.left, x) && Below(f, v, t.right)
      else x in Nodes(t.right) && Shaken(f, v, t.right, x) && Below(f, v, t.left))
  }

  lemma {:induction false} FreshShaken(f: Augment, v: Values, t: Tree, x: Node)
    requires Fresh(f, v, t, x)
    ensures Shaken(f, v, t, x) && x in Nodes(t)
  {
    if t.node != x {
      FreshShaken(f, v, if x in Nodes(t.left) then t.left else t.right, x);
    }
  }

  lemma {:induction false} ShakenPlug(f: Augment, v: Values, c: Path, t: Tree, x: Node)
    requires Shaken(f, v, t, x) && AugmentedPath(f, v, c) && x in Nodes(t) && x !in PathNodes(c)
    ensures Shaken(f, v, Plug(c, t), x)
  {
    if !c.Top? {
      assert x !in Nodes(Sibling(c)) && Below(f, v, Sibling(c));
      ShakenPlug(f, v, c.up, Wrap(c, t), x);
    }
  }

  lemma {:induction false} ShakenBlackened(f: Augment, v: Values, t: Tree, x: Node)
    requires Shaken(f, v, t, x)
    ensures Shaken(f, v, Blackened(t), x)
  {
  }

  /** Recolouring and up to two rotations on the way up shake no more than that. */
  lemma {:induction false} InsertFixShakes(f: Augment, v: Values, c: Path, t: Tree, x: Node)
    requires Fresh(f, v, t, x) && AugmentedPath(f, v, c) && Apart(c, t)
    ensures Shaken(f, v, InsertFix(c, t), x)
    decreases c
  {
    FreshShaken(f, v, t, x);
    if c.Top? || c.tag != RED || c.up.Top? {
      ShakenPlug(f, v, c, t, x);
      ShakenBlackened(f, v, Plug(c, t), x);
    } else if Red(Sibling(c.up)) {
      RecoloredFresh(f, v, c, t, x);
      InsertFixShakes(f, v, c.up.up, Recolored(c, t), x);
    } else {
      TurnedShaken(f, v, c, t, x);
      ShakenPlug(f, v, c.up.up, Turned(c, t), x);
      ShakenBlackened(f, v, Plug(c.up.up, Turned(c, t)), x);
    }
  }

  lemma {:induction false} RecoloredFresh(f: Augment, v: Values, c: Path, t: Tree, x: Node)
    requires Fresh(f, v, t, x) && AugmentedPath(f, v, c) && Apart(c, t) && x in Nodes(t)
    requires !c.Top? && !c.up.Top? && Red(Sibling(c.up))
    ensures Fresh(f, v, Recolored(c, t), x) && Apart(c.up.up, Recolored(c, t))
  {
    var p, u := Wrap(c, t), Sibling(c.up);
    ApartUp(c, t);
    ApartUp(c.up, p);
    assert x != c.node && x !in Nodes(Sibling(c));
    FreshUp(f, v, c, t, x);
    assert Inorder(Recolored(c, t)) == Inorder(Wrap(c.up, p));
    SameInorderApart(c.up.up, Wrap(c.up, p), Recolored(c, t));
    FreshUp(f, v, c.up, p, x);
    AugmentedTagged(f, v, u);
    assert Nodes(Tagged(p, BLACK)) == Nodes(p) && Nodes(Tagged(u, BLACK)) == Nodes(u);
    assert Fresh(f, v, Tagged(p, BLACK), x);
  }

  lemma {:induction false} AugmentedTagged(f: Augment, v: Values, t: Tree)
    requires Augmented(f, v, t)
    ensures Augmented(f, v, Tagged(t, BLACK))
  {
  }

  lemma {:induction false} FreshUp(f: Augment, v: Values, c: Path, t: Tree, x: Node)
    requires Fresh(f, v, t, x) && !c.Top? && Augmented(f, v, Sibling(c)) && Apart(c, t) && x in Nodes(t)
    ensures Fresh(f, v, Wrap(c, t), x) && x in Nodes(Wrap(c, t))
  {
  }

  lemma {:induction false} TurnedShaken(f: Augment, v: Values, c: Path, t: Tree, x: Node)
    requires Fresh(f, v, t, x) && AugmentedPath(f, v, c) && Apart(c, t) && x in Nodes(t)
    requires !c.Top? && !c.up.Top?
    ensures Shaken(f, v, Turned(c, t), x) && x in Nodes(Turned(c, t)) && x !in PathNodes(c.up.up)
  {
    FreshShaken(f, v, t, x);
    assert x != c.node && x != c.up.node && x !in Nodes(Sibling(c)) && x !in Nodes(Sibling(c.up));
    if t.node != x {
      FreshShaken(f, v, if x in Nodes(t.left) then t.left else t.right, x);
    }
  }

  lemma {:induction false} InsertedShaken(f: Augment, v: Values, c: Path, x: Node)
    requires Augmented(f, v, Plug(c, Leaf)) && Distinct(Plug(c, Leaf)) && x !in PathNodes(c)
    ensures Shaken(f, v, InsertFix(c, Fork(Leaf, x, RED, Leaf)), x)
  {
    AugmentedPlug(f, v, c, Leaf);
    ApartPlug(c, Leaf);
    InsertFixShakes(f, v, c, Fork(Leaf, x, RED, Leaf), x);
  }

  /** Where `rb_augment_insert` starts: at a child of `x` if it has one. */
  function StartOf(t: Tree): Node
    requires t.Fork?
  {
    if t.left.Fork? then t.left.node else if t.right.Fork? then t.right.node else t.node
  }

  lemma {:induction false} ShakenRepairable(f: Augment, v: Values, t: Tree, x: Node)
    requires Shaken(f, v, t, x) && Distinct(t) && x in Nodes(t)
    ensures var s := StartOf(Focus(Top, t, x).1); Repairable(f, v, t, s) && s in Nodes(t)
  {
    ShakenFocus(f, v, Top, t, x);
  }

  lemma {:induction false} ShakenFocus(f: Augment, v: Values, c: Path, t: Tree, x: Node)
    requires Shaken(f, v, t, x) && Distinct(t) && x in Nodes(t)
    ensures var s := StartOf(Focus(c, t, x).1); Repairable(f, v, t, s) && s in Nodes(t)
    decreases t
  {
    if t.node == x {
      var s := StartOf(t);
      if t.left.Fork? {
        assert s in Nodes(t.left);
      } else if t.right.Fork? {
        assert s in Nodes(t.right);
      }
    } else if x in Nodes(t.left) {
      ShakenFocus(f, v, InLeft(c, t.node, t.tag, t.right), t.left, x);
    } else {
      ShakenFocus(f, v, InRight(c, t.left, t.node, t.tag), t.right, x);
    }
  }

  /** What the climb needs: the values below the place and those below all
      siblings of the way up are right. */
  predicate BelowPath(f: Augment, v: Values, c: Path) {
    c.Top? || (Below(f, v, Sibling(c)) && BelowPath(f, v, c.up))
  }

  lemma {:induction false} RepairableFocus(f: Augment, v: Values, c: Path, t: Tree, s: Node)
    requires Repairable(f, v, t, s) && s in Nodes(t) && BelowPath(f, v, c)
    ensures var (c', t') := Focus(c, t, s); BelowPath(f, v, c') && Below(f, v, t')
    decreases t
  {
    if t.node == s {
    } else if s in Nodes(t.left) {
      RepairableFocus(f, v, InLeft(c, t.node, t.tag, t.right), t.left, s);
    } else {
      RepairableFocus(f, v, InRight(c, t.left, t.node, t.tag), t.right, s);
    }
  }

  // ----- deletion -----

  /** `rb_augment_erase_begin`: the deepest node of the repair that will remain. */
  function Deepest(c: Path, t: Tree): Node?
    requires t.Fork?
  {
    var (hole, u, _) := EraseHole(c, t);
    if u.Fork? then u.node else Above(hole)
  }

  /** All values around the hole and in what moves into it are right. */
  lemma {:induction false} EraseHoleAugmented(f: Augment, v: Values, c: Path, t: Tree)
    requires t.Fork? && Augmented(f, v, Plug(c, t))
    ensures var (hole, u, _) := EraseHole(c, t); AugmentedPath(f, v, hole) && Augmented(f, v, u)
  {
    AugmentedPlug(f, v, c, t);
    if t.left.Fork? && t.right.Fork? {
      MinPathAugmented(f, v, InRight(c, t.left, Min(t.right).node, t.tag), t.right);
    }
  }

  lemma {:induction false} MinPathAugmented(f: Augment, v: Values, c: Path, t: Tree)
    requires t.Fork? && Augmented(f, v, t) && AugmentedPath(f, v, c)
    ensures AugmentedPath(f, v, MinPath(c, t)) && Augmented(f, v, Min(t))
    decreases t
  {
    if t.left.Fork? {
      MinPathAugmented(f, v, InLeft(c, t.node, t.tag, t.right), t.left);
    }
  }

  /** Where the repair stands: the deepest changed node is in `t`, or is the
      node above a hole that holds nothing. */
  predicate Reached(f: Augment, v: Values, c: Path, t: Tree, s: Node?) {
    && Apart(c, t) && AugmentedPath(f, v, c)
    && if t.Leaf? then s == Above(c)
       else s != null && s in Nodes(t) && Repairable(f, v, t, s)
  }

  /** A tree all of whose damage is on the way to `s`; an empty one has none. */
  predicate Mendable(f: Augment, v: Values, t: Tree, s: Node?) {
    if t.Leaf? then s == null else s != null && s in Nodes(t) && Repairable(f, v, t, s)
  }

  lemma {:induction false} ReachedPlug(f: Augment, v: Values, c: Path, t: Tree, s: Node?)
    requires Reached(f, v, c, t, s)
    ensures Mendable(f, v, Plug(c, t), s)
  {
    if t.Fork? {
      RepairablePlug(f, v, c, t, s);
      ApartPlug(c, t);
      PlugFork(c, t);
    } else if !c.Top? {
      var t' := Wrap(c, t);
      RepairablePlug(f, v, c.up, t', s);
      ApartPlug(c, t);
      PlugFork(c, t);
    }
  }

  lemma {:induction false} MendableBlackened(f: Augment, v: Values, t: Tree, s: Node?)
    requires Mendable(f, v, t, s)
    ensures Mendable(f, v, Blackened(t), s)
  {
  }

  lemma {:induction false} RepairableBlackened(f: Augment, v: Values, c: Path, t: Tree, s: Node?)
    requires Reached(f, v, c, t, s)
    ensures Reached(f, v, c, Blackened(t), s)
  {
  }

  lemma {:induction false} EraseFixMends(f: Augment, v: Values, c: Path, t: Tree, s: Node?)
    requires Reached(f, v, c, t, s)
    ensures Mendable(f, v, EraseFix(c, t), s)
    decreases Depth(c), if Red(t) then 0 else 1, 0
  {
    if c.Top? || Red(t) {
      RepairableBlackened(f, v, c, t, s);
      ReachedPlug(f, v, c, Blackened(t), s);
    } else if Sibling(c).Leaf? {
      ReachedPlug(f, v, c, t, s);
    } else if Red(Sibling(c)) {
      LoweredReached(f, v, c, t, s);
      EraseSiblingMends(f, v, Lowered(c), t, s);
    } else {
      EraseSiblingMends(f, v, c, t, s);
    }
  }

  lemma {:induction false} LoweredReached(f: Augment, v: Values, c: Path, t: Tree, s: Node?)
    requires !c.Top? && Sibling(c).Fork? && Reached(f, v, c, t, s)
    ensures Reached(f, v, Lowered(c), t, s)
  {
  }

  lemma {:induction false} EraseSiblingMends(f: Augment, v: Values, c: Path, t: Tree, s: Node?)
    requires !c.Top? && Reached(f, v, c, t, s)
    ensures Mendable(f, v, EraseSibling(c, t), s)
    decreases Depth(c.up), if c.tag == RED then 0 else 1, 1
  {
    var o := Sibling(c);
    if o.Leaf? {
      ReachedPlug(f, v, c, t, s);
    } else if !Red(o.left) && !Red(o.right) {
      UpReached(f, v, c, t, s);
      EraseFixMends(f, v, c.up, Both(c, t, c.node, c.tag, Tagged(o, RED)), s);
    } else {
      TurnReached(f, v, c, t, s);
      ReachedPlug(f, v, c.up, EraseTurned(c, t), s);
      MendableBlackened(f, v, Plug(c.up, EraseTurned(c, t)), s);
    }
  }

  lemma {:induction false} UpReached(f: Augment, v: Values, c: Path, t: Tree, s: Node?)
    requires !c.Top? && Sibling(c).Fork? && Reached(f, v, c, t, s)
    ensures Reached(f, v, c.up, Both(c, t, c.node, c.tag, Tagged(Sibling(c), RED)), s)
  {
  }

  lemma {:induction false} TurnReached(f: Augment, v: Values, c: Path, t: Tree, s: Node?)
    requires !c.Top? && Sibling(c).Fork? && (Red(Sibling(c).left) || Red(Sibling(c).right)) && Reached(f, v, c, t, s)
    ensures Reached(f, v, c.up, EraseTurned(c, t), s) && EraseTurned(c, t).Fork?
  {
    ApartUp(c, t);
    EraseTurnedOrder(c, t);
    SameInorderApart(c.up, Wrap(c, t), EraseTurned(c, t));
    InnerRepairable(f, v, c, t, s);
    OutwardBelow(f, v, c, t);
  }

  /** The former parent with the hole's subtree and the sibling's near subtree. */
  lemma {:induction false} InnerRepairable(f: Augment, v: Values, c: Path, t: Tree, s: Node?)
    requires !c.Top? && Sibling(c).Fork? && (Red(Sibling(c).left) || Red(Sibling(c).right)) && Reached(f, v, c, t, s)
    ensures s != null
    ensures var inner := Both(c, t, c.node, BLACK, Near(c, Outward(c))); Repairable(f, v, inner, s) && s in Nodes(inner)
    ensures EraseTurned(c, t).node != s && s !in Nodes(Far(c, Outward(c)))
  {
    var o := Sibling(c);
    assert s == c.node || s in Nodes(t);
    assert Augmented(f, v, o.left) && Augmented(f, v, o.right);
    assert !Red(Far(c, o)) ==> Near(c, Outward(c)) == Near(c, Near(c, o));
    assert Augmented(f, v, Near(c, Outward(c)));
    assert Outward(c).node in Nodes(o) && Nodes(Far(c, Outward(c))) <= Nodes(o);
  }

  lemma {:induction false} OutwardBelow(f: Augment, v: Values, c: Path, t: Tree)
    requires !c.Top? && Sibling(c).Fork? && (Red(Sibling(c).left) || Red(Sibling(c).right)) && Augmented(f, v, Sibling(c))
    ensures var inner, o := Both(c, t, c.node, BLACK, Near(c, Outward(c))), Outward(c);
      EraseTurned(c, t) == Both(c, inner, o.node, c.tag, Blackened(Far(c, o))) && Below(f, v, Blackened(Far(c, o)))
  {
  }

  lemma {:induction false} EraseHoleApart(c: Path, t: Tree)
    requires t.Fork? && Distinct(Plug(c, t))
    ensures var (hole, u, _) := EraseHole(c, t); Apart(hole, u)
  {
    var (hole, u, _) := EraseHole(c, t);
    EraseHoleOrder(c, t);
    SplitOrder(c, t);
    var a, b := Before(c) + Inorder(t.left), Inorder(t.right) + After(c);
    assert Inorder(Plug(hole, u)) == a + b;
    NoRepeatConcat(a + [t.node], b);
    NoRepeatConcat(a, [t.node]);
    assert Elements(a) <= Elements(a + [t.node]);
    NoRepeatConcat(a, b);
    DistinctInorder(Plug(hole, u));
    ApartPlug(hole, u);
  }

  /** After `rb_erase`, the way from the deepest node that `rb_augment_erase_begin`
      has noted covers all damage. */
  lemma {:induction false} ErasedMendable(f: Augment, v: Values, c: Path, t: Tree)
    requires t.Fork? && RedBlack(Plug(c, t)) && Distinct(Plug(c, t)) && Augmented(f, v, Plug(c, t))
    ensures Mendable(f, v, Erased(c, t), Deepest(c, t))
  {
    var (hole, u, color) := EraseHole(c, t);
    EraseHoleAugmented(f, v, c, t);
    EraseHoleApart(c, t);
    if color == BLACK {
      EraseFixMends(f, v, hole, u, Deepest(c, t));
    } else {
      ReachedPlug(f, v, hole, u, Deepest(c, t));
    }
  }
}
