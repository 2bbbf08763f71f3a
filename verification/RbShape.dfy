/** Red-black trees as values: the rules, and what the two repair loops of
    rbtree.c turn a tree with one violation into. */
module RbShape {
  import opened Trees

  const RED := 0
  const BLACK := 1

  predicate Red(t: Tree) {
    t.Fork? && t.tag == RED
  }

  /** The number of black nodes on the way down (on the leftmost one; `Rb` makes them agree). */
  function BlackHeight(t: Tree): int {
    if t.Leaf? then 0 else BlackHeight(t.left) + t.tag
  }

  /** Colours are colours, no red node has a red child, and black heights agree. */
  predicate Rb(t: Tree) {
    match t
    case Leaf => true
    case Fork(l, _, d, r) =>
      && (d == RED || d == BLACK)
      && Rb(l) && Rb(r) && BlackHeight(l) == BlackHeight(r)
      && (d == RED ==> !Red(l) && !Red(r))
  }

  predicate RedBlack(t: Tree) {
    Rb(t) && !Red(t)
  }

  /** The rules for everything around a hole that is to hold a tree of black
      height `h`, red-rooted if `red`. */
  predicate RbPath(c: Path, h: int, red: bool) {
    if c.Top? then !red else
      && (c.tag == RED || c.tag == BLACK)
      && Rb(Sibling(c)) && BlackHeight(Sibling(c)) == h
      && (c.tag == RED ==> !red && !Red(Sibling(c)))
      && RbPath(c.up, h + c.tag, c.tag == RED)
  }

  lemma {:induction false} RbPlug(c: Path, t: Tree)
    ensures RedBlack(Plug(c, t)) <==> Rb(t) && RbPath(c, BlackHeight(t), Red(t))
  {
    if !c.Top? {
      RbPlug(c.up, Wrap(c, t));
    }
  }

  function Blackened(t: Tree): Tree {
    Tagged(t, BLACK)
  }

  /** The parent's subtree once an inner child has been rotated outwards. */
  function Straightened(c: Path, t: Tree): Tree
    requires !c.Top? && !c.up.Top? && t.Fork?
  {
    if c.up.InLeft? && c.InRight? then RotatedLeft(Wrap(c, t))
    else if c.up.InRight? && c.InLeft? then RotatedRight(Wrap(c, t))
    else Wrap(c, t)
  }

  /** The grandparent's subtree after the uncle, the parent and the grandparent
      have been recoloured. */
  function Recolored(c: Path, t: Tree): (g: Tree)
    requires !c.Top? && !c.up.Top?
    ensures g.Fork?
  {
    var parent, uncle := Tagged(Wrap(c, t), BLACK), Tagged(Sibling(c.up), BLACK);
    if c.up.InLeft? then Fork(parent, c.up.node, RED, uncle) else Fork(uncle, c.up.node, RED, parent)
  }

  /** The grandparent's subtree after the final rotations. */
  function Turned(c: Path, t: Tree): (g: Tree)
    requires !c.Top? && !c.up.Top? && t.Fork?
    ensures g.Fork?
  {
    var g, uncle := c.up, Sibling(c.up);
    var parent := Tagged(Straightened(c, t), BLACK);
    if g.InLeft? then RotatedRight(Fork(parent, g.node, RED, uncle))
    else RotatedLeft(Fork(uncle, g.node, RED, parent))
  }

  /** The loop of `rb_insert_color`; `t` is the subtree of `node`. */
  function InsertFix(c: Path, t: Tree): Tree
    requires t.Fork?
    decreases c
  {
    if c.Top? || c.tag != RED || c.up.Top? then Blackened(Plug(c, t))
    else if Red(Sibling(c.up)) then InsertFix(c.up.up, Recolored(c, t))
    else Blackened(Plug(c.up.up, Turned(c, t)))
  }

  /** From "the only violation is `node` red under a red parent", the loop
      restores every rule and keeps the order. */
  lemma {:induction false} InsertFixValid(c: Path, t: Tree)
    requires Red(t) && Rb(t) && RbPath(c, BlackHeight(t), false)
    ensures RedBlack(InsertFix(c, t))
    ensures Inorder(InsertFix(c, t)) == Inorder(Plug(c, t))
    decreases c
  {
    if c.Top? || c.tag != RED {
      RbPlug(c, t);
      BlackenedRoot(Plug(c, t));
    } else if Red(Sibling(c.up)) {
      RecoloredRb(c, t);
      InsertFixValid(c.up.up, Recolored(c, t));
      PlugSame(c.up.up, Recolored(c, t), Wrap(c.up, Wrap(c, t)));
    } else {
      TurnedRb(c, t);
      RbPlug(c.up.up, Turned(c, t));
      BlackenedRoot(Plug(c.up.up, Turned(c, t)));
      PlugSame(c.up.up, Turned(c, t), Wrap(c.up, Wrap(c, t)));
    }
  }

  lemma {:induction false} BlackenedRoot(t: Tree)
    ensures Rb(t) ==> RedBlack(Blackened(t))
    ensures Inorder(Blackened(t)) == Inorder(t)
  {
  }

  /** The red grandparent carries the same violation two levels up. */
  lemma {:induction false} RecoloredRb(c: Path, t: Tree)
    requires Red(t) && Rb(t) && RbPath(c, BlackHeight(t), false)
    requires !c.Top? && c.tag == RED && !c.up.Top? && Red(Sibling(c.up))
    ensures var g := Recolored(c, t); Red(g) && Rb(g) && RbPath(c.up.up, BlackHeight(g), false)
    ensures Inorder(Recolored(c, t)) == Inorder(Wrap(c.up, Wrap(c, t)))
  {
    assert Rb(Sibling(c)) && RbPath(c.up, BlackHeight(t), true);
  }

  /** The one or two rotations that end the loop. */
  lemma {:induction false} TurnedRb(c: Path, t: Tree)
    requires Red(t) && Rb(t) && RbPath(c, BlackHeight(t), false)
    requires !c.Top? && c.tag == RED && !c.up.Top? && !Red(Sibling(c.up))
    ensures var g := Turned(c, t); Rb(g) && !Red(g) && RbPath(c.up.up, BlackHeight(g), false)
    ensures Inorder(Turned(c, t)) == Inorder(Wrap(c.up, Wrap(c, t)))
  {
    var s, g, h := Sibling(c), c.up, BlackHeight(t);
    assert Rb(s) && BlackHeight(s) == h && RbPath(g, h, true);
    assert g.tag == BLACK && Rb(Sibling(g)) && BlackHeight(Sibling(g)) == h && RbPath(g.up, h + 1, false);
    assert BlackHeight(t.left) == h == BlackHeight(t.right);
    TurnedOrder(c, t);
  }

  /** Where `node` is after the final rotations: below a black parent. */
  function Settled(c: Path, t: Tree): (r: (Path, Tree))
    requires !c.Top? && !c.up.Top? && t.Fork?
    ensures r.1.Fork? && !r.0.Top?
  {
    var g, top, u, p := c.up, c.up.up, Turned(c, t), Straightened(c, t);
    if g.InLeft? then (InLeft(top, u.node, BLACK, u.right), p.left)
    else (InRight(top, u.left, u.node, BLACK), p.right)
  }

  lemma {:induction false} SettledFacts(c: Path, t: Tree)
    requires Red(t) && Rb(t) && RbPath(c, BlackHeight(t), false)
    requires !c.Top? && c.tag == RED && !c.up.Top? && !Red(Sibling(c.up))
    ensures var (c', t') := Settled(c, t);
      && Plug(c', t') == Plug(c.up.up, Turned(c, t))
      && InsertFix(c', t') == InsertFix(c, t)
      && Red(t') && Rb(t') && RbPath(c', BlackHeight(t'), false) && Depth(c') < Depth(c)
  {
    var (c', t') := Settled(c, t);
    TurnedRb(c, t);
    assert Plug(c', t') == Plug(c.up.up, Wrap(c', t'));
    assert c.up.InLeft? ==> Rb(Turned(c, t).right);
    assert c.up.InRight? ==> Rb(Turned(c, t).left);
  }

  lemma {:induction false} TurnedOrder(c: Path, t: Tree)
    requires !c.Top? && !c.up.Top? && t.Fork?
    ensures Inorder(Turned(c, t)) == Inorder(Wrap(c.up, Wrap(c, t)))
  {
    var g, uncle := c.up, Sibling(c.up);
    var parent := Tagged(Straightened(c, t), BLACK);
    RotatedInorder(Wrap(c, t));
    assert Inorder(parent) == Inorder(Wrap(c, t));
    RotatedInorder(if g.InLeft? then Fork(parent, g.node, RED, uncle) else Fork(uncle, g.node, RED, parent));
  }

  // ----- deletion -----

  function Both(c: Path, near: Tree, n: Node, d: int, far: Tree): Tree
    requires !c.Top?
  {
    if c.InLeft? then Fork(near, n, d, far) else Fork(far, n, d, near)
  }

  function Near(c: Path, t: Tree): Tree
    requires !c.Top? && t.Fork?
  {
    if c.InLeft? then t.left else t.right
  }

  function Far(c: Path, t: Tree): Tree
    requires !c.Top? && t.Fork?
  {
    if c.InLeft? then t.right else t.left
  }

  /** Rotate so that the far child comes up, on the side of the hole of `c`. */
  function TurnNear(c: Path, t: Tree): Tree
    requires !c.Top? && t.Fork? && Far(c, t).Fork?
  {
    if c.InLeft? then RotatedLeft(t) else RotatedRight(t)
  }

  function TurnFar(c: Path, t: Tree): Tree
    requires !c.Top? && t.Fork? && Near(c, t).Fork?
  {
    if c.InLeft? then RotatedRight(t) else RotatedLeft(t)
  }

  /** The place of the hole after a red sibling `c` has been turned above the parent. */
  function Lowered(c: Path): Path
    requires !c.Top? && Sibling(c).Fork?
  {
    var o := Sibling(c);
    if c.InLeft? then InLeft(InLeft(c.up, o.node, BLACK, o.right), c.node, RED, o.left)
    else InRight(InRight(c.up, o.left, o.node, BLACK), o.right, c.node, RED)
  }

  /** The sibling after its red near child has been turned outwards if that
      is needed, with the colours the last rotation gives it. */
  function Outward(c: Path): (o: Tree)
    requires !c.Top? && Sibling(c).Fork? && (Red(Near(c, Sibling(c))) || Red(Far(c, Sibling(c))))
    ensures o.Fork? && Far(c, o).Fork?
  {
    var o := Sibling(c);
    if Red(Far(c, o)) then o
    else TurnFar(c, Both(c, Blackened(Near(c, o)), o.node, RED, Far(c, o)))
  }

  /** The parent's subtree before and after the last rotation. */
  function EraseReady(c: Path, t: Tree): (p: Tree)
    requires !c.Top? && Sibling(c).Fork? && (Red(Sibling(c).left) || Red(Sibling(c).right))
    ensures p.Fork? && Far(c, p).Fork?
  {
    var o := Outward(c);
    Both(c, t, c.node, BLACK, Both(c, Near(c, o), o.node, c.tag, Blackened(Far(c, o))))
  }

  function EraseTurned(c: Path, t: Tree): Tree
    requires !c.Top? && Sibling(c).Fork? && (Red(Sibling(c).left) || Red(Sibling(c).right))
  {
    TurnNear(c, EraseReady(c, t))
  }

  /** The loop of `__rb_erase_color`; `t` is the subtree of `node`, one black short. */
  function EraseFix(c: Path, t: Tree): Tree
    decreases Depth(c), if Red(t) then 0 else 1, 0
  {
    if c.Top? || Red(t) then Plug(c, Blackened(t)) else
    var o := Sibling(c);
    if o.Leaf? then Plug(c, t)
    else if Red(o) then EraseSibling(Lowered(c), t)
    else EraseSibling(c, t)
  }

  /** The rest of an iteration, once the sibling is black. */
  function EraseSibling(c: Path, t: Tree): Tree
    requires !c.Top?
    decreases Depth(c.up), if c.tag == RED then 0 else 1, 1
  {
    var o := Sibling(c);
    if o.Leaf? then Plug(c, t)
    else if !Red(o.left) && !Red(o.right) then
      EraseFix(c.up, Both(c, t, c.node, c.tag, Tagged(o, RED)))
    else
      Blackened(Plug(c.up, EraseTurned(c, t)))
  }

  /** Exactly one black is missing on the way into `t`; `t` itself may be red
      under a red child of the repair. */
  predicate OneShort(c: Path, t: Tree) {
    && Rb(Blackened(t)) && (!Red(t) ==> Rb(t))
    && RbPath(c, BlackHeight(t) + 1, false)
  }

  /** The sibling exists, and once a red one is out of the way it is black. */
  lemma {:induction false} SiblingExists(c: Path, t: Tree)
    requires OneShort(c, t) && !c.Top? && !Red(t)
    ensures Sibling(c).Fork?
    ensures Red(Sibling(c)) ==>
      var c' := Lowered(c); OneShort(c', t) && Sibling(c').Fork? && !Red(Sibling(c'))
  {
    BlackHeightNat(t);
    if Red(Sibling(c)) {
      LoweredValid(c, BlackHeight(t) + 1);
    }
  }

  /** From "exactly one black is missing at `t`", the loop restores every rule
      and keeps the order. */
  lemma {:induction false} EraseFixValid(c: Path, t: Tree)
    requires OneShort(c, t)
    ensures RedBlack(EraseFix(c, t))
    ensures Inorder(EraseFix(c, t)) == Inorder(Plug(c, t))
    decreases Depth(c), if Red(t) then 0 else 1, 0
  {
    if c.Top? || Red(t) {
      BlackenedRoot(t);
      PlugSame(c, t, Blackened(t));
      RbPlug(c, Blackened(t));
    } else {
      var o := Sibling(c);
      SiblingExists(c, t);
      if Red(o) {
        LoweredOrder(c);
        EraseSiblingValid(Lowered(c), t);
        PlugInorder(Lowered(c), t);
        PlugInorder(c, t);
      } else {
        EraseSiblingValid(c, t);
      }
    }
  }

  lemma {:induction false} BlackHeightNat(t: Tree)
    requires Rb(t)
    ensures BlackHeight(t) >= 0
  {
    if t.Fork? {
      BlackHeightNat(t.left);
    }
  }

  lemma {:induction false} LoweredValid(c: Path, h: int)
    requires h >= 1 && !c.Top? && Red(Sibling(c)) && RbPath(c, h, false)
    ensures RbPath(Lowered(c), h, false)
    ensures Sibling(Lowered(c)).Fork? && !Red(Sibling(Lowered(c)))
  {
    var o, c' := Sibling(c), Lowered(c);
    BlackHeightNat(o.left);
    assert o == Fork(o.left, o.node, RED, o.right);
    assert c.tag == BLACK && RbPath(c.up, h + 1, false);
    assert RbPath(c'.up, h, true) by {
      assert c'.up.tag == BLACK && c'.up.up == c.up;
    }
  }

  lemma {:induction false} LoweredOrder(c: Path)
    requires !c.Top? && Sibling(c).Fork?
    ensures Before(Lowered(c)) == Before(c) && After(Lowered(c)) == After(c)
  {
    var o, c' := Sibling(c), Lowered(c);
    if c.InLeft? {
      var x, y, z := Inorder(o.left), Inorder(o.right), After(c.up);
      assert [c.node] + x + ([o.node] + y + z) == [c.node] + (x + [o.node] + y) + z;
    } else {
      var x, y, z := Inorder(o.left), Inorder(o.right), Before(c.up);
      assert z + x + [o.node] + y + [c.node] == z + (x + [o.node] + y) + [c.node];
    }
  }

  lemma {:induction false} EraseSiblingValid(c: Path, t: Tree)
    requires !c.Top? && !Red(t) && OneShort(c, t)
    requires Sibling(c).Fork? && !Red(Sibling(c))
    ensures RedBlack(EraseSibling(c, t))
    ensures Inorder(EraseSibling(c, t)) == Inorder(Plug(c, t))
    decreases Depth(c.up), if c.tag == RED then 0 else 1, 1
  {
    var o := Sibling(c);
    if !Red(o.left) && !Red(o.right) {
      RecoloredValid(c, t);
      var t' := Both(c, t, c.node, c.tag, Tagged(o, RED));
      EraseFixValid(c.up, t');
      PlugSame(c.up, t', Wrap(c, t));
    } else {
      TurnedValid(c, t);
      var t' := EraseTurned(c, t);
      RbPlug(c.up, t');
      BlackenedRoot(Plug(c.up, t'));
      PlugSame(c.up, t', Wrap(c, t));
    }
  }

  /** A black sibling without red children gives one black up to the parent. */
  lemma {:induction false} RecoloredValid(c: Path, t: Tree)
    requires !c.Top? && !Red(t) && Rb(t) && RbPath(c, BlackHeight(t) + 1, false)
    requires var o := Sibling(c); o.Fork? && !Red(o) && !Red(o.left) && !Red(o.right)
    ensures var t' := Both(c, t, c.node, c.tag, Tagged(Sibling(c), RED));
      && OneShort(c.up, t')
      && Inorder(t') == Inorder(Wrap(c, t))
  {
    var o, h := Sibling(c), BlackHeight(t);
    assert o.tag == BLACK && BlackHeight(o) == h + 1;
    assert Rb(Tagged(o, RED)) && BlackHeight(Tagged(o, RED)) == h && Inorder(Tagged(o, RED)) == Inorder(o);
    assert RbPath(c.up, h + 1 + c.tag, c.tag == RED);
    Loosen(c.up, h + 1 + c.tag, c.tag == RED);
  }

  lemma {:induction false} Loosen(c: Path, h: int, red: bool)
    requires RbPath(c, h, red)
    ensures RbPath(c, h, false)
  {
  }

  /** The one or two rotations that end the loop fill in the missing black. */
  lemma {:induction false} TurnedValid(c: Path, t: Tree)
    requires !c.Top? && !Red(t) && Rb(t) && RbPath(c, BlackHeight(t) + 1, false)
    requires Sibling(c).Fork? && !Red(Sibling(c)) && (Red(Sibling(c).left) || Red(Sibling(c).right))
    ensures Rb(EraseTurned(c, t)) && RbPath(c.up, BlackHeight(EraseTurned(c, t)), Red(EraseTurned(c, t)))
    ensures Inorder(EraseTurned(c, t)) == Inorder(Wrap(c, t))
  {
    var o', h, t' := Outward(c), BlackHeight(t), EraseTurned(c, t);
    var far := Blackened(Far(c, o'));
    OutwardValid(c, t);
    assert RbPath(c.up, h + 1 + c.tag, c.tag == RED);
    if c.InLeft? {
      assert t' == Fork(Fork(t, c.node, BLACK, o'.left), o'.node, c.tag, far);
    } else {
      assert t' == Fork(far, o'.node, c.tag, Fork(o'.right, c.node, BLACK, t));
    }
    EraseTurnedOrder(c, t);
  }

  lemma {:induction false} EraseTurnedOrder(c: Path, t: Tree)
    requires !c.Top? && Sibling(c).Fork? && (Red(Sibling(c).left) || Red(Sibling(c).right))
    ensures Inorder(EraseTurned(c, t)) == Inorder(Wrap(c, t))
  {
    var o, o' := Sibling(c), Outward(c);
    if !Red(Far(c, o)) {
      RotatedInorder(Both(c, Blackened(Near(c, o)), o.node, RED, Far(c, o)));
    }
    assert Inorder(o') == Inorder(o);
    var o'' := Both(c, Near(c, o'), o'.node, c.tag, Blackened(Far(c, o')));
    assert Inorder(o'') == Inorder(o');
    RotatedInorder(Both(c, t, c.node, BLACK, o''));
  }

  lemma {:induction false} OutwardValid(c: Path, t: Tree)
    requires !c.Top? && !Red(t) && Rb(t) && RbPath(c, BlackHeight(t) + 1, false)
    requires Sibling(c).Fork? && !Red(Sibling(c)) && (Red(Sibling(c).left) || Red(Sibling(c).right))
    ensures var o, h := Outward(c), BlackHeight(t);
      Rb(Near(c, o)) && BlackHeight(Near(c, o)) == h
      && Red(Far(c, o)) && Rb(Blackened(Far(c, o))) && BlackHeight(Blackened(Far(c, o))) == h + 1
  {
    var o, h := Sibling(c), BlackHeight(t);
    assert o.tag == BLACK && BlackHeight(o) == h + 1 && Rb(o);
    assert BlackHeight(o.left) == h == BlackHeight(o.right) && Rb(o.left) && Rb(o.right);
  }

  /** `rb_erase` of the root of `t`: the hole that is left, what moves into it,
      and the colour that has gone. */
  function EraseHole(c: Path, t: Tree): (Path, Tree, int)
    requires t.Fork?
  {
    if t.left.Leaf? then (c, t.right, t.tag)
    else if t.right.Leaf? then (c, t.left, t.tag)
    else (Vacated(c, t), Min(t.right).right, Min(t.right).tag)
  }

  function Erased(c: Path, t: Tree): Tree
    requires t.Fork?
  {
    var (hole, child, color) := EraseHole(c, t);
    if color == BLACK then EraseFix(hole, child) else Plug(hole, child)
  }

  lemma {:induction false} EraseHoleOrder(c: Path, t: Tree)
    requires t.Fork?
    ensures var (hole, child, color) := EraseHole(c, t);
      Inorder(Plug(hole, child)) == Before(c) + Inorder(t.left) + Inorder(t.right) + After(c)
  {
    VacatedOrder(c, t);
    if t.left.Leaf? {
      PlugInorder(c, t.right);
    } else if t.right.Leaf? {
      PlugInorder(c, t.left);
    }
  }

  /** The hole misses exactly the colour that has gone. */
  lemma {:induction false} EraseHoleShort(c: Path, t: Tree)
    requires t.Fork? && RedBlack(Plug(c, t))
    ensures var (hole, child, color) := EraseHole(c, t);
      && (color == BLACK ==> OneShort(hole, child))
      && (color != BLACK ==> RedBlack(Plug(hole, child)))
  {
    RbPlug(c, t);
    var (hole, child, color) := EraseHole(c, t);
    if t.left.Fork? && t.right.Fork? {
      var s := Min(t.right);
      VacatedFacts(c, t);
      RbPlug(c, Fork(t.left, s.node, t.tag, t.right));
      RbPlug(hole, s);
      ReplacedByChild(hole, s, child);
    } else {
      ReplacedByChild(c, t, child);
    }
  }

  /** A node with at most one child, replaced by that child. */
  lemma {:induction false} ReplacedByChild(c: Path, t: Tree, child: Tree)
    requires t.Fork? && Rb(t) && RbPath(c, BlackHeight(t), Red(t))
    requires (t.left.Leaf? && child == t.right) || (t.right.Leaf? && child == t.left)
    ensures t.tag == BLACK ==> OneShort(c, child)
    ensures t.tag != BLACK ==> RedBlack(Plug(c, child))
  {
    BlackHeightNat(child);
    if t.tag == BLACK {
      Loosen(c, BlackHeight(t), Red(t));
    } else {
      if child.Fork? {
        BlackHeightNat(child.left);
      }
      assert child.Leaf?;
      Loosen(c, BlackHeight(t), Red(t));
      RbPlug(c, child);
    }
  }

  /** `rb_erase` keeps every rule and takes exactly one node out of the order. */
  lemma {:induction false} ErasedValid(c: Path, t: Tree)
    requires t.Fork? && RedBlack(Plug(c, t)) && Distinct(Plug(c, t))
    ensures RedBlack(Erased(c, t))
    ensures Inorder(Erased(c, t)) == Without(Inorder(Plug(c, t)), t.node)
  {
    var (hole, child, color) := EraseHole(c, t);
    EraseHoleShort(c, t);
    EraseHoleOrder(c, t);
    WithoutRoot(c, t);
    if color == BLACK {
      EraseFixValid(hole, child);
    }
  }
}
