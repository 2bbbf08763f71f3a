/** AVL trees as values: exact balance factors, the height-free rotation
    arithmetic of avltree.c, and what its upward loop turns a tree into. */
module AvlShape {
  import opened Trees

  function Abs(n: int): int {
    if n < 0 then -n else n
  }

  /** What `_avl_integrity_check` asserts: every stored factor is the right
      height minus the left height, and lies in -1..1. */
  predicate Avl(t: Tree) {
    match t
    case Leaf => true
    case Fork(l, _, d, r) => Avl(l) && Avl(r) && d == Height(r) - Height(l) && -1 <= d <= 1
  }

  /** The same for everything around a hole that is to hold a tree of height `h`. */
  predicate AvlPath(c: Path, h: int) {
    c.Top? || (
      var s := Sibling(c);
      && Avl(s) && -1 <= c.tag <= 1
      && c.tag == (if c.InLeft? then Height(s) - h else h - Height(s))
      && AvlPath(c.up, 1 + Max(h, Height(s))))
  }

  lemma {:induction false} AvlPlug(c: Path, t: Tree)
    ensures Avl(Plug(c, t)) <==> Avl(t) && AvlPath(c, Height(t))
  {
    if !c.Top? {
      AvlPlug(c.up, Wrap(c, t));
    }
  }

  // ----- rotation arithmetic -----

  /** What a rotation computes from balance factors: the new factor of the node
      that comes up, the factor stored in the node that goes down, and the
      change in height. */
  datatype Turn = Turn(childBf: int, parentBf: int, heightDelta: int)

  /** The arithmetic of `_rotate_LL`. */
  function TurnLL(parentBf: int, childBf: int, hasLeft: bool, hasRight: bool): Turn {
    var left0, right0 := if hasLeft then 1 else 0, if hasRight then 1 else 0;
    var left := if childBf < 0 then right0 - childBf else left0;
    var right := if childBf < 0 then right0 else left0 + childBf;
    var tall := if childBf < 0 then left else right;
    var pRight := tall + 1 + parentBf;
    Turn(Max(right, pRight) + 1 - left, pRight - right, Max(left, Max(right, pRight) + 1) - (tall + 1))
  }

  /** The arithmetic of `_rotate_RR`. */
  function TurnRR(parentBf: int, childBf: int, hasLeft: bool, hasRight: bool): Turn {
    var left0, right0 := if hasLeft then 1 else 0, if hasRight then 1 else 0;
    var left := if childBf < 0 then right0 - childBf else left0;
    var right := if childBf < 0 then right0 else left0 + childBf;
    var tall := if childBf < 0 then left else right;
    var pLeft := tall + 1 - parentBf;
    Turn(right - (Max(left, pLeft) + 1), left - pLeft, Max(right, Max(left, pLeft) + 1) - (tall + 1))
  }

  /** The 0/1 stand-ins for unknown heights give exact factors for all heights
      `a`, `b` of the child's subtrees and `p` of the parent's other one; the
      height change is exact just when the parent does not lean away. */
  lemma {:induction false} TurnLLExact(a: int, b: int, p: int,
      parentBf: int, childBf: int, hasLeft: bool, hasRight: bool)
    requires childBf == b - a && parentBf == p - (1 + Max(a, b))
    ensures var t := TurnLL(parentBf, childBf, hasLeft, hasRight);
      && t.parentBf == p - b
      && t.childBf == (1 + Max(b, p)) - a
      && (t.heightDelta == (1 + Max(a, 1 + Max(b, p))) - (1 + Max(1 + Max(a, b), p)) <==> parentBf <= 0)
  {
  }

  lemma {:induction false} TurnRRExact(a: int, b: int, p: int,
      parentBf: int, childBf: int, hasLeft: bool, hasRight: bool)
    requires childBf == b - a && parentBf == (1 + Max(a, b)) - p
    ensures var t := TurnRR(parentBf, childBf, hasLeft, hasRight);
      && t.parentBf == a - p
      && t.childBf == b - (1 + Max(a, p))
      && (t.heightDelta == (1 + Max(b, 1 + Max(a, p))) - (1 + Max(1 + Max(a, b), p)) <==> parentBf >= 0)
  {
  }

  // ----- rotations and balancing on trees -----

  function LLTurn(t: Tree, parentBf: int, childBf: int): Turn
    requires t.Fork? && t.left.Fork?
  {
    TurnLL(parentBf, childBf, t.left.left.Fork?, t.left.right.Fork?)
  }

  function RRTurn(t: Tree, parentBf: int, childBf: int): Turn
    requires t.Fork? && t.right.Fork?
  {
    TurnRR(parentBf, childBf, t.right.left.Fork?, t.right.right.Fork?)
  }

  /** `_rotate_LL`: the factor of the node that comes up is returned, not stored. */
  function RotateLL(t: Tree, parentBf: int, childBf: int): (r: Tree)
    requires t.Fork? && t.left.Fork?
    ensures r.Fork? && r.right.Fork?
  {
    RotatedRight(Tagged(t, LLTurn(t, parentBf, childBf).parentBf))
  }

  function RotateRR(t: Tree, parentBf: int, childBf: int): (r: Tree)
    requires t.Fork? && t.right.Fork?
    ensures r.Fork? && r.left.Fork?
  {
    RotatedLeft(Tagged(t, RRTurn(t, parentBf, childBf).parentBf))
  }

  /** The first half of `_rotate_LR`: the left child is rotated left, if it can be. */
  function BentLR(t: Tree): (r: Tree)
    requires t.Fork? && t.left.Fork?
    ensures r.Fork? && r.left.Fork?
  {
    if t.left.right.Leaf? then t else t.(left := RotateRR(t.left, t.left.tag, t.left.right.tag))
  }

  /** The factor of the new left child, and the change in height it brings. */
  function BendLR(t: Tree): (int, int)
    requires t.Fork? && t.left.Fork?
  {
    if t.left.right.Leaf? then (t.left.tag, 0)
    else
      var turn := RRTurn(t.left, t.left.tag, t.left.right.tag);
      (turn.childBf, turn.heightDelta)
  }

  function RotateLR(t: Tree, parentBf: int): (r: Tree)
    requires t.Fork? && t.left.Fork?
    ensures r.Fork?
  {
    var (childBf, heightDelta) := BendLR(t);
    var bf := parentBf - heightDelta;
    Tagged(RotateLL(BentLR(t), bf, childBf), LLTurn(BentLR(t), bf, childBf).childBf)
  }

  function BentRL(t: Tree): (r: Tree)
    requires t.Fork? && t.right.Fork?
    ensures r.Fork? && r.right.Fork?
  {
    if t.right.left.Leaf? then t else t.(right := RotateLL(t.right, t.right.tag, t.right.left.tag))
  }

  function BendRL(t: Tree): (int, int)
    requires t.Fork? && t.right.Fork?
  {
    if t.right.left.Leaf? then (t.right.tag, 0)
    else
      var turn := LLTurn(t.right, t.right.tag, t.right.left.tag);
      (turn.childBf, turn.heightDelta)
  }

  function RotateRL(t: Tree, parentBf: int): (r: Tree)
    requires t.Fork? && t.right.Fork?
    ensures r.Fork?
  {
    var (childBf, heightDelta) := BendRL(t);
    var bf := parentBf + heightDelta;
    Tagged(RotateRR(BentRL(t), bf, childBf), RRTurn(BentRL(t), bf, childBf).childBf)
  }

  /** `_balance_tree`: the factor of the root of `t` is to change by `bf`. */
  function Balance(t: Tree, bf: int): (r: Tree)
    requires t.Fork?
    ensures r.Fork?
  {
    var diff := t.tag + bf;
    if diff < -1 && t.left.Fork? then
      if t.left.tag <= 0 then Tagged(RotateLL(t, diff, t.left.tag), LLTurn(t, diff, t.left.tag).childBf)
      else RotateLR(t, diff)
    else if diff > 1 && t.right.Fork? then
      if t.right.tag >= 0 then Tagged(RotateRR(t, diff, t.right.tag), RRTurn(t, diff, t.right.tag).childBf)
      else RotateRL(t, diff)
    else Tagged(t, diff)
  }

  lemma {:induction false} BalanceOrder(t: Tree, bf: int)
    requires t.Fork?
    ensures Inorder(Balance(t, bf)) == Inorder(t)
  {
    var diff := t.tag + bf;
    if diff < -1 && t.left.Fork? {
      if t.left.tag <= 0 {
        RotatedInorder(Tagged(t, LLTurn(t, diff, t.left.tag).parentBf));
      } else {
        var (childBf, delta) := BendLR(t);
        if t.left.right.Fork? {
          RotatedInorder(Tagged(t.left, RRTurn(t.left, t.left.tag, t.left.right.tag).parentBf));
        }
        assert Inorder(BentLR(t)) == Inorder(t);
        RotatedInorder(Tagged(BentLR(t), LLTurn(BentLR(t), diff - delta, childBf).parentBf));
      }
    } else if diff > 1 && t.right.Fork? {
      if t.right.tag >= 0 {
        RotatedInorder(Tagged(t, RRTurn(t, diff, t.right.tag).parentBf));
      } else {
        var (childBf, delta) := BendRL(t);
        if t.right.left.Fork? {
          RotatedInorder(Tagged(t.right, LLTurn(t.right, t.right.tag, t.right.left.tag).parentBf));
        }
        assert Inorder(BentRL(t)) == Inorder(t);
        RotatedInorder(Tagged(BentRL(t), RRTurn(BentRL(t), diff + delta, childBf).parentBf));
      }
    }
  }

  /** One step off balance at the root: balancing gives exact factors again.
      The new root's factor tells whether the tree became lower. */
  lemma {:induction false} BalanceExact(t: Tree, bf: int)
    requires t.Fork? && Avl(t.left) && Avl(t.right)
    requires t.tag + bf == Height(t.right) - Height(t.left) && -2 <= t.tag + bf <= 2
    ensures var r, diff := Balance(t, bf), t.tag + bf;
      && Avl(r)
      && (-1 <= diff <= 1 ==> Height(r) == Height(t) && r.tag == diff)
      && (diff == -2 ==> t.left.Fork? && (if t.left.tag == 0 then Height(r) == Height(t) && r.tag == 1
                                          else Height(r) == Height(t) - 1 && r.tag == 0))
      && (diff == 2 ==> t.right.Fork? && (if t.right.tag == 0 then Height(r) == Height(t) && r.tag == -1
                                          else Height(r) == Height(t) - 1 && r.tag == 0))
  {
    var diff := t.tag + bf;
    if diff == -2 {
      if t.left.tag <= 0 {
        LLExact(t, diff);
      } else {
        LRExact(t, diff);
      }
    } else if diff == 2 {
      if t.right.tag >= 0 {
        RRExact(t, diff);
      } else {
        RLExact(t, diff);
      }
    }
  }

  lemma {:induction false} LLExact(t: Tree, diff: int)
    requires t.Fork? && Avl(t.left) && Avl(t.right) && t.left.Fork? && t.left.tag <= 0
    requires diff == -2 == Height(t.right) - Height(t.left)
    ensures var r := Tagged(RotateLL(t, diff, t.left.tag), LLTurn(t, diff, t.left.tag).childBf);
      Avl(r) && if t.left.tag == 0 then Height(r) == Height(t) && r.tag == 1 else Height(r) == Height(t) - 1 && r.tag == 0
  {
    var l := t.left;
    TurnLLExact(Height(l.left), Height(l.right), Height(t.right), diff, l.tag, l.left.Fork?, l.right.Fork?);
  }

  lemma {:induction false} RRExact(t: Tree, diff: int)
    requires t.Fork? && Avl(t.left) && Avl(t.right) && t.right.Fork? && t.right.tag >= 0
    requires diff == 2 == Height(t.right) - Height(t.left)
    ensures var r := Tagged(RotateRR(t, diff, t.right.tag), RRTurn(t, diff, t.right.tag).childBf);
      Avl(r) && if t.right.tag == 0 then Height(r) == Height(t) && r.tag == -1 else Height(r) == Height(t) - 1 && r.tag == 0
  {
    var l := t.right;
    TurnRRExact(Height(l.left), Height(l.right), Height(t.left), diff, l.tag, l.left.Fork?, l.right.Fork?);
  }

  /** The two calls of `_rotate_LR`, and what they compute when all heights are known. */
  lemma {:induction false} LRTurns(t: Tree, diff: int, a: int, b: int, c: int, d: int)
    requires t.Fork? && t.left.Fork? && t.left.right.Fork?
    requires t.left.right.tag == c - b && t.left.tag == 1 + Max(b, c) - a && diff == d - (2 + Max(b, c)) && t.left.tag >= 0
    ensures RotateLR(t, diff) ==
      var l, x := t.left, t.left.right;
      Fork(Fork(l.left, l.node, b - a, x.left), x.node, 1 + Max(c, d) - (1 + Max(a, b)), Fork(x.right, t.node, d - c, t.right))
  {
    var l, x := t.left, t.left.right;
    TurnRRExact(b, c, a, l.tag, x.tag, x.left.Fork?, x.right.Fork?);
    var turn := RRTurn(l, l.tag, x.tag);
    assert BentLR(t).left == Fork(Fork(l.left, l.node, b - a, x.left), x.node, x.tag, x.right);
    TurnLLExact(1 + Max(a, b), c, d, diff - turn.heightDelta, turn.childBf, true, x.right.Fork?);
  }

  lemma {:induction false} RLTurns(t: Tree, diff: int, a: int, b: int, c: int, d: int)
    requires t.Fork? && t.right.Fork? && t.right.left.Fork?
    requires t.right.left.tag == b - c && t.right.tag == a - (1 + Max(b, c)) && diff == (2 + Max(b, c)) - d && t.right.tag <= 0
    ensures RotateRL(t, diff) ==
      var l, x := t.right, t.right.left;
      Fork(Fork(t.left, t.node, c - d, x.left), x.node, 1 + Max(a, b) - (1 + Max(c, d)), Fork(x.right, l.node, a - b, l.right))
  {
    var l, x := t.right, t.right.left;
    TurnLLExact(c, b, a, l.tag, x.tag, x.left.Fork?, x.right.Fork?);
    var turn := LLTurn(l, l.tag, x.tag);
    assert BentRL(t).right == Fork(x.left, x.node, x.tag, Fork(x.right, l.node, a - b, l.right));
    TurnRRExact(c, 1 + Max(b, a), d, diff + turn.heightDelta, turn.childBf, x.left.Fork?, true);
  }

  /** A double rotation makes all factors exact, and the tree lower. */
  lemma {:induction false} LRExact(t: Tree, diff: int)
    requires t.Fork? && Avl(t.left) && Avl(t.right) && t.left.Fork? && t.left.tag == 1
    requires diff == -2 == Height(t.right) - Height(t.left)
    ensures var r := RotateLR(t, diff); Avl(r) && Height(r) == Height(t) - 1 && r.tag == 0
  {
    var l, x := t.left, t.left.right;
    assert x.Fork? && Avl(x) && Avl(l.left);
    LRTurns(t, diff, Height(l.left), Height(x.left), Height(x.right), Height(t.right));
  }

  lemma {:induction false} RLExact(t: Tree, diff: int)
    requires t.Fork? && Avl(t.left) && Avl(t.right) && t.right.Fork? && t.right.tag == -1
    requires diff == 2 == Height(t.right) - Height(t.left)
    ensures var r := RotateRL(t, diff); Avl(r) && Height(r) == Height(t) - 1 && r.tag == 0
  {
    var l, x := t.right, t.right.left;
    assert x.Fork? && Avl(x) && Avl(l.right);
    RLTurns(t, diff, Height(l.right), Height(x.right), Height(x.left), Height(t.left));
  }

  // ----- the upward loop -----

  /** What the loop of `avl_insert` (`grow`) or of `avl_remove` passes on to the
      parent, once the subtree that had factor `old_` has become `t`. */
  function Carry(old_: int, t: Tree, left: bool, grow: bool): int
    requires t.Fork?
  {
    if (t.left.Leaf? && t.right.Leaf?)
       || (if grow then Abs(old_) < Abs(t.tag) else Abs(old_) > Abs(t.tag))
    then if left == grow then -1 else 1
    else 0
  }

  /** The loop; `t` is the subtree of `node`, whose factor is to change by `bf`. */
  function Retrace(c: Path, t: Tree, bf: int, grow: bool): Tree
    requires t.Fork?
    decreases Depth(c)
  {
    var t' := Balance(t, bf);
    if c.Top? then t' else
    var carry := Carry(t.tag, t', c.InLeft?, grow);
    if carry == 0 then Plug(c, t') else Retrace(c.up, Wrap(c, t'), carry, grow)
  }

  /** The side whose height has just changed by one, if `bf` is not 0. */
  function Changed(t: Tree, bf: int, grow: bool): Tree
    requires t.Fork?
  {
    if (bf == -1) == grow then t.left else t.right
  }

  function HeightBefore(t: Tree, bf: int, grow: bool): int
    requires t.Fork?
  {
    var l: int, r: int, d := Height(t.left), Height(t.right), if grow then 1 else -1;
    if (bf == -1) == grow then 1 + Max(l - d, r) else 1 + Max(l, r - d)
  }

  /** At the head of the loop: both subtrees of `node` are exact, its factor is
      off by the pending `bf`, and everything around it is exact for the height
      the subtree of `node` had before. */
  predicate Pending(c: Path, t: Tree, bf: int, grow: bool) {
    && t.Fork? && Avl(t.left) && Avl(t.right) && -1 <= t.tag <= 1
    && t.tag + bf == Height(t.right) - Height(t.left)
    && if bf == 0 then grow && t.left.Leaf? && t.right.Leaf? && AvlPath(c, 0)
       else
         && (bf == -1 || bf == 1) && AvlPath(c, HeightBefore(t, bf, grow))
         && var u := Changed(t, bf, grow);
            grow ==> u.Fork? && (u.tag == 0 ==> u.left.Leaf? && u.right.Leaf?)
  }

  /** Comparing absolute factors tells exactly whether the subtree's height has
      changed: stopping is right, and going on passes the same problem up. */
  lemma {:induction false} CarryExact(c: Path, t: Tree, bf: int, grow: bool)
    requires Pending(c, t, bf, grow) && !c.Top?
    ensures var t' := Balance(t, bf);
      var carry := Carry(t.tag, t', c.InLeft?, grow);
      && Avl(t')
      && (carry == 0 ==> AvlPath(c, Height(t')))
      && (carry != 0 ==> Pending(c.up, Wrap(c, t'), carry, grow))
  {
    BalanceExact(t, bf);
    var t' := Balance(t, bf);
    if bf == 0 {
      PassOn(c, t', 0, grow);
    } else {
      HeightChange(t, bf, grow);
      if Carry(t.tag, t', c.InLeft?, grow) != 0 {
        PassOn(c, t', HeightBefore(t, bf, grow), grow);
      }
    }
  }

  lemma {:induction false} PassOn(c: Path, t: Tree, h: int, grow: bool)
    requires !c.Top? && AvlPath(c, h) && Avl(t) && Height(t) == h + (if grow then 1 else -1)
    requires grow ==> t.Fork? && (t.tag == 0 ==> t.left.Leaf? && t.right.Leaf?)
    ensures Pending(c.up, Wrap(c, t), if c.InLeft? == grow then -1 else 1, grow)
  {
  }

  lemma {:induction false} HeightChange(t: Tree, bf: int, grow: bool)
    requires Pending(Top, t, bf, grow) && bf != 0
    ensures var t' := Balance(t, bf);
      && Height(t') == HeightBefore(t, bf, grow) + (if Carry(t.tag, t', true, grow) == 0 then 0 else if grow then 1 else -1)
  {
    BalanceExact(t, bf);
  }

  /** The upward loop makes every factor exact, although it may stop anywhere. */
  lemma {:induction false} RetraceValid(c: Path, t: Tree, bf: int, grow: bool)
    requires Pending(c, t, bf, grow)
    ensures Avl(Retrace(c, t, bf, grow))
    decreases Depth(c)
  {
    BalanceExact(t, bf);
    if !c.Top? {
      CarryExact(c, t, bf, grow);
      var t' := Balance(t, bf);
      var carry := Carry(t.tag, t', c.InLeft?, grow);
      if carry == 0 {
        AvlPlug(c, t');
      } else {
        RetraceValid(c.up, Wrap(c, t'), carry, grow);
      }
    }
  }

  lemma {:induction false} RetraceOrder(c: Path, t: Tree, bf: int, grow: bool)
    requires t.Fork?
    ensures Inorder(Retrace(c, t, bf, grow)) == Inorder(Plug(c, t))
    decreases Depth(c)
  {
    BalanceOrder(t, bf);
    var t' := Balance(t, bf);
    PlugSame(c, t, t');
    if !c.Top? {
      var carry := Carry(t.tag, t', c.InLeft?, grow);
      if carry != 0 {
        RetraceOrder(c.up, Wrap(c, t'), carry, grow);
      }
    }
  }

  // ----- the whole operations -----

  /** The whole tree after `avl_insert` has put a new leaf into the hole of `c`. */
  function Inserted(c: Path, n: Node): Tree {
    Retrace(c, Fork(Leaf, n, 0, Leaf), 0, true)
  }

  lemma {:induction false} InsertedValid(c: Path, n: Node)
    requires Avl(Plug(c, Leaf)) && Distinct(Plug(c, Leaf)) && n !in PathNodes(c)
    ensures Pending(c, Fork(Leaf, n, 0, Leaf), 0, true) && Avl(Inserted(c, n))
    ensures Inorder(Inserted(c, n)) == Before(c) + [n] + After(c)
    ensures Distinct(Inserted(c, n)) && Nodes(Inserted(c, n)) == PathNodes(c) + {n}
  {
    AvlPlug(c, Leaf);
    var leaf := Fork(Leaf, n, 0, Leaf);
    RetraceValid(c, leaf, 0, true);
    RetraceOrder(c, leaf, 0, true);
    LeafOrder(c, n, 0, Inserted(c, n));
  }

  /** `avl_remove` of the root of `t`: the hole that is left, and what moves into it. */
  function RemoveHole(c: Path, t: Tree): (Path, Tree)
    requires t.Fork?
  {
    if t.right.Leaf? then (c, t.left) else (Vacated(c, t), Min(t.right).right)
  }

  /** The loop of `avl_remove`, started at the node above a hole that has become
      one level lower. */
  function RetraceAbove(c: Path, t: Tree): Tree {
    if c.Top? then t else Retrace(c.up, Wrap(c, t), if c.InLeft? then 1 else -1, false)
  }

  function Removed(c: Path, t: Tree): Tree
    requires t.Fork?
  {
    var (hole, child) := RemoveHole(c, t);
    RetraceAbove(hole, child)
  }

  /** What moves into the hole is one level lower than what the hole expects. */
  lemma {:induction false} RemoveHoleLower(c: Path, t: Tree)
    requires t.Fork? && Avl(Plug(c, t))
    ensures var (hole, u) := RemoveHole(c, t); Avl(u) && AvlPath(hole, Height(u) + 1)
  {
    AvlPlug(c, t);
    if t.right.Fork? {
      var s := Min(t.right);
      VacatedFacts(c, t);
      AvlPlug(c, Fork(t.left, s.node, t.tag, t.right));
      AvlPlug(Vacated(c, t), s);
    }
  }

  lemma {:induction false} RemoveHolePending(c: Path, t: Tree)
    requires t.Fork? && Avl(Plug(c, t))
    ensures var (hole, u) := RemoveHole(c, t);
      && Avl(u) && AvlPath(hole, Height(u) + 1)
      && (!hole.Top? ==> Pending(hole.up, Wrap(hole, u), if hole.InLeft? then 1 else -1, false))
  {
    RemoveHoleLower(c, t);
    var (hole, u) := RemoveHole(c, t);
    if !hole.Top? {
      PassOn(hole, u, Height(u) + 1, false);
    }
  }

  lemma {:induction false} RemoveHoleOrder(c: Path, t: Tree)
    requires t.Fork?
    ensures var (hole, u) := RemoveHole(c, t);
      Inorder(Plug(hole, u)) == Before(c) + Inorder(t.left) + Inorder(t.right) + After(c)
  {
    VacatedOrder(c, t);
    if t.right.Leaf? {
      PlugInorder(c, t.left);
    }
  }

  /** `avl_remove` keeps every factor exact and takes exactly one node out of the order. */
  lemma {:induction false} RemovedValid(c: Path, t: Tree)
    requires t.Fork? && Avl(Plug(c, t)) && Distinct(Plug(c, t))
    ensures Avl(Removed(c, t))
    ensures Inorder(Removed(c, t)) == Without(Inorder(Plug(c, t)), t.node)
    ensures Nodes(Removed(c, t)) == Nodes(Plug(c, t)) - {t.node}
  {
    var (hole, u) := RemoveHole(c, t);
    RemoveHolePending(c, t);
    RemoveHoleOrder(c, t);
    WithoutRoot(c, t);
    if !hole.Top? {
      var bf := if hole.InLeft? then 1 else -1;
      RetraceValid(hole.up, Wrap(hole, u), bf, false);
      RetraceOrder(hole.up, Wrap(hole, u), bf, false);
    }
    WithoutNodes(Plug(c, t), Removed(c, t), t.node);
  }
}
