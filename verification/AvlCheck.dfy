/** `_avl_integrity_check` of avltree_debug.c. */
module AvlCheck {
  import opened Trees
  import opened Links
  import opened AvlShape
  import A = AvlTree

  /** The recursive check passes without a failed assertion if and only if every
      factor below `p` is exact and in range, and then returns the height. */
  method IntegrityCheck(p: Node?, tree: Root, ghost S: set<Node>, ghost c: Path, ghost t: Tree)
      returns (passes: bool, depth: nat)
    requires At(Snap(S), c, t, tree.node) && p == RootOf(t)
    ensures passes <==> Avl(t)
    ensures passes ==> depth == Height(t)
    decreases t
  {
    if p == null {
      return true, 0;
    }
    Look(Snap(S), c, t, tree.node);
    ghost var cl, cr := InLeft(c, t.node, t.tag, t.right), InRight(c, t.left, t.node, t.tag);
    AtUp(Snap(S), cl, t.left, tree.node);
    AtUp(Snap(S), cr, t.right, tree.node);
    var leftPasses, leftDepth := IntegrityCheck(p.left, tree, S, cl, t.left);
    if !leftPasses {
      return false, 0;
    }
    var rightPasses, rightDepth := IntegrityCheck(p.right, tree, S, cr, t.right);
    if !rightPasses {
      return false, 0;
    }
    var bf := p.tag;
    if bf != (rightDepth as int) - (leftDepth as int) {
      return false, 0;
    }
    if bf > 1 || bf < -1 {
      return false, 0;
    }
    return true, (if leftDepth > rightDepth then leftDepth else rightDepth) + 1;
  }

  /** On the trees that insertion and removal leave behind it always passes. */
  method CheckValid(tree: Root) returns (passes: bool, depth: nat)
    requires A.Valid(tree)
    ensures passes && depth == Height(tree.tree)
  {
    passes, depth := IntegrityCheck(tree.node, tree, Nodes(tree.tree), Top, tree.tree);
  }
}
