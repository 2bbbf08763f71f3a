/** avltree.c on linked nodes. */
module AvlTree {
  import opened Trees
  import opened Links
  import opened AvlShape
  import opened Search
  import opened Threads

  /** `avl_set_bf`; the packed word has room for -1..1 only. */
  method SetBf(n: Node, bf: int, root: Root, ghost S: set<Node>, ghost c: Path, ghost x: Node?, ghost t: Tree)
    requires -1 <= bf <= 1
    requires t.Fork? && n == t.node && Loose(Snap(S), c, x, t, root.node)
    modifies n`tag
    ensures Loose(Snap(S), c, x, Tagged(t, bf), root.node)
  {
    SetTag(n, bf, root, S, c, x, t);
  }

  /** `_rotate_LL`. */
  method RotateLLAt(parent: Node, parentBf: int, childBf: int, root: Root,
      ghost S: set<Node>, ghost c: Path, ghost x: Node?, ghost t: Tree)
      returns (child: Node, childBf': int, heightDelta: int)
    requires t.Fork? && t.left.Fork? && parent == t.node && Loose(Snap(S), c, x, t, root.node)
    requires -1 <= LLTurn(t, parentBf, childBf).parentBf <= 1
    modifies S`left, S`right, S`parent, S`tag
    ensures Loose(Snap(S), c, x, RotateLL(t, parentBf, childBf), root.node) && child == t.left.node
    ensures childBf' == LLTurn(t, parentBf, childBf).childBf && heightDelta == LLTurn(t, parentBf, childBf).heightDelta
  {
    LeftCell(Snap(S), c, x, t, root.node);
    child := parent.left;
    var left, right := if child.left != null then 1 else 0, if child.right != null then 1 else 0;
    var pRight;
    if childBf < 0 {
      left := right - childBf;
      pRight := left + 1 + parentBf;
      heightDelta := Max(left, Max(right, pRight) + 1) - (left + 1);
    } else {
      right := left + childBf;
      pRight := right + 1 + parentBf;
      heightDelta := Max(left, Max(right, pRight) + 1) - (right + 1);
    }
    childBf' := Max(right, pRight) + 1 - left;
    SetBf(parent, pRight - right, root, S, c, x, t);
    child := SpinRight(parent, root, S, c, x, Tagged(t, pRight - right));
  }

  /** `_rotate_RR`. */
  method RotateRRAt(parent: Node, parentBf: int, childBf: int, root: Root,
      ghost S: set<Node>, ghost c: Path, ghost x: Node?, ghost t: Tree)
      returns (child: Node, childBf': int, heightDelta: int)
    requires t.Fork? && t.right.Fork? && parent == t.node && Loose(Snap(S), c, x, t, root.node)
    requires -1 <= RRTurn(t, parentBf, childBf).parentBf <= 1
    modifies S`left, S`right, S`parent, S`tag
    ensures Loose(Snap(S), c, x, RotateRR(t, parentBf, childBf), root.node) && child == t.right.node
    ensures childBf' == RRTurn(t, parentBf, childBf).childBf && heightDelta == RRTurn(t, parentBf, childBf).heightDelta
  {
    RightCell(Snap(S), c, x, t, root.node);
    child := parent.right;
    var left, right := if child.left != null then 1 else 0, if child.right != null then 1 else 0;
    var pLeft;
    if childBf < 0 {
      left := right - childBf;
      pLeft := left + 1 - parentBf;
      heightDelta := Max(right, Max(left, pLeft) + 1) - (left + 1);
    } else {
      right := left + childBf;
      pLeft := right + 1 - parentBf;
      heightDelta := Max(right, Max(left, pLeft) + 1) - (right + 1);
    }
    childBf' := right - (Max(left, pLeft) + 1);
    SetBf(parent, left - pLeft, root, S, c, x, t);
    child := SpinLeft(parent, root, S, c, x, Tagged(t, left - pLeft));
  }

  /** A rotation after which the returned factor is stored. */
  method RotateLLStore(parent: Node, parentBf: int, childBf: int, root: Root,
      ghost S: set<Node>, ghost c: Path, ghost t: Tree)
      returns (ret: Node)
    requires t.Fork? && t.left.Fork? && parent == t.node && At(Snap(S), c, t, root.node)
    requires var turn := LLTurn(t, parentBf, childBf); -1 <= turn.parentBf <= 1 && -1 <= turn.childBf <= 1
    modifies S`left, S`right, S`parent, S`tag
    ensures Loose(Snap(S), c, parent, Tagged(RotateLL(t, parentBf, childBf), LLTurn(t, parentBf, childBf).childBf), root.node)
    ensures ret == t.left.node
  {
    var childBf', heightDelta;
    ret, childBf', heightDelta := RotateLLAt(parent, parentBf, childBf, root, S, c, parent, t);
    SetBf(ret, childBf', root, S, c, parent, RotateLL(t, parentBf, childBf));
  }

  /** The first half of `_rotate_LR`. */
  method BendLRAt(parent: Node, root: Root, ghost S: set<Node>, ghost c: Path, ghost t: Tree)
      returns (childBf: int, heightDelta: int)
    requires t.Fork? && t.left.Fork? && parent == t.node && At(Snap(S), c, t, root.node)
    requires t.left.right.Fork? ==> -1 <= RRTurn(t.left, t.left.tag, t.left.right.tag).parentBf <= 1
    modifies S`left, S`right, S`parent, S`tag
    ensures At(Snap(S), c, BentLR(t), root.node) && (childBf, heightDelta) == BendLR(t)
  {
    ghost var c', l := InLeft(c, t.node, t.tag, t.right), t.left;
    Look(Snap(S), c, t, root.node);
    AtUp(Snap(S), c', l, root.node);
    Look(Snap(S), c', l, root.node);
    var child := parent.left;
    heightDelta := 0;
    if child.right != null {
      RightCell(Snap(S), c', child, l, root.node);
      childBf := child.right.tag;
      var r;
      r, childBf, heightDelta := RotateRRAt(child, child.tag, childBf, root, S, c', child, l);
      ghost var l' := RotateRR(l, l.tag, l.right.tag);
      LinkLeft(parent, r, root, S, c', child, l');
      AtUp(Snap(S), c', l', root.node);
    } else {
      childBf := child.tag;
    }
  }

  /** Every factor that `_rotate_LR` stores fits. */
  predicate LRInRange(t: Tree, parentBf: int)
    requires t.Fork? && t.left.Fork?
  {
    && (t.left.right.Fork? ==> -1 <= RRTurn(t.left, t.left.tag, t.left.right.tag).parentBf <= 1)
    && var (childBf, heightDelta) := BendLR(t);
       var turn := LLTurn(BentLR(t), parentBf - heightDelta, childBf);
       -1 <= turn.parentBf <= 1 && -1 <= turn.childBf <= 1
  }

  /** `_rotate_LR`. */
  method RotateLRAt(parent: Node, parentBf: int, root: Root, ghost S: set<Node>, ghost c: Path, ghost t: Tree)
      returns (ret: Node)
    requires t.Fork? && t.left.Fork? && parent == t.node && At(Snap(S), c, t, root.node)
    requires LRInRange(t, parentBf)
    modifies S`left, S`right, S`parent, S`tag
    ensures Loose(Snap(S), c, parent, RotateLR(t, parentBf), root.node) && ret == RotateLR(t, parentBf).node
  {
    var childBf, heightDelta := BendLRAt(parent, root, S, c, t);
    var bf := parentBf - heightDelta;
    ghost var bent, turn := BentLR(t), LLTurn(BentLR(t), bf, childBf);
    assert RotateLR(t, parentBf) == Tagged(RotateLL(bent, bf, childBf), turn.childBf);
    ret := RotateLLStore(parent, bf, childBf, root, S, c, bent);
  }

  lemma {:induction false} LRStores(t: Tree, parentBf: int)
    requires t.Fork? && t.left.Fork? && Avl(RotateLR(t, parentBf))
    ensures LRInRange(t, parentBf)
  {
  }

  /** A rotation after which the returned factor is stored. */
  method RotateRRStore(parent: Node, parentBf: int, childBf: int, root: Root,
      ghost S: set<Node>, ghost c: Path, ghost t: Tree)
      returns (ret: Node)
    requires t.Fork? && t.right.Fork? && parent == t.node && At(Snap(S), c, t, root.node)
    requires var turn := RRTurn(t, parentBf, childBf); -1 <= turn.parentBf <= 1 && -1 <= turn.childBf <= 1
    modifies S`left, S`right, S`parent, S`tag
    ensures Loose(Snap(S), c, parent, Tagged(RotateRR(t, parentBf, childBf), RRTurn(t, parentBf, childBf).childBf), root.node)
    ensures ret == t.right.node
  {
    var childBf', heightDelta;
    ret, childBf', heightDelta := RotateRRAt(parent, parentBf, childBf, root, S, c, parent, t);
    SetBf(ret, childBf', root, S, c, parent, RotateRR(t, parentBf, childBf));
  }

  /** The first half of `_rotate_RL`. */
  method BendRLAt(parent: Node, root: Root, ghost S: set<Node>, ghost c: Path, ghost t: Tree)
      returns (childBf: int, heightDelta: int)
    requires t.Fork? && t.right.Fork? && parent == t.node && At(Snap(S), c, t, root.node)
    requires t.right.left.Fork? ==> -1 <= LLTurn(t.right, t.right.tag, t.right.left.tag).parentBf <= 1
    modifies S`left, S`right, S`parent, S`tag
    ensures At(Snap(S), c, BentRL(t), root.node) && (childBf, heightDelta) == BendRL(t)
  {
    ghost var c', l := InRight(c, t.left, t.node, t.tag), t.right;
    Look(Snap(S), c, t, root.node);
    AtUp(Snap(S), c', l, root.node);
    Look(Snap(S), c', l, root.node);
    var child := parent.right;
    heightDelta := 0;
    if child.left != null {
      LeftCell(Snap(S), c', child, l, root.node);
      childBf := child.left.tag;
      var r;
      r, childBf, heightDelta := RotateLLAt(child, child.tag, childBf, root, S, c', child, l);
      ghost var l' := RotateLL(l, l.tag, l.left.tag);
      LinkRight(parent, r, root, S, c', child, l');
      AtUp(Snap(S), c', l', root.node);
    } else {
      childBf := child.tag;
    }
  }

  /** Every factor that `_rotate_RL` stores fits. */
  predicate RLInRange(t: Tree, parentBf: int)
    requires t.Fork? && t.right.Fork?
  {
    && (t.right.left.Fork? ==> -1 <= LLTurn(t.right, t.right.tag, t.right.left.tag).parentBf <= 1)
    && var (childBf, heightDelta) := BendRL(t);
       var turn := RRTurn(BentRL(t), parentBf + heightDelta, childBf);
       -1 <= turn.parentBf <= 1 && -1 <= turn.childBf <= 1
  }

  /** `_rotate_RL`. */
  method RotateRLAt(parent: Node, parentBf: int, root: Root, ghost S: set<Node>, ghost c: Path, ghost t: Tree)
      returns (ret: Node)
    requires t.Fork? && t.right.Fork? && parent == t.node && At(Snap(S), c, t, root.node)
    requires RLInRange(t, parentBf)
    modifies S`left, S`right, S`parent, S`tag
    ensures Loose(Snap(S), c, parent, RotateRL(t, parentBf), root.node) && ret == RotateRL(t, parentBf).node
  {
    var childBf, heightDelta := BendRLAt(parent, root, S, c, t);
    var bf := parentBf + heightDelta;
    ghost var bent, turn := BentRL(t), RRTurn(BentRL(t), bf, childBf);
    assert RotateRL(t, parentBf) == Tagged(RotateRR(bent, bf, childBf), turn.childBf);
    ret := RotateRRStore(parent, bf, childBf, root, S, c, bent);
  }

  lemma {:induction false} RLStores(t: Tree, parentBf: int)
    requires t.Fork? && t.right.Fork? && Avl(RotateRL(t, parentBf))
    ensures RLInRange(t, parentBf)
  {
  }

  /** `_balance_tree`. */
  method BalanceAt(node: Node, bf: int, root: Root, ghost S: set<Node>, ghost c: Path, ghost t: Tree)
      returns (ret: Node)
    requires t.Fork? && node == t.node && At(Snap(S), c, t, root.node)
    requires Avl(Balance(t, bf)) && -2 <= t.tag + bf <= 2
    requires (t.tag + bf == -2 ==> t.left.Fork?) && (t.tag + bf == 2 ==> t.right.Fork?)
    modifies S`left, S`right, S`parent, S`tag
    ensures Loose(Snap(S), c, node, Balance(t, bf), root.node) && ret == Balance(t, bf).node
  {
    Look(Snap(S), c, t, root.node);
    if t.left.Fork? {
      LeftTag(Snap(S), c, t, root.node);
    }
    if t.right.Fork? {
      RightTag(Snap(S), c, t, root.node);
    }
    var diff := node.tag + bf;
    if diff < -1 && node.left != null {
      if node.left.tag <= 0 {
        ret := RotateLLStore(node, diff, node.left.tag, root, S, c, t);
      } else {
        LRStores(t, diff);
        ret := RotateLRAt(node, diff, root, S, c, t);
      }
    } else if diff > 1 && node.right != null {
      if node.right.tag >= 0 {
        ret := RotateRRStore(node, diff, node.right.tag, root, S, c, t);
      } else {
        RLStores(t, diff);
        ret := RotateRLAt(node, diff, root, S, c, t);
      }
    } else {
      SetBf(node, node.tag + bf, root, S, c, node, t);
      ret := node;
    }
  }

  lemma {:induction false} LeftTag(m: Image, c: Path, t: Tree, root: Node?)
    requires t.Fork? && t.left.Fork? && At(m, c, t, root)
    ensures t.left.node in m && m[t.left.node].tag == t.left.tag
  {
    assert Sub(m, t.left, t.node);
  }

  lemma {:induction false} RightTag(m: Image, c: Path, t: Tree, root: Node?)
    requires t.Fork? && t.right.Fork? && At(m, c, t, root)
    ensures t.right.node in m && m[t.right.node].tag == t.right.tag
  {
    assert Sub(m, t.right, t.node);
  }

  /** One iteration below a parent: balance, relink, and work out the parent's `bf`. */
  method RetraceStep(node0: Node, p: Node, bf0: int, grow: bool, root: Root,
      ghost S: set<Node>, ghost c: Path, ghost t: Tree)
      returns (bf: int)
    requires Pending(c, t, bf0, grow) && !c.Top?
    requires At(Snap(S), c, t, root.node) && node0 == t.node && p == c.node
    modifies S`left, S`right, S`parent, S`tag
    ensures At(Snap(S), c, Balance(t, bf0), root.node)
    ensures bf == Carry(t.tag, Balance(t, bf0), c.InLeft?, grow)
  {
    ghost var t' := Balance(t, bf0);
    BalanceExact(t, bf0);
    Look(Snap(S), c, t, root.node);
    var bfOld, node := node0.tag, node0;
    if p.right == node {
      node := BalanceAt(node, bf0, root, S, c, t);
      LinkRight(p, node, root, S, c, node0, t');
    } else {
      node := BalanceAt(node, bf0, root, S, c, t);
      LinkLeft(p, node, root, S, c, node0, t');
    }
    Look(Snap(S), c, t', root.node);
    if node.left == null && node.right == null {
      bf := if (p.left == node) == grow then -1 else 1;
    } else {
      bf := 0;
      if (if grow then Abs(bfOld) < Abs(node.tag) else Abs(bfOld) > Abs(node.tag)) {
        bf := if (p.left == node) == grow then -1 else 1;
      }
    }
  }

  /** The last iteration, at the root. */
  method RetraceTop(bf: int, grow: bool, root: Root, ghost S: set<Node>, ghost t: Tree)
    requires Pending(Top, t, bf, grow) && At(Snap(S), Top, t, root.node)
    modifies root`node, S`left, S`right, S`parent, S`tag
    ensures At(Snap(S), Top, Balance(t, bf), root.node)
  {
    BalanceExact(t, bf);
    Look(Snap(S), Top, t, root.node);
    root.node := BalanceAt(root.node, bf, root, S, Top, t);
  }

  /** What holds at the head of the loop. */
  ghost predicate Climbing(m: Image, c: Path, t: Tree, node: Node, bf: int, grow: bool, root: Node?) {
    Pending(c, t, bf, grow) && At(m, c, t, root) && node == t.node
  }

  /** The loop that `avl_insert` (`grow`) and `avl_remove` end with. */
  method RetraceAt(first: Node, bf0: int, grow: bool, root: Root, ghost S: set<Node>, ghost c0: Path, ghost t0: Tree)
    requires Climbing(Snap(S), c0, t0, first, bf0, grow, root.node)
    modifies root`node, S`left, S`right, S`parent, S`tag
    ensures At(Snap(S), Top, Retrace(c0, t0, bf0, grow), root.node)
  {
    var node: Node?, bf := first, bf0;
    ghost var c, t := c0, t0;
    while node != null
      invariant node != null && Climbing(Snap(S), c, t, node, bf, grow, root.node)
      invariant Retrace(c, t, bf, grow) == Retrace(c0, t0, bf0, grow)
      decreases Depth(c)
    {
      Look(Snap(S), c, t, root.node);
      ghost var t' := Balance(t, bf);
      var p := node.parent;
      if p != null {
        CarryExact(c, t, bf, grow);
        bf := RetraceStep(node, p, bf, grow, root, S, c, t);
      } else if node == root.node {
        RetraceTop(bf, grow, root, S, t);
        break;
      }
      if bf == 0 {
        AtPlug(Snap(S), c, t', root.node);
        break;
      }
      AtUp(Snap(S), c, t', root.node);
      node := p;
      c, t := c.up, Wrap(c, t');
    }
  }

  // ----- the whole operations -----

  ghost predicate Valid(tree: Root)
    reads tree, Nodes(tree.tree)`left, Nodes(tree.tree)`right, Nodes(tree.tree)`parent, Nodes(tree.tree)`tag
    reads Elements(Inorder(tree.tree))`prev, Elements(Inorder(tree.tree))`next
  {
    Holds(tree) && Avl(tree.tree) && Threaded(Inorder(tree.tree))
  }

  /** `avl_search`, with a count of its rounds. */
  method AvlSearch(tree: Root, query: Node, cmp: Compare) returns (p: Node?, ghost rounds: nat)
    requires Holds(tree) && Order(cmp)
    ensures p == RootOf(Locate(cmp, query.key, Top, tree.tree).1)
    ensures rounds == Depth(Locate(cmp, query.key, Top, tree.tree).0) + (if p == null then 0 else 1)
    ensures rounds <= Height(tree.tree)
  {
    ghost var S := Nodes(tree.tree);
    ghost var c, t := Top, tree.tree;
    p, rounds := tree.node, 0;
    while p != null
      invariant At(Snap(S), c, t, tree.node) && p == RootOf(t)
      invariant Locate(cmp, query.key, c, t) == Locate(cmp, query.key, Top, tree.tree)
      invariant rounds == Depth(c) && rounds + Height(t) <= Height(tree.tree)
      decreases t
    {
      rounds := rounds + 1;
      Look(Snap(S), c, t, tree.node);
      var r := cmp(p.key, query.key);
      if r > 0 {
        p := p.left;
        c, t := InLeft(c, t.node, t.tag, t.right), t.left;
      } else if r < 0 {
        p := p.right;
        c, t := InRight(c, t.left, t.node, t.tag), t.right;
      } else {
        return;
      }
      AtUp(Snap(S), c, t, tree.node);
    }
  }

  /** The descent of `avl_insert`: the node with the same key, or the last node visited. */
  method Descend(tree: Root, node: Node, cmp: Compare, ghost S: set<Node>) returns (cur: Node?, p: Node?)
    requires Holds(tree) && Order(cmp) && S == Nodes(tree.tree)
    ensures var (c, t) := Locate(cmp, node.key, Top, tree.tree);
      At(Snap(S), c, t, tree.node) && cur == RootOf(t) && (cur == null ==> p == Above(c))
    ensures Snap(S) == old(Snap(S))
  {
    ghost var c, t := Top, tree.tree;
    cur, p := tree.node, null;
    while cur != null
      invariant At(Snap(S), c, t, tree.node) && cur == RootOf(t) && p == Above(c)
      invariant Locate(cmp, node.key, c, t) == Locate(cmp, node.key, Top, tree.tree)
      decreases t
    {
      Look(Snap(S), c, t, tree.node);
      var r := cmp(cur.key, node.key);
      p := cur;
      if r > 0 {
        cur := cur.left;
        c, t := InLeft(c, t.node, t.tag, t.right), t.left;
      } else if r < 0 {
        cur := cur.right;
        c, t := InRight(c, t.left, t.node, t.tag), t.right;
      } else {
        return;
      }
      AtUp(Snap(S), c, t, tree.node);
    }
  }

  /** The new leaf, linked below `p` and into the list. */
  method LinkLeaf(node: Node, p: Node?, tree: Root, cmp: Compare, ghost S: set<Node>, ghost c: Path)
    requires At(Snap(S), c, Leaf, tree.node) && node in S && node !in PathNodes(c) && p == Above(c)
    requires SideFits(cmp, node.key, c)
    modifies tree`node, S`left, S`right, node`parent, node`tag
    ensures At(Snap(S), c, Fork(Leaf, node, 0, Leaf), tree.node)
  {
    ghost var m := Snap(S);
    Look(m, c, Leaf, tree.node);
    node.parent, node.tag := p, 0;
    node.left, node.right := null, null;
    if p != null {
      if cmp(p.key, node.key) > 0 {
        p.left := node;
      } else {
        p.right := node;
      }
    } else {
      tree.node := node;
    }
    LeafLinked(m, Snap(S), c, node, 0, old(tree.node), tree.node);
  }

  method ThreadLeaf(node: Node, p: Node?, cmp: Compare, ghost S: set<Node>, ghost c: Path)
    requires NoRepeat(Before(c) + After(c)) && node !in Before(c) + After(c) && p == Above(c)
    requires SideFits(cmp, node.key, c) && Threaded(Before(c) + After(c))
    modifies Elements(Before(c) + After(c) + [node])`prev, Elements(Before(c) + After(c) + [node])`next
    ensures Threaded(Before(c) + [node] + After(c))
    ensures Snap(S) == old(Snap(S))
  {
    node.prev, node.next := null, null;
    if p != null {
      if cmp(p.key, node.key) > 0 {
        ThreadBefore(node, p, Before(c), After(c));
      } else {
        ThreadAfter(node, p, Before(c), After(c));
      }
    }
  }

  method InsertAt(node: Node, p: Node?, tree: Root, cmp: Compare, ghost S: set<Node>, ghost c: Path)
    requires At(Snap(S), c, Leaf, tree.node) && PathNodes(c) == S && node !in S && p == Above(c)
    requires SideFits(cmp, node.key, c) && Pending(c, Fork(Leaf, node, 0, Leaf), 0, true)
    modifies tree`node, (S + {node})`left, (S + {node})`right, (S + {node})`parent, (S + {node})`tag
    ensures At(Snap(S + {node}), Top, Inserted(c, node), tree.node)
  {
    ghost var S' := S + {node};
    AlongFrame(Snap(S), Snap(S'), c, null, tree.node);
    LinkLeaf(node, p, tree, cmp, S', c);
    RetraceAt(node, 0, true, tree, S', c, Fork(Leaf, node, 0, Leaf));
  }

  /** Linking and balancing leave the list alone. */
  method InsertThreaded(node: Node, p: Node?, tree: Root, cmp: Compare,
      ghost S: set<Node>, ghost c: Path, ghost s: seq<Node>)
    requires At(Snap(S), c, Leaf, tree.node) && PathNodes(c) == S && node !in S && p == Above(c)
    requires SideFits(cmp, node.key, c) && Pending(c, Fork(Leaf, node, 0, Leaf), 0, true)
    requires Threaded(s)
    modifies tree`node, (S + {node})`left, (S + {node})`right, (S + {node})`parent, (S + {node})`tag
    ensures At(Snap(S + {node}), Top, Inserted(c, node), tree.node)
    ensures Threaded(s)
  {
    InsertAt(node, p, tree, cmp, S, c);
  }

  /** Declare what the links now show. */
  method Install(tree: Root, ghost t: Tree, ghost S: set<Node>, ghost s: seq<Node>)
    requires At(Snap(S), Top, t, tree.node) && Nodes(t) <= S && Avl(t) && s == Inorder(t) && Threaded(s)
    modifies tree`tree
    ensures Valid(tree) && tree.tree == t
  {
    AtFrame(Snap(S), Snap(Nodes(t)), t, tree.node);
    tree.tree := t;
  }

  /** The new node enters the list and the tree. */
  method InsertBoth(node: Node, p: Node?, tree: Root, cmp: Compare, ghost S: set<Node>, ghost c: Path)
    requires At(Snap(S), c, Leaf, tree.node) && PathNodes(c) == S == Elements(Before(c) + After(c)) && node !in S
    requires p == Above(c) && SideFits(cmp, node.key, c) && Pending(c, Fork(Leaf, node, 0, Leaf), 0, true)
    requires NoRepeat(Before(c) + After(c)) && Threaded(Before(c) + After(c))
    modifies tree`node, (S + {node})`left, (S + {node})`right, (S + {node})`parent, (S + {node})`tag
    modifies (S + {node})`prev, (S + {node})`next
    ensures At(Snap(S + {node}), Top, Inserted(c, node), tree.node)
    ensures Threaded(Before(c) + [node] + After(c))
  {
    assert node !in Elements(Before(c) + After(c));
    ThreadLeaf(node, p, cmp, S, c);
    InsertThreaded(node, p, tree, cmp, S, c, Before(c) + [node] + After(c));
  }

  /** `avl_insert` once the place is known. */
  method InsertNew(node: Node, p: Node?, tree: Root, cmp: Compare, ghost c: Path)
    requires tree.tree == Plug(c, Leaf) && Avl(tree.tree) && At(Snap(Nodes(tree.tree)), c, Leaf, tree.node)
    requires Threaded(Inorder(tree.tree)) && Distinct(tree.tree)
    requires node !in PathNodes(c) && p == Above(c) && SideFits(cmp, node.key, c)
    modifies tree, Nodes(tree.tree)`left, Nodes(tree.tree)`right, Nodes(tree.tree)`parent, Nodes(tree.tree)`tag
    modifies Nodes(tree.tree)`prev, Nodes(tree.tree)`next
    modifies node`left, node`right, node`parent, node`tag, node`prev, node`next
    ensures Valid(tree) && tree.tree == Inserted(c, node)
    ensures Inorder(tree.tree) == Before(c) + [node] + After(c)
    ensures Nodes(tree.tree) == old(Nodes(tree.tree)) + {node}
  {
    HoleFacts(c);
    InsertedValid(c, node);
    ghost var S := Nodes(tree.tree);
    InsertBoth(node, p, tree, cmp, S, c);
    Install(tree, Inserted(c, node), S + {node}, Before(c) + [node] + After(c));
  }

  /** `avl_insert`. */
  method AvlInsert(tree: Root, node: Node, cmp: Compare) returns (r: Node)
    requires Valid(tree) && Order(cmp) && Sorted(cmp, Inorder(tree.tree))
    modifies tree, Nodes(tree.tree)`left, Nodes(tree.tree)`right, Nodes(tree.tree)`parent, Nodes(tree.tree)`tag
    modifies Nodes(tree.tree)`prev, Nodes(tree.tree)`next
    modifies node`left, node`right, node`parent, node`tag, node`prev, node`next
    ensures Valid(tree)
    ensures r in old(Inorder(tree.tree)) ==>
      && cmp(r.key, node.key) == 0
      && unchanged(tree) && unchanged(node) && Snap(Nodes(tree.tree)) == old(Snap(Nodes(tree.tree)))
    ensures r !in old(Inorder(tree.tree)) ==>
      && r == node && Admits(cmp, old(Inorder(tree.tree)), node, Inorder(tree.tree))
      && Nodes(tree.tree) == old(Nodes(tree.tree)) + {node}
  {
    ghost var T := tree.tree;
    ghost var (c, u) := Locate(cmp, node.key, Top, T);
    SearchEnds(cmp, T, node);
    HoleForNew(cmp, T, node);
    assert allocated(Nodes(T)) && allocated(Elements(Inorder(T)));
    var cur, p := Descend(tree, node, cmp, Nodes(T));
    assert Threaded(Inorder(T));
    if cur != null {
      return cur;
    }
    InsertNew(node, p, tree, cmp, c);
    r := node;
  }

  /** `avl_first` of a subtree. */
  method First(top: Node?, root: Root, ghost S: set<Node>, ghost c: Path, ghost t: Tree) returns (p: Node?)
    requires At(Snap(S), c, t, root.node) && top == RootOf(t)
    ensures p == if t.Leaf? then null else Min(t).node
    ensures t.Fork? ==> At(Snap(S), MinPath(c, t), Min(t), root.node)
  {
    var node := top;
    p := null;
    ghost var q, u := c, t;
    while node != null
      invariant At(Snap(S), q, u, root.node) && node == RootOf(u)
      invariant u.Fork? ==> t.Fork? && MinPath(q, u) == MinPath(c, t) && Min(u) == Min(t)
      invariant u.Leaf? ==> if t.Leaf? then p == null
        else p == Min(t).node && At(Snap(S), MinPath(c, t), Min(t), root.node)
      decreases u
    {
      Look(Snap(S), q, u, root.node);
      p := node;
      node := node.left;
      q, u := InLeft(q, u.node, u.tag, u.right), u.left;
      AtUp(Snap(S), q, u, root.node);
    }
  }

  /** The first half of `avl_remove`: the node is unlinked; where rebalancing
      starts, and with which change. */
  method Unlink(node: Node, tree: Root, ghost S: set<Node>, ghost c: Path, ghost t: Tree) returns (cur: Node?, bf: int)
    requires t.Fork? && node == t.node && At(Snap(S), c, t, tree.node)
    modifies tree`node, S`left, S`right, S`parent, S`tag
    ensures var (hole, u) := RemoveHole(c, t);
      && At(Snap(S), hole, u, tree.node) && cur == Above(hole)
      && (hole.InLeft? ==> bf == 1) && (hole.InRight? ==> bf == -1)
  {
    Look(Snap(S), c, t, tree.node);
    ghost var b := InRight(c, t.left, t.node, t.tag);
    AtUp(Snap(S), b, t.right, tree.node);
    var next := First(node.right, tree, S, b, t.right);
    if next != null {
      cur, bf := UnlinkInner(node, next, tree, S, c, t);
    } else {
      var p := node.parent;
      bf := if p == null then 0 else if p.left == node then 1 else -1;
      Lift(node, node.left, tree, S, c, t, t.left);
      cur := p;
    }
  }

  /** The case with a right subtree: its least node takes the place of `node`. */
  method UnlinkInner(node: Node, next: Node, tree: Root, ghost S: set<Node>, ghost c: Path, ghost t: Tree)
      returns (cur: Node?, bf: int)
    requires t.Fork? && t.right.Fork? && node == t.node && At(Snap(S), c, t, tree.node)
    requires next == Min(t.right).node
    modifies tree`node, S`left, S`right, S`parent, S`tag
    ensures At(Snap(S), Vacated(c, t), Min(t.right).right, tree.node) && cur == Above(Vacated(c, t))
    ensures if Vacated(c, t).InLeft? then bf == 1 else bf == -1 && Vacated(c, t).InRight?
  {
    ghost var r, s, b := t.right, Min(t.right), InRight(c, t.left, t.node, t.tag);
    ghost var q := MinPath(b, r);
    MinFacts(b, r);
    AtSwitch(Snap(S), c, t, q, s, tree.node);
    Look(Snap(S), q, s, tree.node);
    VacatedAbove(c, t);
    MinPathSide(b, r);
    Look(Snap(S), c, t, tree.node);
    if node.right != next {
      cur, bf := next.parent, 1;
    } else {
      cur, bf := next, -1;
    }
    DetachMin(node, next, tree, S, c, t, q, s);
    TakePlace(node, next, tree, S, c, t.left, t.tag, WithoutMin(r));
    VacatedFacts(c, t);
    AtSwitch(Snap(S), c, Fork(t.left, next, t.tag, WithoutMin(r)), Vacated(c, t), s.right, tree.node);
  }

  method RemoveAt(node: Node, tree: Root, ghost S: set<Node>, ghost c: Path, ghost t: Tree)
    requires t.Fork? && node == t.node && At(Snap(S), c, t, tree.node) && Avl(Plug(c, t))
    modifies tree`node, S`left, S`right, S`parent, S`tag
    ensures At(Snap(S), Top, Removed(c, t), tree.node)
  {
    ghost var (hole, u) := RemoveHole(c, t);
    RemoveHolePending(c, t);
    var cur, bf := Unlink(node, tree, S, c, t);
    if cur != null {
      AtUp(Snap(S), hole, u, tree.node);
      RetraceAt(cur, bf, false, tree, S, hole.up, Wrap(hole, u));
    }
  }

  /** Unlinking and balancing leave the list alone. */
  method RemoveThreaded(node: Node, tree: Root, ghost S: set<Node>, ghost c: Path, ghost t: Tree, ghost s: seq<Node>)
    requires t.Fork? && node == t.node && At(Snap(S), c, t, tree.node) && Avl(Plug(c, t)) && Threaded(s)
    modifies tree`node, S`left, S`right, S`parent, S`tag
    ensures At(Snap(S), Top, Removed(c, t), tree.node) && Threaded(s)
  {
    RemoveAt(node, tree, S, c, t);
  }

  method UnthreadAt(node: Node, ghost S: set<Node>, ghost a: seq<Node>, ghost b: seq<Node>)
    requires NoRepeat(a + [node] + b) && Threaded(a + [node] + b)
    modifies Elements(a + b)`prev, Elements(a + b)`next
    ensures Threaded(a + b) && Snap(S) == old(Snap(S))
  {
    Unthread(node, a, b);
  }

  /** The node leaves the list and the tree. */
  method RemoveBoth(tree: Root, node: Node,
      ghost S: set<Node>, ghost c: Path, ghost t: Tree, ghost a: seq<Node>, ghost b: seq<Node>)
    requires t.Fork? && node == t.node && At(Snap(S), c, t, tree.node) && Avl(Plug(c, t))
    requires NoRepeat(a + [node] + b) && Threaded(a + [node] + b) && Elements(a + b) <= S
    modifies tree`node, S`left, S`right, S`parent, S`tag, S`prev, S`next
    ensures At(Snap(S), Top, Removed(c, t), tree.node) && Threaded(a + b)
  {
    UnthreadAt(node, S, a, b);
    RemoveThreaded(node, tree, S, c, t, a + b);
  }

  /** `avl_remove` of a node whose place is known. */
  method RemoveKnown(tree: Root, node: Node, ghost c: Path, ghost t: Tree, ghost a: seq<Node>, ghost b: seq<Node>)
    requires t.Fork? && node == t.node && tree.tree == Plug(c, t) && Avl(tree.tree)
    requires At(Snap(Nodes(tree.tree)), c, t, tree.node) && Threaded(a + [node] + b)
    requires NoRepeat(a + [node] + b) && Elements(a + b) <= Nodes(tree.tree)
    requires Avl(Removed(c, t)) && Nodes(Removed(c, t)) <= Nodes(tree.tree) && Inorder(Removed(c, t)) == a + b
    modifies tree, Nodes(tree.tree)`left, Nodes(tree.tree)`right, Nodes(tree.tree)`parent, Nodes(tree.tree)`tag
    modifies Nodes(tree.tree)`prev, Nodes(tree.tree)`next
    ensures Valid(tree) && tree.tree == Removed(c, t)
  {
    ghost var S := Nodes(tree.tree);
    RemoveBoth(tree, node, S, c, t, a, b);
    Install(tree, Removed(c, t), S, a + b);
  }

  /** `avl_remove`. */
  method AvlRemove(tree: Root, node: Node?)
    requires Valid(tree) && (node != null ==> node in Nodes(tree.tree))
    modifies tree, Nodes(tree.tree)`left, Nodes(tree.tree)`right, Nodes(tree.tree)`parent, Nodes(tree.tree)`tag
    modifies Nodes(tree.tree)`prev, Nodes(tree.tree)`next
    ensures Valid(tree)
    ensures node == null ==> unchanged(tree)
    ensures node != null ==>
      && Inorder(tree.tree) == Without(old(Inorder(tree.tree)), node)
      && Nodes(tree.tree) == old(Nodes(tree.tree)) - {node}
  {
    if node == null {
      return;
    }
    ghost var (c, t) := Focus(Top, tree.tree, node);
    AtSwitch(Snap(Nodes(tree.tree)), Top, tree.tree, c, t, tree.node);
    ghost var a, b := Before(c) + Inorder(t.left), Inorder(t.right) + After(c);
    RemovedValid(c, t);
    SplitOrder(c, t);
    NodesInorder(Removed(c, t));
    RemoveKnown(tree, node, c, t, a, b);
  }
}
