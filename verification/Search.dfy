/** Key order, and where a search ends up. */
module Search {
  import opened Trees

  /** A comparison function in the sense of avltree.h and rbwrap.h: negative,
      zero or positive as its first argument is below, like or above the second. */
  type Compare = (int, int) -> int

  ghost predicate Order(cmp: Compare) {
    && (forall a, b :: cmp(a, b) < 0 <==> cmp(b, a) > 0)
    && (forall a, b, c :: cmp(a, b) <= 0 && cmp(b, c) <= 0 ==> cmp(a, c) <= 0)
  }

  ghost predicate Sorted(cmp: Compare, s: seq<Node>) {
    forall i, j :: 0 <= i < j < |s| ==> cmp(s[i].key, s[j].key) < 0
  }

  ghost predicate AllBelow(cmp: Compare, s: seq<Node>, key: int) {
    forall n :: n in s ==> cmp(n.key, key) < 0
  }

  ghost predicate AllAbove(cmp: Compare, s: seq<Node>, key: int) {
    forall n :: n in s ==> cmp(n.key, key) > 0
  }

  /** Where the descent for `key` stops: at a node with that key, or at the
      hole where it belongs. */
  function Locate(cmp: Compare, key: int, c: Path, t: Tree): (Path, Tree)
    decreases t
  {
    if t.Leaf? then (c, t)
    else if cmp(t.node.key, key) > 0 then Locate(cmp, key, InLeft(c, t.node, t.tag, t.right), t.left)
    else if cmp(t.node.key, key) < 0 then Locate(cmp, key, InRight(c, t.left, t.node, t.tag), t.right)
    else (c, t)
  }

  ghost predicate EachBelow(cmp: Compare, a: seq<Node>, b: seq<Node>) {
    forall i, j :: 0 <= i < |a| && 0 <= j < |b| ==> cmp(a[i].key, b[j].key) < 0
  }

  lemma {:induction false} SortedTwo(cmp: Compare, a: seq<Node>, b: seq<Node>)
    ensures Sorted(cmp, a + b) <==> Sorted(cmp, a) && Sorted(cmp, b) && EachBelow(cmp, a, b)
  {
    var s := a + b;
    if Sorted(cmp, s) {
      forall i, j | 0 <= i < j < |a| ensures cmp(a[i].key, a[j].key) < 0 {
        assert s[i] == a[i] && s[j] == a[j];
      }
      forall i, j | 0 <= i < j < |b| ensures cmp(b[i].key, b[j].key) < 0 {
        assert s[|a| + i] == b[i] && s[|a| + j] == b[j];
      }
      forall i, j | 0 <= i < |a| && 0 <= j < |b| ensures cmp(a[i].key, b[j].key) < 0 {
        assert s[i] == a[i] && s[|a| + j] == b[j];
      }
    }
  }

  lemma {:induction false} SortedConcat(cmp: Compare, a: seq<Node>, n: Node, b: seq<Node>)
    requires Order(cmp)
    ensures Sorted(cmp, a + [n] + b) <==>
      Sorted(cmp, a) && Sorted(cmp, b) && AllBelow(cmp, a, n.key) && AllAbove(cmp, b, n.key)
  {
    SortedTwo(cmp, a + [n], b);
    SortedTwo(cmp, a, [n]);
    assert (a + [n])[|a|] == n;
    assert forall i :: 0 <= i < |a| ==> (a + [n])[i] == a[i];
    if AllBelow(cmp, a, n.key) && AllAbove(cmp, b, n.key) {
      forall i, j | 0 <= i < |a| && 0 <= j < |b| ensures cmp(a[i].key, b[j].key) < 0 {
        assert a[i] in a && b[j] in b;
        Between(cmp, a[i].key, n.key, b[j].key);
      }
    }
    if Sorted(cmp, a + [n] + b) {
      forall x | x in b ensures cmp(x.key, n.key) > 0 {
        var j :| 0 <= j < |b| && b[j] == x;
        assert cmp((a + [n])[|a|].key, b[j].key) < 0;
      }
    }
  }

  lemma {:induction false} Between(cmp: Compare, a: int, b: int, c: int)
    requires Order(cmp) && cmp(a, b) < 0 && cmp(c, b) > 0
    ensures cmp(a, c) < 0
  {
    Beyond(cmp, a, b, c);
  }

  lemma {:induction false} Beyond(cmp: Compare, a: int, b: int, c: int)
    requires Order(cmp)
    ensures cmp(a, b) < 0 && cmp(b, c) <= 0 ==> cmp(a, c) < 0
    ensures cmp(a, b) > 0 && cmp(b, c) >= 0 ==> cmp(a, c) > 0
  {
    assert cmp(c, a) <= 0 && cmp(b, c) <= 0 ==> cmp(b, a) <= 0;
    assert cmp(a, c) <= 0 && cmp(c, b) <= 0 ==> cmp(a, b) <= 0;
  }

  lemma {:induction false} BelowAll(cmp: Compare, s: seq<Node>, x: int, key: int)
    requires Order(cmp)
    ensures AllBelow(cmp, s, x) && cmp(x, key) <= 0 ==> AllBelow(cmp, s, key)
    ensures AllAbove(cmp, s, x) && cmp(x, key) >= 0 ==> AllAbove(cmp, s, key)
  {
    forall n | n in s
      ensures cmp(n.key, x) < 0 && cmp(x, key) <= 0 ==> cmp(n.key, key) < 0
      ensures cmp(n.key, x) > 0 && cmp(x, key) >= 0 ==> cmp(n.key, key) > 0
    {
      Beyond(cmp, n.key, x, key);
    }
  }

  /** One comparison puts a node and its whole other side below or above the key. */
  lemma {:induction false} DescentStep(cmp: Compare, key: int, c: Path, t: Tree)
    requires Order(cmp) && t.Fork? && Sorted(cmp, Inorder(Plug(c, t)))
    ensures cmp(t.node.key, key) > 0 ==> AllAbove(cmp, After(InLeft(c, t.node, t.tag, t.right)), key)
    ensures cmp(t.node.key, key) < 0 ==> AllBelow(cmp, Before(InRight(c, t.left, t.node, t.tag)), key)
  {
    FocusOrder(c, t);
    var a, n, b := Before(c) + Inorder(t.left), t.node, Inorder(t.right) + After(c);
    SortedConcat(cmp, a, n, b);
    BelowAll(cmp, a, n.key, key);
    BelowAll(cmp, b, n.key, key);
  }

  /** In a sorted tree everything before the place of the search is below the
      key and everything after it is above. */
  lemma {:induction false} LocateBounds(cmp: Compare, key: int, c: Path, t: Tree)
    requires Order(cmp) && Sorted(cmp, Inorder(Plug(c, t)))
    requires AllBelow(cmp, Before(c), key) && AllAbove(cmp, After(c), key)
    ensures var (c', t') := Locate(cmp, key, c, t);
      && Plug(c', t') == Plug(c, t)
      && AllBelow(cmp, Before(c'), key) && AllAbove(cmp, After(c'), key)
      && (t'.Fork? ==> cmp(t'.node.key, key) == 0)
    decreases t
  {
    if t.Fork? {
      DescentStep(cmp, key, c, t);
      if cmp(t.node.key, key) > 0 {
        LocateBounds(cmp, key, InLeft(c, t.node, t.tag, t.right), t.left);
      } else if cmp(t.node.key, key) < 0 {
        LocateBounds(cmp, key, InRight(c, t.left, t.node, t.tag), t.right);
      }
    }
  }

  /** `s'` is `s` with `n` put in at one place. */
  ghost predicate PutIn(s: seq<Node>, n: Node, s': seq<Node>) {
    exists k :: 0 <= k <= |s| && s' == s[..k] + [n] + s[k..]
  }

  /** No node of `s` has the key of `n`, and `s'` is `s` with `n` put in where
      the order wants it. */
  ghost predicate Admits(cmp: Compare, s: seq<Node>, n: Node, s': seq<Node>) {
    && n !in s && (forall x :: x in s ==> cmp(x.key, n.key) != 0)
    && Sorted(cmp, s') && PutIn(s, n, s')
  }

  lemma {:induction false} PutBetween(cmp: Compare, a: seq<Node>, n: Node, b: seq<Node>)
    requires Order(cmp) && Sorted(cmp, a + b) && AllBelow(cmp, a, n.key) && AllAbove(cmp, b, n.key)
    ensures Admits(cmp, a + b, n, a + [n] + b)
  {
    SortedTwo(cmp, a, b);
    SortedConcat(cmp, a, n, b);
    assert (a + b)[..|a|] == a && (a + b)[|a|..] == b;
    assert cmp(n.key, n.key) == 0;
    forall x | x in a + b ensures cmp(x.key, n.key) != 0 {
      assert x in a || x in b;
    }
  }

  /** Where a search in a sorted tree ends: at a node with the key, or at a hole
      that is the place for a new node with that key. */
  lemma {:induction false} SearchEnds(cmp: Compare, t: Tree, n: Node)
    requires Order(cmp) && Sorted(cmp, Inorder(t))
    ensures var (c, u) := Locate(cmp, n.key, Top, t);
      && Plug(c, u) == t
      && (u.Leaf? ==> Admits(cmp, Inorder(t), n, Before(c) + [n] + After(c)))
      && (u.Fork? ==> cmp(u.node.key, n.key) == 0 && u.node in Inorder(t))
  {
    LocateBounds(cmp, n.key, Top, t);
    var (c, u) := Locate(cmp, n.key, Top, t);
    PlugInorder(c, u);
    if u.Leaf? {
      assert Inorder(t) == Before(c) + After(c);
      PutBetween(cmp, Before(c), n, After(c));
    }
  }

  ghost predicate SideFits(cmp: Compare, key: int, c: Path) {
    && (c.InLeft? ==> cmp(c.node.key, key) > 0)
    && (c.InRight? ==> cmp(c.node.key, key) < 0)
  }

  /** Comparing once more with the node above the hole tells the side. */
  lemma {:induction false} LocateSide(cmp: Compare, key: int, c: Path, t: Tree)
    requires SideFits(cmp, key, c)
    ensures SideFits(cmp, key, Locate(cmp, key, c, t).0)
    decreases t
  {
    if t.Fork? {
      if cmp(t.node.key, key) > 0 {
        LocateSide(cmp, key, InLeft(c, t.node, t.tag, t.right), t.left);
      } else if cmp(t.node.key, key) < 0 {
        LocateSide(cmp, key, InRight(c, t.left, t.node, t.tag), t.right);
      }
    }
  }

  /** The hole where the search for the key of `n` ends, if it ends in one. */
  lemma {:induction false} HoleForNew(cmp: Compare, t: Tree, n: Node)
    requires Order(cmp) && Sorted(cmp, Inorder(t)) && Distinct(t)
    ensures var (c, u) := Locate(cmp, n.key, Top, t);
      u.Leaf? ==>
        && Plug(c, Leaf) == t && n !in PathNodes(c) && SideFits(cmp, n.key, c)
        && Admits(cmp, Inorder(t), n, Before(c) + [n] + After(c))
  {
    SearchEnds(cmp, t, n);
    LocateSide(cmp, n.key, Top, t);
    var (c, u) := Locate(cmp, n.key, Top, t);
    if u.Leaf? {
      ApartPlug(c, Leaf);
      NodesInorder(t);
    }
  }

  lemma {:induction false} HoleFacts(c: Path)
    requires Distinct(Plug(c, Leaf))
    ensures PathNodes(c) == Nodes(Plug(c, Leaf)) == Elements(Before(c) + After(c))
    ensures Inorder(Plug(c, Leaf)) == Before(c) + After(c) && NoRepeat(Before(c) + After(c))
  {
    ApartPlug(c, Leaf);
    PlugInorder(c, Leaf);
    assert Before(c) + [] + After(c) == Before(c) + After(c);
    NodesInorder(Plug(c, Leaf));
    DistinctInorder(Plug(c, Leaf));
  }

  /** `r` is the least node of `s` not below the key, or null if there is none. */
  ghost predicate LeastNotBelow(cmp: Compare, s: seq<Node>, key: int, r: Node?) {
    if r == null then AllBelow(cmp, s, key)
    else r in s && cmp(r.key, key) >= 0 && forall n :: n in s && cmp(n.key, key) >= 0 ==> cmp(r.key, n.key) <= 0
  }

  /** `r` is the greatest node of `s` not above the key, or null if there is none. */
  ghost predicate GreatestNotAbove(cmp: Compare, s: seq<Node>, key: int, r: Node?) {
    if r == null then AllAbove(cmp, s, key)
    else r in s && cmp(r.key, key) <= 0 && forall n :: n in s && cmp(n.key, key) <= 0 ==> cmp(r.key, n.key) >= 0
  }

  /** Around a hole that lies between the keys below and the keys above, the
      neighbours are the bounds. */
  lemma {:induction false} LeastAtHole(cmp: Compare, a: seq<Node>, b: seq<Node>, key: int)
    requires Order(cmp) && Sorted(cmp, b) && AllBelow(cmp, a, key) && AllAbove(cmp, b, key)
    ensures LeastNotBelow(cmp, a + b, key, if b == [] then null else b[0])
  {
    if b != [] {
      forall n | n in a + b && cmp(n.key, key) >= 0 ensures cmp(b[0].key, n.key) <= 0 {
        assert n !in a;
        var i :| 0 <= i < |b| && b[i] == n;
        assert i > 0 ==> cmp(b[0].key, b[i].key) < 0;
        assert cmp(n.key, n.key) == 0;
      }
      assert b[0] in b;
    }
  }

  lemma {:induction false} GreatestAtHole(cmp: Compare, a: seq<Node>, b: seq<Node>, key: int)
    requires Order(cmp) && Sorted(cmp, a) && AllBelow(cmp, a, key) && AllAbove(cmp, b, key)
    ensures GreatestNotAbove(cmp, a + b, key, if a == [] then null else a[|a| - 1])
  {
    if a != [] {
      var last := a[|a| - 1];
      forall n | n in a + b && cmp(n.key, key) <= 0 ensures cmp(last.key, n.key) >= 0 {
        assert n !in b;
        var i :| 0 <= i < |a| && a[i] == n;
        assert i < |a| - 1 ==> cmp(a[i].key, last.key) < 0;
        assert cmp(n.key, n.key) == 0;
      }
      assert last in a;
    }
  }

  /** A node with the key itself is both bounds. */
  lemma {:induction false} BoundsAtKey(cmp: Compare, s: seq<Node>, key: int, r: Node)
    requires Order(cmp) && r in s && cmp(r.key, key) == 0
    ensures LeastNotBelow(cmp, s, key, r) && GreatestNotAbove(cmp, s, key, r)
  {
    forall n | n in s
      ensures cmp(n.key, key) >= 0 ==> cmp(r.key, n.key) <= 0
      ensures cmp(n.key, key) <= 0 ==> cmp(r.key, n.key) >= 0
    {
      assert cmp(key, n.key) <= 0 && cmp(r.key, key) <= 0 ==> cmp(r.key, n.key) <= 0;
      assert cmp(n.key, key) <= 0 && cmp(key, r.key) <= 0 ==> cmp(n.key, r.key) <= 0;
    }
  }
}
