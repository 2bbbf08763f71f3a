/** Whole runs: both trees, used through their own interfaces, answer every
    sequence of operations like one ordered set. */
module Runs {
  import opened Trees
  import opened Links
  import opened Search
  import opened Threads
  import A = AvlTree
  import R = RbTree

  datatype Op = Insert(key: int) | Find(key: int) | Remove(key: int)

  ghost predicate Has(cmp: Compare, live: set<int>, key: int) {
    exists k :: k in live && cmp(k, key) == 0
  }

  ghost function Live(cmp: Compare, live: set<int>, op: Op): set<int> {
    match op
    case Insert(key) => if Has(cmp, live, key) then live else live + {key}
    case Find(_) => live
    case Remove(key) => set k | k in live && cmp(k, key) != 0
  }

  /** Whether a new key was added, a key was found, or a key was removed. */
  ghost predicate Answer(cmp: Compare, live: set<int>, op: Op) {
    if op.Insert? then !Has(cmp, live, op.key) else Has(cmp, live, op.key)
  }

  /** What a set of keys answers. */
  ghost function SetAnswers(cmp: Compare, live: set<int>, ops: seq<Op>): seq<bool>
    decreases |ops|
  {
    if ops == [] then []
    else [Answer(cmp, live, ops[0])] + SetAnswers(cmp, Live(cmp, live, ops[0]), ops[1..])
  }

  function Keys(s: seq<Node>): set<int> {
    set n | n in s :: n.key
  }

  lemma {:induction false} KeysPutIn(s: seq<Node>, n: Node, s': seq<Node>)
    requires PutIn(s, n, s')
    ensures Keys(s') == Keys(s) + {n.key}
  {
    var k :| 0 <= k <= |s| && s' == s[..k] + [n] + s[k..];
    assert s == s[..k] + s[k..];
    assert forall x :: x in s' <==> x in s || x == n;
  }

  lemma {:induction false} KeysMiddle(cmp: Compare, a: seq<Node>, n: Node, b: seq<Node>)
    requires Order(cmp) && AllBelow(cmp, a, n.key) && AllAbove(cmp, b, n.key)
    ensures Keys(a + b) == set k | k in Keys(a + [n] + b) && cmp(k, n.key) != 0
  {
    assert cmp(n.key, n.key) == 0;
    forall k | k in Keys(a + b)
      ensures k in Keys(a + [n] + b) && cmp(k, n.key) != 0
    {
      var x :| x in a + b && x.key == k;
      assert x in a || x in b;
    }
    forall k | k in Keys(a + [n] + b) && cmp(k, n.key) != 0
      ensures k in Keys(a + b)
    {
      var x :| x in a + [n] + b && x.key == k;
      assert x in a || x in b;
    }
  }

  lemma {:induction false} SortedWithout(cmp: Compare, s: seq<Node>, n: Node)
    requires Order(cmp) && Sorted(cmp, s) && n in s
    ensures Sorted(cmp, Without(s, n))
    ensures Keys(Without(s, n)) == set k | k in Keys(s) && cmp(k, n.key) != 0
  {
    var i :| 0 <= i < |s| && s[i] == n;
    var a, b := s[..i], s[i + 1..];
    assert s == a + [n] + b;
    SortedConcat(cmp, a, n, b);
    KeysMiddle(cmp, a, n, b);
    assert cmp(n.key, n.key) == 0;
    WithoutMiddle(a, n, b);
    SortedBeside(cmp, a, n, b);
  }

  lemma {:induction false} SortedBeside(cmp: Compare, a: seq<Node>, n: Node, b: seq<Node>)
    requires Sorted(cmp, a + [n] + b)
    ensures Sorted(cmp, a + b)
  {
    var s := a + [n] + b;
    forall i, j | 0 <= i < j < |a + b|
      ensures cmp((a + b)[i].key, (a + b)[j].key) < 0
    {
      var p, q := if i < |a| then i else i + 1, if j < |a| then j else j + 1;
      assert s[p] == (a + b)[i] && s[q] == (a + b)[j];
    }
  }

  lemma {:induction false} NoneAlike(cmp: Compare, s: seq<Node>, key: int)
    requires forall x :: x in s ==> cmp(x.key, key) != 0
    ensures !Has(cmp, Keys(s), key) && Keys(s) == set k | k in Keys(s) && cmp(k, key) != 0
  {
  }

  /** What a search finds is what the set has. */
  lemma {:induction false} FoundIff(cmp: Compare, t: Tree, n: Node)
    requires Order(cmp) && Sorted(cmp, Inorder(t))
    ensures var u := Locate(cmp, n.key, Top, t).1;
      && (u.Fork? <==> Has(cmp, Keys(Inorder(t)), n.key))
      && (u.Fork? ==> cmp(u.node.key, n.key) == 0 && u.node in Inorder(t))
      && (u.Leaf? ==> Keys(Inorder(t)) == Live(cmp, Keys(Inorder(t)), Remove(n.key)))
  {
    SearchEnds(cmp, t, n);
    var u := Locate(cmp, n.key, Top, t).1;
    if u.Leaf? {
      NoneAlike(cmp, Inorder(t), n.key);
    } else {
      assert u.node.key in Keys(Inorder(t));
    }
  }

  /** Removing the node that was found removes its key from the set. */
  lemma {:induction false} RemovedKeys(cmp: Compare, s: seq<Node>, p: Node, key: int)
    requires Order(cmp) && Sorted(cmp, s) && p in s && cmp(p.key, key) == 0
    ensures Sorted(cmp, Without(s, p)) && Keys(Without(s, p)) == Live(cmp, Keys(s), Remove(key))
  {
    SortedWithout(cmp, s, p);
    assert cmp(key, p.key) <= 0 && cmp(p.key, key) <= 0;
    assert forall k :: cmp(k, p.key) == 0 <==> cmp(k, key) == 0;
  }

  method AvlPut(tree: Root, n: Node, cmp: Compare) returns (answer: bool)
    requires A.Valid(tree) && Order(cmp) && Sorted(cmp, Inorder(tree.tree)) && n !in Inorder(tree.tree)
    modifies tree, Nodes(tree.tree), n
    ensures A.Valid(tree) && Sorted(cmp, Inorder(tree.tree)) && Nodes(tree.tree) <= old(Nodes(tree.tree)) + {n}
    ensures answer <==> Answer(cmp, old(Keys(Inorder(tree.tree))), Insert(n.key))
    ensures Keys(Inorder(tree.tree)) == Live(cmp, old(Keys(Inorder(tree.tree))), Insert(n.key))
  {
    ghost var s := Inorder(tree.tree);
    var r := A.AvlInsert(tree, n, cmp);
    if r in s {
      assert r.key in Keys(s);
    } else {
      NoneAlike(cmp, s, n.key);
      KeysPutIn(s, n, Inorder(tree.tree));
    }
    return r == n;
  }

  method AvlLook(tree: Root, n: Node, cmp: Compare) returns (p: Node?)
    requires A.Valid(tree) && Order(cmp) && Sorted(cmp, Inorder(tree.tree))
    ensures A.Valid(tree)
    ensures p != null <==> Has(cmp, Keys(Inorder(tree.tree)), n.key)
    ensures p != null ==> p in Inorder(tree.tree) && cmp(p.key, n.key) == 0
    ensures p == null ==> Keys(Inorder(tree.tree)) == Live(cmp, Keys(Inorder(tree.tree)), Remove(n.key))
  {
    assert allocated(Nodes(tree.tree)) && allocated(Elements(Inorder(tree.tree)));
    ghost var T := tree.tree;
    ghost var s := Inorder(T);
    assert Threaded(s);
    ghost var rounds;
    p, rounds := A.AvlSearch(tree, n, cmp);
    assert Threaded(s);
    FoundIff(cmp, T, n);
  }

  method AvlDrop(tree: Root, n: Node, cmp: Compare) returns (answer: bool)
    requires A.Valid(tree) && Order(cmp) && Sorted(cmp, Inorder(tree.tree))
    modifies tree, Nodes(tree.tree)
    ensures A.Valid(tree) && Sorted(cmp, Inorder(tree.tree)) && Nodes(tree.tree) <= old(Nodes(tree.tree))
    ensures answer <==> Answer(cmp, old(Keys(Inorder(tree.tree))), Remove(n.key))
    ensures Keys(Inorder(tree.tree)) == Live(cmp, old(Keys(Inorder(tree.tree))), Remove(n.key))
  {
    var p := AvlLook(tree, n, cmp);
    if p != null {
      NodesInorder(tree.tree);
      RemovedKeys(cmp, Inorder(tree.tree), p, n.key);
      A.AvlRemove(tree, p);
    }
    return p != null;
  }

  method AvlDo(tree: Root, op: Op, cmp: Compare) returns (answer: bool)
    requires A.Valid(tree) && Order(cmp) && Sorted(cmp, Inorder(tree.tree))
    modifies tree, Nodes(tree.tree)
    ensures A.Valid(tree) && Sorted(cmp, Inorder(tree.tree)) && fresh(Nodes(tree.tree) - old(Nodes(tree.tree)))
    ensures answer <==> Answer(cmp, old(Keys(Inorder(tree.tree))), op)
    ensures Keys(Inorder(tree.tree)) == Live(cmp, old(Keys(Inorder(tree.tree))), op)
  {
    assert allocated(Nodes(tree.tree)) && allocated(Elements(Inorder(tree.tree)));
    var n := new Node(op.key);
    match op
    case Insert(_) =>
      answer := AvlPut(tree, n, cmp);
    case Find(_) =>
      var p := AvlLook(tree, n, cmp);
      answer := p != null;
    case Remove(_) =>
      answer := AvlDrop(tree, n, cmp);
  }

  method RbPut(root: Root, n: Node, cmp: Compare) returns (answer: bool)
    requires R.Valid(root) && Order(cmp) && Sorted(cmp, Inorder(root.tree))
    modifies root, Nodes(root.tree), n
    ensures R.Valid(root) && Sorted(cmp, Inorder(root.tree)) && Nodes(root.tree) <= old(Nodes(root.tree)) + {n}
    ensures answer <==> Answer(cmp, old(Keys(Inorder(root.tree))), Insert(n.key))
    ensures Keys(Inorder(root.tree)) == Live(cmp, old(Keys(Inorder(root.tree))), Insert(n.key))
  {
    ghost var s := Inorder(root.tree);
    FoundIff(cmp, root.tree, n);
    var r := R.RbwrapInsert(root, n, cmp);
    if r == null {
      KeysPutIn(s, n, Inorder(root.tree));
    }
    return r == null;
  }

  method RbLook(root: Root, n: Node, cmp: Compare) returns (p: Node?)
    requires R.Valid(root) && Order(cmp) && Sorted(cmp, Inorder(root.tree))
    ensures R.Valid(root)
    ensures p != null <==> Has(cmp, Keys(Inorder(root.tree)), n.key)
    ensures p != null ==> p in Inorder(root.tree) && cmp(p.key, n.key) == 0
    ensures p == null ==> Keys(Inorder(root.tree)) == Live(cmp, Keys(Inorder(root.tree)), Remove(n.key))
  {
    FoundIff(cmp, root.tree, n);
    assert allocated(Nodes(root.tree)) && allocated(Elements(Inorder(root.tree)));
    ghost var rounds;
    p, rounds := R.RbwrapSearch(root, n, cmp);
  }

  method RbDrop(root: Root, n: Node, cmp: Compare) returns (answer: bool)
    requires R.Valid(root) && Order(cmp) && Sorted(cmp, Inorder(root.tree))
    modifies root, Nodes(root.tree)
    ensures R.Valid(root) && Sorted(cmp, Inorder(root.tree)) && Nodes(root.tree) <= old(Nodes(root.tree))
    ensures answer <==> Answer(cmp, old(Keys(Inorder(root.tree))), Remove(n.key))
    ensures Keys(Inorder(root.tree)) == Live(cmp, old(Keys(Inorder(root.tree))), Remove(n.key))
  {
    var p := RbLook(root, n, cmp);
    if p != null {
      NodesInorder(root.tree);
      RemovedKeys(cmp, Inorder(root.tree), p, n.key);
      R.Erase(p, root);
    }
    return p != null;
  }

  method RbDo(root: Root, op: Op, cmp: Compare) returns (answer: bool)
    requires R.Valid(root) && Order(cmp) && Sorted(cmp, Inorder(root.tree))
    modifies root, Nodes(root.tree)
    ensures R.Valid(root) && Sorted(cmp, Inorder(root.tree)) && fresh(Nodes(root.tree) - old(Nodes(root.tree)))
    ensures answer <==> Answer(cmp, old(Keys(Inorder(root.tree))), op)
    ensures Keys(Inorder(root.tree)) == Live(cmp, old(Keys(Inorder(root.tree))), op)
  {
    assert allocated(Nodes(root.tree));
    var n := new Node(op.key);
    match op
    case Insert(_) =>
      answer := RbPut(root, n, cmp);
    case Find(_) =>
      var p := RbLook(root, n, cmp);
      answer := p != null;
    case Remove(_) =>
      answer := RbDrop(root, n, cmp);
  }

  lemma {:induction false} NextAnswer(cmp: Compare, live: set<int>, ops: seq<Op>, i: nat, answers: seq<bool>)
    requires i < |ops|
    ensures answers + SetAnswers(cmp, live, ops[i..])
         == answers + [Answer(cmp, live, ops[i])] + SetAnswers(cmp, Live(cmp, live, ops[i]), ops[i + 1..])
  {
    assert ops[i..][0] == ops[i] && ops[i..][1..] == ops[i + 1..];
  }

  // ----- what a run answers, from the operations before it -----

  /** The key was inserted at some time and not removed since. */
  ghost predicate Present(cmp: Compare, before: seq<Op>, key: int) {
    exists j :: 0 <= j < |before| && before[j].Insert? && cmp(before[j].key, key) == 0
      && forall k :: j < k < |before| ==> !(before[k].Remove? && cmp(before[k].key, key) == 0)
  }

  ghost function LiveAfter(cmp: Compare, live: set<int>, ops: seq<Op>): set<int>
    decreases |ops|
  {
    if ops == [] then live else LiveAfter(cmp, Live(cmp, live, ops[0]), ops[1..])
  }

  lemma {:induction false} LiveAfterLast(cmp: Compare, live: set<int>, ops: seq<Op>, op: Op)
    ensures LiveAfter(cmp, live, ops + [op]) == Live(cmp, LiveAfter(cmp, live, ops), op)
    decreases |ops|
  {
    if ops == [] {
      assert (ops + [op])[1..] == [];
    } else {
      LiveAfterLast(cmp, Live(cmp, live, ops[0]), ops[1..], op);
      assert (ops + [op])[1..] == ops[1..] + [op];
    }
  }

  lemma {:induction false} Alike(cmp: Compare, a: int, b: int, c: int)
    requires Order(cmp) && cmp(a, b) == 0
    ensures cmp(b, a) == 0 && (cmp(a, c) == 0 <==> cmp(b, c) == 0)
  {
    assert cmp(a, b) <= 0 && cmp(b, a) <= 0;
    assert cmp(a, c) == 0 ==> cmp(c, a) == 0;
    assert cmp(b, c) == 0 ==> cmp(c, b) == 0;
  }

  /** How one operation changes what the set has. */
  lemma {:induction false} HasAfter(cmp: Compare, live: set<int>, op: Op, key: int)
    requires Order(cmp)
    ensures Has(cmp, Live(cmp, live, op), key) <==>
      match op
      case Insert(k) => Has(cmp, live, key) || cmp(k, key) == 0
      case Find(_) => Has(cmp, live, key)
      case Remove(k) => Has(cmp, live, key) && cmp(k, key) != 0
  {
    match op
    case Insert(k) =>
      if Has(cmp, live, k) && cmp(k, key) == 0 {
        var x :| x in live && cmp(x, k) == 0;
        Alike(cmp, x, k, key);
      }
      if Has(cmp, live, key) {
        var x :| x in live && cmp(x, key) == 0;
        assert x in Live(cmp, live, op);
      }
      assert !Has(cmp, live, k) ==> k in Live(cmp, live, op);
    case Find(_) =>
    case Remove(k) =>
      forall x | x in live && cmp(x, key) == 0
        ensures cmp(x, k) == 0 <==> cmp(k, key) == 0
      {
        Alike(cmp, x, key, k);
        assert cmp(key, k) == 0 <==> cmp(k, key) == 0;
      }
  }

  lemma {:induction false} PresentAfter(cmp: Compare, before: seq<Op>, op: Op, key: int)
    ensures Present(cmp, before + [op], key) <==>
      match op
      case Insert(k) => Present(cmp, before, key) || cmp(k, key) == 0
      case Find(_) => Present(cmp, before, key)
      case Remove(k) => Present(cmp, before, key) && cmp(k, key) != 0
  {
    var n, all := |before|, before + [op];
    assert all[n] == op && forall j :: 0 <= j < n ==> all[j] == before[j];
    if Present(cmp, before, key) && !(op.Remove? && cmp(op.key, key) == 0) {
      var j :| 0 <= j < n && before[j].Insert? && cmp(before[j].key, key) == 0
        && forall k :: j < k < n ==> !(before[k].Remove? && cmp(before[k].key, key) == 0);
      assert all[j].Insert? && forall k :: j < k < |all| ==> !(all[k].Remove? && cmp(all[k].key, key) == 0);
    }
    if Present(cmp, all, key) {
      var j :| 0 <= j < |all| && all[j].Insert? && cmp(all[j].key, key) == 0
        && forall k :: j < k < |all| ==> !(all[k].Remove? && cmp(all[k].key, key) == 0);
      assert j < n ==> before[j].Insert?;
      assert forall k :: j < k < n ==> !(before[k].Remove? && cmp(before[k].key, key) == 0);
      assert j < n ==> !(all[n].Remove? && cmp(all[n].key, key) == 0);
    }
    if op.Insert? && cmp(op.key, key) == 0 {
      assert all[n].Insert? && cmp(all[n].key, key) == 0 && |all| == n + 1;
    }
  }

  lemma {:induction false} HasIffPresent(cmp: Compare, ops: seq<Op>, key: int)
    requires Order(cmp)
    ensures Has(cmp, LiveAfter(cmp, {}, ops), key) <==> Present(cmp, ops, key)
    decreases |ops|
  {
    if ops != [] {
      var n := |ops| - 1;
      var before, op := ops[..n], ops[n];
      assert ops == before + [op];
      HasIffPresent(cmp, before, key);
      LiveAfterLast(cmp, {}, before, op);
      HasAfter(cmp, LiveAfter(cmp, {}, before), op, key);
      PresentAfter(cmp, before, op, key);
    }
  }

  lemma {:induction false} AnswerAt(cmp: Compare, live: set<int>, ops: seq<Op>, i: nat)
    requires i < |ops|
    ensures |SetAnswers(cmp, live, ops)| == |ops|
    ensures SetAnswers(cmp, live, ops)[i] == Answer(cmp, LiveAfter(cmp, live, ops[..i]), ops[i])
    decreases |ops|
  {
    var next := Live(cmp, live, ops[0]);
    if i > 0 {
      AnswerAt(cmp, next, ops[1..], i - 1);
      assert ops[..i][0] == ops[0] && ops[..i][1..] == ops[1..][..i - 1];
    } else if |ops| > 1 {
      AnswerAt(cmp, next, ops[1..], 0);
    } else {
      assert ops[1..] == [];
    }
  }

  /** An insertion succeeds exactly when the key is not present, a search and a
      removal exactly when it is. */
  ghost predicate AnsweredByHistory(cmp: Compare, ops: seq<Op>, answers: seq<bool>) {
    |answers| == |ops| &&
    forall i :: 0 <= i < |ops| ==>
      match ops[i]
      case Insert(key) => answers[i] <==> !Present(cmp, ops[..i], key)
      case Find(key) => answers[i] <==> Present(cmp, ops[..i], key)
      case Remove(key) => answers[i] <==> Present(cmp, ops[..i], key)
  }

  lemma {:induction false} SetAnswersByHistory(cmp: Compare, ops: seq<Op>)
    requires Order(cmp)
    ensures AnsweredByHistory(cmp, ops, SetAnswers(cmp, {}, ops))
  {
    if ops != [] {
      AnswerAt(cmp, {}, ops, 0);
    }
    forall i | 0 <= i < |ops|
      ensures SetAnswers(cmp, {}, ops)[i] <==> (ops[i].Insert? != Present(cmp, ops[..i], ops[i].key))
    {
      AnswerAt(cmp, {}, ops, i);
      HasIffPresent(cmp, ops[..i], ops[i].key);
    }
  }

  /** From the empty AVL tree, any operations are answered like the set does. */
  method RunAvl(ops: seq<Op>, cmp: Compare) returns (answers: seq<bool>)
    requires Order(cmp)
    ensures answers == SetAnswers(cmp, {}, ops) && AnsweredByHistory(cmp, ops, answers)
  {
    SetAnswersByHistory(cmp, ops);
    var tree := new Root();
    answers := [];
    ghost var live: set<int> := {};
    ghost var all := SetAnswers(cmp, {}, ops);
    assert ops[0..] == ops;
    for i := 0 to |ops|
      invariant fresh(tree) && fresh(Nodes(tree.tree))
      invariant A.Valid(tree) && Sorted(cmp, Inorder(tree.tree)) && live == Keys(Inorder(tree.tree))
      invariant answers + SetAnswers(cmp, live, ops[i..]) == all
    {
      NextAnswer(cmp, live, ops, i, answers);
      live := Live(cmp, live, ops[i]);
      ghost var known := Nodes(tree.tree);
      label before:
      var answer := AvlDo(tree, ops[i], cmp);
      ghost var now := Nodes(tree.tree);
      assert forall n :: n in now ==> n in known || fresh@before(n);
      answers := answers + [answer];
    }
  }

  /** And so are they from the empty red-black tree: the two answer alike. */
  method RunRb(ops: seq<Op>, cmp: Compare) returns (answers: seq<bool>)
    requires Order(cmp)
    ensures answers == SetAnswers(cmp, {}, ops) && AnsweredByHistory(cmp, ops, answers)
  {
    SetAnswersByHistory(cmp, ops);
    var root := new Root();
    answers := [];
    ghost var live: set<int> := {};
    ghost var all := SetAnswers(cmp, {}, ops);
    assert ops[0..] == ops;
    for i := 0 to |ops|
      invariant fresh(root) && fresh(Nodes(root.tree))
      invariant R.Valid(root) && Sorted(cmp, Inorder(root.tree)) && live == Keys(Inorder(root.tree))
      invariant answers + SetAnswers(cmp, live, ops[i..]) == all
    {
      NextAnswer(cmp, live, ops, i, answers);
      live := Live(cmp, live, ops[i]);
      ghost var known := Nodes(root.tree);
      label before:
      var answer := RbDo(root, ops[i], cmp);
      ghost var now := Nodes(root.tree);
      assert forall n :: n in now ==> n in known || fresh@before(n);
      answers := answers + [answer];
    }
  }
}
