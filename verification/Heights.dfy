/** How high the trees can get. */
module Heights {
  import opened Trees
  import opened AvlShape
  import opened RbShape

  function Fib(n: nat): nat {
    if n < 2 then n else Fib(n - 2) + Fib(n - 1)
  }

  function Pow2(n: nat): nat {
    if n == 0 then 1 else 2 * Pow2(n - 1)
  }

  lemma {:induction false} FibMonotone(m: nat, n: nat)
    requires m <= n
    ensures Fib(m) <= Fib(n)
    decreases n
  {
    if m < n {
      FibMonotone(m, n - 1);
    }
  }

  /** An AVL tree of height `h` has at least `Fib(h + 2) - 1` nodes. */
  lemma {:induction false} AvlSize(t: Tree)
    requires Avl(t)
    ensures Fib(Height(t) + 2) <= |Inorder(t)| + 1
  {
    if t.Fork? {
      AvlSize(t.left);
      AvlSize(t.right);
      var h := Height(t);
      FibMonotone(h, Height(t.left) + 2);
      FibMonotone(h, Height(t.right) + 2);
    }
  }

  lemma {:induction false} Pow2Positive(n: nat)
    ensures Pow2(n) >= 1
  {
    if n > 0 {
      Pow2Positive(n - 1);
    }
  }

  lemma {:induction false} Pow2Sum(m: nat, n: nat)
    ensures Pow2(m + n) == Pow2(m) * Pow2(n)
    decreases m
  {
    if m > 0 {
      Pow2Sum(m - 1, n);
      assert Pow2(m + n) == 2 * Pow2(m - 1 + n);
    }
  }

  lemma {:induction false} Pow2Monotone(m: nat, n: nat)
    requires m <= n
    ensures Pow2(m) <= Pow2(n)
    decreases n
  {
    if m < n {
      Pow2Monotone(m, n - 1);
    }
  }

  /** A red-black tree has at least `2^b - 1` nodes for its black height `b`, and
      is at most twice as high as that, plus one below a red root. */
  lemma {:induction false} RbSize(t: Tree)
    requires Rb(t)
    ensures BlackHeight(t) >= 0
    ensures Pow2(BlackHeight(t)) <= |Inorder(t)| + 1
    ensures Height(t) <= 2 * BlackHeight(t) + (if Red(t) then 1 else 0)
  {
    if t.Fork? {
      RbSize(t.left);
      RbSize(t.right);
    }
  }

  /** The height of a red-black tree with `n` nodes is at most twice the binary
      logarithm of `n + 1`. */
  lemma {:induction false} RbHeight(t: Tree)
    requires RedBlack(t)
    ensures Pow2(Height(t)) <= (|Inorder(t)| + 1) * (|Inorder(t)| + 1)
  {
    RbSize(t);
    var b, n := BlackHeight(t), |Inorder(t)| + 1;
    Pow2Monotone(Height(t), b + b);
    Pow2Sum(b, b);
    Pow2Positive(b);
    SquareMonotone(Pow2(b), n);
  }

  lemma {:induction false} SquareMonotone(a: nat, b: nat)
    requires a <= b
    ensures a * a <= b * b
  {
    assert a * a <= a * b <= b * b;
  }

  /** How many rounds `avl_search` can take in a tree of `n` nodes. */
  lemma {:induction false} AvlRounds(t: Tree, rounds: nat)
    requires Avl(t) && rounds <= Height(t)
    ensures Fib(rounds + 2) <= |Inorder(t)| + 1
  {
    AvlSize(t);
    FibMonotone(rounds + 2, Height(t) + 2);
  }

  /** How many rounds `rbwrap_search` can take in a tree of `n` nodes. */
  lemma {:induction false} RbRounds(t: Tree, rounds: nat)
    requires RedBlack(t) && rounds <= Height(t)
    ensures Pow2(rounds) <= (|Inorder(t)| + 1) * (|Inorder(t)| + 1)
  {
    RbHeight(t);
    Pow2Monotone(rounds, Height(t));
  }
}
