/** The binary heap of min-heap.h, over integer keys. */
module MinHeap {

  datatype Outcome =
    | Added
    | Empty           // throws because the heap is empty
    | Got(key: int)
    | Overrun         // writes to element 0 of a vector that has none

  function Parent(i: nat): nat {
    if i == 0 then 0 else (i - 1) / 2
  }

  predicate Ordered(h: seq<int>) {
    forall i :: 1 <= i < |h| ==> h[Parent(i)] <= h[i]
  }

  function Swapped(h: seq<int>, a: nat, b: nat): (r: seq<int>)
    requires a < |h| && b < |h|
    ensures |r| == |h| && multiset(r) == multiset(h)
  {
    h[a := h[b]][b := h[a]]
  }

  // ----- sifting -----

  function SiftUp(h: seq<int>, i: nat): (r: seq<int>)
    requires i < |h|
    ensures |r| == |h| && multiset(r) == multiset(h)
    decreases i
  {
    if i != 0 && h[Parent(i)] > h[i] then SiftUp(Swapped(h, Parent(i), i), Parent(i)) else h
  }

  /** The index that `sift_down` swaps with: a child smaller than `h[i]`, the smaller of two. */
  function Smallest(h: seq<int>, i: nat): (k: nat)
    requires i < |h|
    ensures k < |h| && (k == i || k == 2 * i + 1 || k == 2 * i + 2)
    ensures h[k] <= h[i] && (k != i ==> h[k] < h[i])
    ensures 2 * i + 1 < |h| ==> h[k] <= h[2 * i + 1]
    ensures 2 * i + 2 < |h| ==> h[k] <= h[2 * i + 2]
  {
    var k := if 2 * i + 1 < |h| && h[i] > h[2 * i + 1] then 2 * i + 1 else i;
    if 2 * i + 2 < |h| && h[k] > h[2 * i + 2] then 2 * i + 2 else k
  }

  function SiftDown(h: seq<int>, i: nat): (r: seq<int>)
    requires i < |h|
    ensures |r| == |h| && multiset(r) == multiset(h)
    decreases |h| - i
  {
    var k := Smallest(h, i);
    if k != i then SiftDown(Swapped(h, k, i), k) else h
  }

  /** Ordered but for `h[i]`, which may be smaller than its parent. */
  predicate OrderedAbove(h: seq<int>, i: nat) {
    forall j :: 1 <= j < |h| ==>
      && (j != i ==> h[Parent(j)] <= h[j])
      && (Parent(j) == i ==> h[Parent(i)] <= h[j])
  }

  /** Ordered but for `h[i]`, which may be larger than its children. */
  predicate OrderedBelow(h: seq<int>, i: nat) {
    forall j :: 1 <= j < |h| ==>
      && (Parent(j) != i ==> h[Parent(j)] <= h[j])
      && (Parent(j) == i && i != 0 ==> h[Parent(i)] <= h[j])
  }

  lemma {:induction false} SwapAbove(h: seq<int>, i: nat)
    requires 0 < i < |h| && OrderedAbove(h, i) && h[Parent(i)] > h[i]
    ensures OrderedAbove(Swapped(h, Parent(i), i), Parent(i))
  {
    var p, s := Parent(i), Swapped(h, Parent(i), i);
    forall j | 1 <= j < |s|
      ensures (j != p ==> s[Parent(j)] <= s[j]) && (Parent(j) == p ==> s[Parent(p)] <= s[j])
    {
      assert j != i ==> h[Parent(j)] <= h[j];
      assert Parent(j) == i ==> h[p] <= h[j];
      assert p > 0 ==> h[Parent(p)] <= h[p];
    }
  }

  lemma {:induction false} SiftUpOrders(h: seq<int>, i: nat)
    requires i < |h| && OrderedAbove(h, i)
    ensures Ordered(SiftUp(h, i))
    decreases i
  {
    if i != 0 && h[Parent(i)] > h[i] {
      SwapAbove(h, i);
      SiftUpOrders(Swapped(h, Parent(i), i), Parent(i));
    }
  }

  lemma {:induction false} SiftDownOrders(h: seq<int>, i: nat)
    requires i < |h| && OrderedBelow(h, i)
    ensures Ordered(SiftDown(h, i))
    decreases |h| - i
  {
    var k := Smallest(h, i);
    if k != i {
      SiftDownOrders(Swapped(h, k, i), k);
    }
  }

  lemma {:induction false} RootIsLeast(h: seq<int>, i: nat)
    requires Ordered(h) && i < |h|
    ensures h[0] <= h[i]
    decreases i
  {
    if i > 0 {
      RootIsLeast(h, Parent(i));
    }
  }

  // ----- insert and extract -----

  function Inserted(h: seq<int>, key: int): seq<int> {
    SiftUp(h + [key], |h|)
  }

  /** What `remove_if` keeps: all elements that differ from `x`. */
  function Kept(h: seq<int>, x: int): seq<int> {
    if h == [] then [] else (if h[0] == x then [] else [h[0]]) + Kept(h[1..], x)
  }

  function Answer(h: seq<int>): Outcome {
    if h == [] then Empty
    else if |h| == 1 then Got(h[0])
    else if Kept(h, h[|h| - 1]) == [] then Overrun
    else Got(h[0])
  }

  function Extracted(h: seq<int>): seq<int>
    requires !Answer(h).Overrun?
  {
    if |h| <= 1 then []
    else
      var last := h[|h| - 1];
      SiftDown(Kept(h, last)[0 := last], 0)
  }

  lemma {:induction false} InsertedIsHeap(h: seq<int>, key: int)
    requires Ordered(h)
    ensures Ordered(Inserted(h, key))
    ensures multiset(Inserted(h, key)) == multiset(h) + multiset{key}
  {
    SiftUpOrders(h + [key], |h|);
  }

  lemma {:induction false} KeptStep(a: int, h: seq<int>, x: int)
    ensures Kept([a] + h, x) == (if a == x then [] else [a]) + Kept(h, x)
  {
    assert ([a] + h)[1..] == h;
  }

  lemma {:induction false} KeptLength(h: seq<int>, x: int)
    ensures |Kept(h, x)| == |h| - multiset(h)[x]
    decreases |h|
  {
    if h != [] {
      KeptLength(h[1..], x);
      assert h == [h[0]] + h[1..];
    }
  }

  lemma {:induction false} KeptAll(h: seq<int>, x: int)
    requires x !in h
    ensures Kept(h, x) == h
    decreases |h|
  {
    if h != [] {
      KeptAll(h[1..], x);
    }
  }

  lemma {:induction false} KeptButLast(h: seq<int>, x: int)
    requires x !in h
    ensures Kept(h + [x], x) == h
    decreases |h|
  {
    if h == [] {
      assert Kept([x], x) == Kept([x][1..], x);
    } else {
      KeptButLast(h[1..], x);
      assert (h + [x])[1..] == h[1..] + [x];
    }
  }

  /** `remove_if` keeps the order of what it keeps. */
  lemma {:induction false} KeptConcat(a: seq<int>, b: seq<int>, x: int)
    ensures Kept(a + b, x) == Kept(a, x) + Kept(b, x)
    decreases |a|
  {
    if a == [] {
      assert a + b == b;
    } else {
      var rest := a[1..];
      KeptConcat(rest, b, x);
      KeptStep(a[0], rest, x);
      KeptStep(a[0], rest + b, x);
      assert a == [a[0]] + rest && a + b == [a[0]] + (rest + b);
    }
  }

  /** It keeps every element that differs from `x`, as often as it occurs. */
  lemma {:induction false} KeptCount(h: seq<int>, x: int, y: int)
    ensures multiset(Kept(h, x))[y] == if y == x then 0 else multiset(h)[y]
    decreases |h|
  {
    if h != [] {
      KeptCount(h[1..], x, y);
      var k := Kept(h[1..], x);
      assert h == [h[0]] + h[1..];
      assert multiset([h[0]] + k)[y] == multiset([h[0]])[y] + multiset(k)[y];
      assert multiset([h[0]] + h[1..])[y] == multiset([h[0]])[y] + multiset(h[1..])[y];
    }
  }

  lemma {:induction false} KeptFirst(h: seq<int>, x: int) returns (i: nat)
    ensures Kept(h, x) == [] ==> i == |h|
    ensures Kept(h, x) != [] ==> i < |h| && h[i] == Kept(h, x)[0] && h[i] != x
    ensures i <= |h| && forall j :: 0 <= j < i ==> h[j] == x
    decreases |h|
  {
    if h == [] || h[0] != x {
      i := 0;
    } else {
      var k := KeptFirst(h[1..], x);
      i := k + 1;
      assert forall j :: 0 < j < i ==> h[j] == h[1..][j - 1];
    }
  }

  /** `extract` writes out of bounds exactly when the heap holds two or more keys
      and all of them are equal. */
  lemma {:induction false} OverrunIff(h: seq<int>)
    ensures Answer(h).Overrun? <==> |h| >= 2 && forall x :: x in h ==> x == h[0]
  {
    if |h| >= 2 {
      var last := h[|h| - 1];
      var i := KeptFirst(h, last);
      if i < |h| {
        assert h[i] in h && last in h;
      }
    }
  }

  /** What is left otherwise: the key of the first element that differs from the
      last one is overwritten by the last key, of which all copies but that are gone. */
  lemma {:induction false} ExtractedContents(h: seq<int>) returns (i: nat)
    requires |h| >= 2 && !Answer(h).Overrun?
    ensures i < |h| && h[i] != h[|h| - 1] && forall j :: 0 <= j < i ==> h[j] == h[|h| - 1]
    ensures multiset(Extracted(h)) == multiset(h)[h[|h| - 1] := 1] - multiset{h[i]}
  {
    var last := h[|h| - 1];
    var k := Kept(h, last);
    i := KeptFirst(h, last);
    var first := h[i];
    assert k == [first] + k[1..] && k[0 := last] == [last] + k[1..];
    var left, expected := multiset(k[0 := last]), multiset(h)[last := 1] - multiset{first};
    forall y
      ensures left[y] == expected[y]
    {
      KeptCount(h, last, y);
      assert multiset([first] + k[1..])[y] == multiset([first])[y] + multiset(k[1..])[y];
      assert multiset([last] + k[1..])[y] == multiset([last])[y] + multiset(k[1..])[y];
    }
    assert left == expected;
  }

  /** It is a heap again if erasing has left everything below the root in order. */
  lemma {:induction false} ExtractedOrdered(h: seq<int>)
    requires |h| >= 2 && !Answer(h).Overrun?
    requires var last := h[|h| - 1]; OrderedBelow(Kept(h, last)[0 := last], 0)
    ensures Ordered(Extracted(h))
  {
    var last := h[|h| - 1];
    SiftDownOrders(Kept(h, last)[0 := last], 0);
  }

  /** `extract` does what it is for: it returns a least key and removes that one only. */
  predicate ExtractsMinimum(h: seq<int>)
    requires h != []
  {
    && Answer(h) == Got(h[0])
    && (forall x :: x in h ==> h[0] <= x)
    && Ordered(Extracted(h))
    && multiset(Extracted(h)) == multiset(h) - multiset{h[0]}
  }

  predicate LastIsUnique(h: seq<int>)
    requires h != []
  {
    h[|h| - 1] !in h[..|h| - 1]
  }

  lemma {:induction false} LeastFirst(h: seq<int>)
    requires Ordered(h) && h != []
    ensures forall x :: x in h ==> h[0] <= x
  {
    forall x | x in h
      ensures h[0] <= x
    {
      var i :| 0 <= i < |h| && h[i] == x;
      RootIsLeast(h, i);
    }
  }

  /** The last element moved over the first. */
  lemma {:induction false} LastToFront(h: seq<int>)
    requires |h| >= 2
    ensures var n := |h| - 1; multiset(h[..n][0 := h[n]]) == multiset(h) - multiset{h[0]}
  {
    var n := |h| - 1;
    var k := h[..n];
    assert h == [h[0]] + k[1..] + [h[n]];
    assert k[0 := h[n]] == [h[n]] + k[1..];
  }

  lemma {:induction false} UniqueExtracts(h: seq<int>)
    requires Ordered(h) && h != [] && LastIsUnique(h)
    ensures ExtractsMinimum(h)
  {
    LeastFirst(h);
    var n := |h| - 1;
    if n == 0 {
      assert h == [h[0]];
    } else {
      assert h == h[..n] + [h[n]];
      KeptButLast(h[..n], h[n]);
      LastToFront(h);
      SiftDownOrders(h[..n][0 := h[n]], 0);
    }
  }

  lemma {:induction false} LastCounted(h: seq<int>)
    requires h != []
    ensures LastIsUnique(h) <==> multiset(h)[h[|h| - 1]] == 1
  {
    var n := |h| - 1;
    assert h == h[..n] + [h[n]];
    assert multiset(h) == multiset(h[..n]) + multiset{h[n]};
    assert h[n] in h[..n] <==> h[n] in multiset(h[..n]);
  }

  lemma {:induction false} ExtractedLength(h: seq<int>)
    requires |h| >= 2 && !Answer(h).Overrun?
    ensures |Extracted(h)| == |h| - multiset(h)[h[|h| - 1]]
  {
    KeptLength(h, h[|h| - 1]);
  }

  /** `extract` erases every key equal to the last one, so it removes exactly the
      minimum if and only if the last key occurs once. */
  lemma {:induction false} ExtractsMinimumIff(h: seq<int>)
    requires Ordered(h) && h != []
    ensures ExtractsMinimum(h) <==> LastIsUnique(h)
  {
    if LastIsUnique(h) {
      UniqueExtracts(h);
    } else if ExtractsMinimum(h) {
      LastCounted(h);
      assert |multiset(h) - multiset{h[0]}| == |h| - 1;
      assert |Extracted(h)| == |multiset(Extracted(h))|;
      if |h| >= 2 {
        ExtractedLength(h);
      }
      assert false;
    }
  }

  lemma {:induction false} KeptExample()
    ensures Kept([1, 4, 1, 5, 5, 1, 5], 5) == [1, 4, 1, 1] && Kept([5, 5], 5) == []
  {
    KeptStep(1, [4, 1, 5, 5, 1, 5], 5);
    KeptStep(4, [1, 5, 5, 1, 5], 5);
    KeptStep(1, [5, 5, 1, 5], 5);
    KeptStep(5, [5, 1, 5], 5);
    KeptStep(5, [1, 5], 5);
    KeptStep(1, [5], 5);
    KeptStep(5, [], 5);
    KeptStep(5, [5], 5);
    assert [1, 4, 1, 5, 5, 1, 5] == [1] + [4, 1, 5, 5, 1, 5];
    assert [4, 1, 5, 5, 1, 5] == [4] + [1, 5, 5, 1, 5];
    assert [1, 5, 5, 1, 5] == [1] + [5, 5, 1, 5];
    assert [5, 5, 1, 5] == [5] + [5, 1, 5] && [5, 1, 5] == [5] + [1, 5];
    assert [1, 5] == [1] + [5] && [5, 5] == [5] + [5] && [5] == [5] + [];
  }

  lemma {:induction false} SiftExample(k: seq<int>)
    requires k == [5, 4, 1, 1]
    ensures SiftDown(k, 0) == [1, 4, 5, 1] && !Ordered(SiftDown(k, 0))
  {
    var r := Swapped(k, 2, 0);
    assert r == [1, 4, 5, 1];
    assert Smallest(k, 0) == 2 && Smallest(r, 2) == 2;
    assert SiftDown(r, 2) == r;
    assert r[Parent(3)] > r[3];
  }

  lemma {:induction false} OrderedExample(h: seq<int>)
    requires h == [1, 4, 1, 5, 5, 1, 5]
    ensures Ordered(h)
  {
    forall i | 1 <= i < |h|
      ensures h[Parent(i)] <= h[i]
    {
      assert i == 1 || i == 2 || i == 3 || i == 4 || i == 5 || i == 6;
    }
  }

  /** A heap on which `extract` loses keys and breaks the order. */
  lemma {:induction false} DuplicatesBreakExtract(h: seq<int>)
    requires h == [1, 4, 1, 5, 5, 1, 5]
    ensures Ordered(h) && Answer(h) == Got(1)
    ensures Extracted(h) == [1, 4, 5, 1] && !Ordered(Extracted(h))
  {
    OrderedExample(h);
    KeptExample();
    ExtractedFrom(h, [1, 4, 1, 1]);
    FrontExample([1, 4, 1, 1]);
    SiftExample([5, 4, 1, 1]);
  }

  lemma {:induction false} FrontExample(k: seq<int>)
    requires k == [1, 4, 1, 1]
    ensures k[0 := 5] == [5, 4, 1, 1]
  {
  }

  lemma {:induction false} ExtractedFrom(h: seq<int>, k: seq<int>)
    requires |h| >= 2 && k != [] && Kept(h, h[|h| - 1]) == k
    ensures Answer(h) == Got(h[0]) && Extracted(h) == SiftDown(k[0 := h[|h| - 1]], 0)
  {
  }

  /** A heap on which `extract` writes out of bounds. */
  lemma {:induction false} EqualKeysOverrun(h: seq<int>)
    requires h == [5, 5]
    ensures Ordered(h) && Answer(h) == Overrun
  {
    KeptExample();
  }

  // ----- runs with distinct live keys -----

  datatype Op = Insert(key: int) | Extract

  lemma {:induction false} LeastExists(live: set<int>)
    requires live != {}
    ensures exists m :: m in live && forall x :: x in live ==> m <= x
    decreases |live|
  {
    assert (forall k :: k !in live) ==> live == {};
    var k :| k in live;
    var rest := live - {k};
    if rest == {} {
      assert forall x :: x in live ==> x == k || x in rest;
    } else {
      LeastExists(rest);
      var m :| m in rest && forall x :: x in rest ==> m <= x;
      var n := if k < m then k else m;
      assert forall x :: x in live ==> x == k || x in rest;
      assert n in live && forall x :: x in live ==> n <= x;
    }
  }

  ghost function Least(live: set<int>): (m: int)
    requires live != {}
    ensures m in live && forall x :: x in live ==> m <= x
  {
    LeastExists(live);
    var m :| m in live && forall x :: x in live ==> m <= x;
    m
  }

  /** The answers of a set of keys from which `Extract` takes the least. */
  ghost function SetAnswers(live: set<int>, ops: seq<Op>): seq<Outcome>
    decreases |ops|
  {
    if ops == [] then []
    else
      match ops[0]
      case Insert(key) => [Added] + SetAnswers(live + {key}, ops[1..])
      case Extract =>
        if live == {} then [Empty] + SetAnswers(live, ops[1..])
        else [Got(Least(live))] + SetAnswers(live - {Least(live)}, ops[1..])
  }

  /** Every key is inserted while it is not in the set. */
  ghost predicate Legal(live: set<int>, ops: seq<Op>)
    decreases |ops|
  {
    ops == [] ||
    match ops[0]
    case Insert(key) => key !in live && Legal(live + {key}, ops[1..])
    case Extract => Legal(if live == {} then live else live - {Least(live)}, ops[1..])
  }

  /** The answers of the heap; an operation that goes out of bounds ends the run. */
  function HeapAnswers(h: seq<int>, ops: seq<Op>): seq<Outcome>
    decreases |ops|
  {
    if ops == [] then []
    else
      match ops[0]
      case Insert(key) => [Added] + HeapAnswers(Inserted(h, key), ops[1..])
      case Extract =>
        if Answer(h).Overrun? then [Overrun]
        else [Answer(h)] + HeapAnswers(Extracted(h), ops[1..])
  }

  ghost predicate Unique(h: seq<int>) {
    forall x :: multiset(h)[x] <= 1
  }

  predicate Holds(h: seq<int>, live: set<int>) {
    Ordered(h) && multiset(h) == multiset(live)
  }

  lemma {:induction false} ExtractShrinks(h: seq<int>)
    requires h != [] && Ordered(h) && Unique(h)
    ensures !Answer(h).Overrun? && |Extracted(h)| == |h| - 1 && Ordered(Extracted(h)) && Unique(Extracted(h))
    ensures ExtractsMinimum(h)
  {
    LastCounted(h);
    var last := h[|h| - 1];
    assert last in multiset(h) && multiset(h)[last] <= 1;
    UniqueExtracts(h);
    assert |multiset(Extracted(h))| == |h| - 1;
  }

  lemma {:induction false} HoldsExtracts(h: seq<int>, live: set<int>)
    requires Holds(h, live) && h != []
    ensures live != {} && h[0] == Least(live)
    ensures Answer(h) == Got(h[0]) && Holds(Extracted(h), live - {h[0]})
  {
    assert Unique(h);
    ExtractShrinks(h);
    var least := h[0];
    assert least in multiset(h);
    assert forall x :: x in live ==> x in multiset(h);
    assert Least(live) in h && least in live;
    assert multiset(live) - multiset{least} == multiset(live - {least});
  }

  /** On every run that never inserts a live key the heap answers like a set. */
  lemma {:induction false} HeapRefinesSet(h: seq<int>, live: set<int>, ops: seq<Op>)
    requires Holds(h, live) && Legal(live, ops)
    ensures HeapAnswers(h, ops) == SetAnswers(live, ops)
    decreases |ops|
  {
    if ops != [] {
      match ops[0]
      case Insert(key) =>
        InsertedIsHeap(h, key);
        assert multiset(live) + multiset{key} == multiset(live + {key});
        HeapRefinesSet(Inserted(h, key), live + {key}, ops[1..]);
      case Extract =>
        if h == [] {
          assert live == {} by {
            assert forall x :: x in live ==> x in multiset(live);
          }
          HeapRefinesSet([], live, ops[1..]);
        } else {
          HoldsExtracts(h, live);
          HeapRefinesSet(Extracted(h), live - {h[0]}, ops[1..]);
        }
    }
  }

  /** What repeated `extract` returns. */
  ghost function Drained(h: seq<int>): seq<int>
    requires Ordered(h) && Unique(h)
    decreases |h|
  {
    if h == [] then []
    else
      ExtractShrinks(h);
      [h[0]] + Drained(Extracted(h))
  }

  lemma {:induction false} LeastBelow(h: seq<int>, x: int)
    requires h != [] && Unique(h) && ExtractsMinimum(h) && x in Extracted(h)
    ensures h[0] < x
  {
    var least := h[0];
    assert least in h && least in multiset(h) && multiset(h)[least] <= 1;
    assert least !in multiset(Extracted(h));
    assert x in multiset(Extracted(h));
    assert x in multiset(h) && x in h;
  }

  lemma {:induction false} RestAndLeast(h: seq<int>)
    requires h != [] && ExtractsMinimum(h)
    ensures multiset(h) == multiset([h[0]]) + multiset(Extracted(h))
  {
    var least := h[0];
    assert least in h && least in multiset(h);
  }

  lemma {:induction false} DrainKeeps(h: seq<int>)
    requires Ordered(h) && Unique(h)
    ensures multiset(Drained(h)) == multiset(h)
    decreases |h|
  {
    if h != [] {
      ExtractShrinks(h);
      DrainKeeps(Extracted(h));
      RestAndLeast(h);
      var rest := Drained(Extracted(h));
      assert multiset([h[0]] + rest) == multiset([h[0]]) + multiset(rest);
    }
  }

  predicate Ascending(s: seq<int>) {
    forall i, j :: 0 <= i < j < |s| ==> s[i] < s[j]
  }

  lemma {:induction false} AscendingFrom(a: int, s: seq<int>)
    requires Ascending(s) && forall x :: x in s ==> a < x
    ensures Ascending([a] + s)
  {
    forall i, j | 0 <= i < j < |[a] + s|
      ensures ([a] + s)[i] < ([a] + s)[j]
    {
      assert s[j - 1] in s;
    }
  }

  /** Draining a heap of distinct keys lists them in ascending order. */
  lemma {:induction false} DrainSorts(h: seq<int>)
    requires Ordered(h) && Unique(h)
    ensures multiset(Drained(h)) == multiset(h) && Ascending(Drained(h))
    decreases |h|
  {
    DrainKeeps(h);
    if h != [] {
      ExtractShrinks(h);
      var less := Extracted(h);
      DrainSorts(less);
      forall x | x in Drained(less)
        ensures h[0] < x
      {
        assert x in multiset(Drained(less));
        LeastBelow(h, x);
      }
      AscendingFrom(h[0], Drained(less));
    }
  }

  // ----- the container itself -----

  class Heap {
    var heap: seq<int>

    constructor ()
      ensures heap == []
    {
      heap := [];
    }

    method Swap(a: nat, b: nat)
      requires a < |heap| && b < |heap|
      modifies this
      ensures heap == Swapped(old(heap), a, b)
    {
      var tmp := heap[a];
      heap := heap[a := heap[b]];
      heap := heap[b := tmp];
    }

    method SiftUpFrom(idx: nat)
      requires idx < |heap|
      modifies this
      ensures heap == SiftUp(old(heap), idx)
    {
      var parent: nat := Parent(idx);
      var i: nat := idx;
      while i != 0 && heap[parent] > heap[i]
        invariant i < |heap| && parent == Parent(i)
        invariant SiftUp(heap, i) == SiftUp(old(heap), idx)
        decreases i
      {
        Swap(parent, i);
        i := parent;
        parent := Parent(i);
      }
    }

    method SiftDownFrom(idx: nat)
      requires idx < |heap|
      modifies this
      ensures heap == SiftDown(old(heap), idx)
      decreases |heap| - idx
    {
      var i: nat := idx;
      var l := 2 * idx + 1;
      var r := 2 * idx + 2;
      var count := |heap|;
      if l < count && heap[i] > heap[l] {
        i := l;
      }
      if r < count && heap[i] > heap[r] {
        i := r;
      }
      ghost var k := Smallest(heap, idx);
      assert i == k;
      if i != idx {
        Swap(i, idx);
        SiftDownFrom(i);
      }
    }

    method Insert(key: int) returns (ok: bool)
      modifies this
      ensures ok && heap == Inserted(old(heap), key)
      ensures Ordered(old(heap)) ==> Ordered(heap) && multiset(heap) == multiset(old(heap)) + multiset{key}
    {
      ghost var was := heap;
      heap := heap + [key];
      SiftUpFrom(|heap| - 1);
      if Ordered(was) {
        InsertedIsHeap(was, key);
      }
      return true;
    }

    method Extract() returns (r: Outcome)
      modifies this
      ensures r == Answer(old(heap))
      ensures heap == if r.Overrun? then [] else Extracted(old(heap))
      ensures r.Empty? <==> old(heap) == []
      ensures r.Overrun? <==> |old(heap)| >= 2 && forall x :: x in old(heap) ==> x == old(heap)[0]
      ensures r.Got? ==> r.key == old(heap)[0]
    {
      OverrunIff(heap);
      if heap == [] {
        return Empty;
      }
      var least := heap[0];
      if |heap| == 1 {
        heap := heap[..|heap| - 1];
        return Got(least);
      }
      var last := heap[|heap| - 1];
      heap := Kept(heap, last);
      if heap == [] {
        return Overrun;
      }
      heap := heap[0 := last];
      SiftDownFrom(0);
      return Got(least);
    }

    method Min() returns (r: Outcome)
      ensures heap == [] ==> r == Empty
      ensures heap != [] && Ordered(heap) ==> r.Got? && r.key in heap && forall x :: x in heap ==> r.key <= x
    {
      if heap == [] {
        return Empty;
      }
      if Ordered(heap) {
        LeastFirst(heap);
      }
      return Got(heap[0]);
    }
  }
}
