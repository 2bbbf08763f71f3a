/** The prefix table of kmp.cpp. */
module Kmp {

  /** `k` is the length of a proper border of the first `m` characters. */
  predicate Border(p: seq<char>, m: nat, k: nat)
    requires m <= |p|
  {
    k < m && p[..k] == p[m - k..m]
  }

  function LongestUpTo(p: seq<char>, m: nat, k: nat): nat
    requires k < m <= |p|
  {
    if k == 0 || Border(p, m, k) then k else LongestUpTo(p, m, k - 1)
  }

  /** The length of the longest proper border, by trying all lengths. */
  function Longest(p: seq<char>, m: nat): nat
    requires 0 < m <= |p|
  {
    LongestUpTo(p, m, m - 1)
  }

  lemma {:induction false} LongestUpToBounds(p: seq<char>, m: nat, k: nat, j: nat)
    requires j <= k < m <= |p| && Border(p, m, j)
    ensures Border(p, m, LongestUpTo(p, m, k)) && j <= LongestUpTo(p, m, k)
  {
    if k != 0 && !Border(p, m, k) {
      LongestUpToBounds(p, m, k - 1, j);
    }
  }

  /** It is a border, and no border is longer. */
  lemma {:induction false} LongestIsBorder(p: seq<char>, m: nat)
    requires 0 < m <= |p|
    ensures Border(p, m, Longest(p, m))
    ensures forall j: nat :: Border(p, m, j) ==> j <= Longest(p, m)
  {
    assert Border(p, m, 0);
    forall j: nat | Border(p, m, j)
      ensures j <= Longest(p, m) && Border(p, m, Longest(p, m))
    {
      LongestUpToBounds(p, m, m - 1, j);
    }
  }

  lemma {:induction false} BorderExtends(p: seq<char>, m: nat, k: nat)
    requires m < |p| && k < m
    ensures Border(p, m + 1, k + 1) <==> Border(p, m, k) && p[k] == p[m]
  {
    var s, t := p[..k + 1], p[m - k..m + 1];
    assert s == p[..k] + [p[k]];
    assert t == p[m - k..m] + [p[m]];
    assert s == t ==> s[..k] == t[..k] && s[k] == t[k];
    assert s[..k] == p[..k] && t[..k] == p[m - k..m];
  }

  lemma {:induction false} BorderOfBorder(p: seq<char>, m: nat, k: nat, j: nat)
    requires m <= |p| && Border(p, m, k) && j < k
    ensures Border(p, k, j) <==> Border(p, m, j)
  {
    assert p[k - j..k] == p[..k][k - j..];
    assert p[m - j..m] == p[m - k..m][k - j..];
  }

  /** What the loop knows of `len` when it looks at the character `p[m]`:
      a border that no border of one more character outgrows by more than one. */
  predicate Candidate(p: seq<char>, m: nat, len: nat)
    requires m < |p|
  {
    Border(p, m, len) && Longest(p, m + 1) <= len + 1
  }

  /** A border of one more character extends a border. */
  lemma {:induction false} LongestShrinks(p: seq<char>, m: nat)
    requires 1 <= m < |p|
    ensures var k := Longest(p, m + 1);
      k > 0 ==> Border(p, m, k - 1) && p[k - 1] == p[m] && k - 1 <= Longest(p, m)
  {
    LongestIsBorder(p, m + 1);
    LongestIsBorder(p, m);
    var k := Longest(p, m + 1);
    if k > 0 {
      BorderExtends(p, m, k - 1);
    }
  }

  lemma {:induction false} NextCandidate(p: seq<char>, m: nat)
    requires 1 <= m <= |p|
    ensures m < |p| ==> Candidate(p, m, Longest(p, m))
  {
    LongestIsBorder(p, m);
    if m < |p| {
      LongestShrinks(p, m);
    }
  }

  /** The characters agree: the border grows by one. */
  lemma {:induction false} Agree(p: seq<char>, m: nat, len: nat)
    requires 1 <= m < |p| && Candidate(p, m, len) && p[m] == p[len]
    ensures Longest(p, m + 1) == len + 1
    ensures m + 1 < |p| ==> Candidate(p, m + 1, len + 1)
  {
    BorderExtends(p, m, len);
    LongestIsBorder(p, m + 1);
    NextCandidate(p, m + 1);
  }

  /** They differ: the next candidate is the longest border of the border. */
  lemma {:induction false} FallBack(p: seq<char>, m: nat, len: nat)
    requires 1 <= len && m < |p| && Candidate(p, m, len) && p[m] != p[len]
    ensures Longest(p, len) < len && Candidate(p, m, Longest(p, len))
  {
    LongestIsBorder(p, len);
    BorderOfBorder(p, m, len, Longest(p, len));
    LongestShrinks(p, m);
    var k := Longest(p, m + 1);
    if 0 < k && k - 1 < len {
      BorderOfBorder(p, m, len, k - 1);
    }
  }

  /** They differ and there is no shorter border to try. */
  lemma {:induction false} NoBorder(p: seq<char>, m: nat)
    requires 1 <= m < |p| && Candidate(p, m, 0) && p[m] != p[0]
    ensures Longest(p, m + 1) == 0
    ensures m + 1 < |p| ==> Candidate(p, m + 1, 0)
  {
    LongestShrinks(p, m);
    NextCandidate(p, m + 1);
  }

  /** `prefix[j]` becomes the length of the longest proper border of `p[..j + 1]`,
      within `2 * (n - 1)` rounds of the loop. */
  method PrefixTable(p: seq<char>, prefix: array<nat>, n: nat) returns (ghost rounds: nat)
    requires n <= |p| && 1 <= prefix.Length && n <= prefix.Length
    modifies prefix
    ensures forall j: nat :: j < n ==> prefix[j] == Longest(p, j + 1)
    ensures prefix[0] == 0
    ensures forall j: nat :: 1 <= j < prefix.Length && n <= j ==> prefix[j] == old(prefix[j])
    ensures if n == 0 then rounds == 0 else n - 1 <= rounds <= 2 * (n - 1)
  {
    prefix[0] := 0;
    var len: nat := 0;
    var i: nat := 1;
    rounds := 0;
    if 1 < n {
      NextCandidate(p, 1);
    }
    while i < n
      invariant len < i && (i <= n || (n == 0 && i == 1))
      invariant forall j: nat :: j < i && j < n ==> prefix[j] == Longest(p, j + 1)
      invariant i < n ==> Candidate(p, i, len)
      invariant prefix[0] == 0
      invariant forall j: nat :: i <= j < prefix.Length ==> prefix[j] == old(prefix[j])
      invariant i - 1 <= rounds && rounds + len <= 2 * (i - 1)
      decreases 2 * (n - i) + len
    {
      if p[i] == p[len] {
        Agree(p, i, len);
        len := len + 1;
        prefix[i] := len;
        i := i + 1;
      } else {
        if len > 0 {
          FallBack(p, i, len);
          len := prefix[len - 1];
        } else {
          NoBorder(p, i);
          prefix[i] := len;
          i := i + 1;
        }
      }
      rounds := rounds + 1;
    }
  }

  // ----- following the links of the table -----

  /** The lengths met when following the table from the first `m` characters. */
  function Chain(p: seq<char>, m: nat): set<nat>
    requires m <= |p|
    decreases m
  {
    if m == 0 then {}
    else
      LongestIsBorder(p, m);
      {Longest(p, m)} + Chain(p, Longest(p, m))
  }

  /** The links of the table lead through the borders, all of them. */
  lemma {:induction false} ChainIsAllBorders(p: seq<char>, m: nat, k: nat)
    requires m <= |p|
    ensures k in Chain(p, m) <==> Border(p, m, k)
    decreases m
  {
    if m > 0 {
      LongestIsBorder(p, m);
      var b := Longest(p, m);
      ChainIsAllBorders(p, b, k);
      if k < b {
        BorderOfBorder(p, m, b, k);
      }
    }
  }
}
