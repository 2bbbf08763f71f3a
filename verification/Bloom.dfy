/** The Bloom filter of bloom_filter.cpp: a packed array of bits. */
module Bloom {

  type Hash = string -> nat

  /** `1 << i` in one byte. */
  function Mask(i: nat): bv8
    requires i < 8
  {
    1 << i
  }

  /** Setting a bit changes that bit of the byte and no other. */
  lemma {:induction false} SetsOneBit(x: bv8, i: nat, j: nat)
    requires i < 8 && j < 8
    ensures (x | Mask(i)) & Mask(j) != 0 <==> i == j || x & Mask(j) != 0
  {
    assert Mask(0) == 1 && Mask(1) == 2 && Mask(2) == 4 && Mask(3) == 8;
    assert Mask(4) == 16 && Mask(5) == 32 && Mask(6) == 64 && Mask(7) == 128;
    assert i == 0 || i == 1 || i == 2 || i == 3 || i == 4 || i == 5 || i == 6 || i == 7;
    assert j == 0 || j == 1 || j == 2 || j == 3 || j == 4 || j == 5 || j == 6 || j == 7;
  }

  /** Bit `n` of an array of bytes. */
  predicate HasBit(bytes: seq<bv8>, n: nat)
    requires n / 8 < |bytes|
  {
    bytes[n / 8] & Mask(n % 8) != 0
  }

  /** The bits that the hash functions give to `s`. */
  ghost function Indices(funcs: seq<Hash>, asize: nat, s: string): set<nat>
    requires asize > 0 || funcs == []
  {
    if asize == 0 then {} else set i | 0 <= i < |funcs| :: funcs[i](s) % asize
  }

  /** The bits that all the added strings together have set. */
  ghost function Marked(funcs: seq<Hash>, asize: nat, added: seq<string>): set<nat>
    requires asize > 0 || funcs == []
  {
    if added == [] then {}
    else Marked(funcs, asize, added[..|added| - 1]) + Indices(funcs, asize, added[|added| - 1])
  }

  lemma {:induction false} MarkedBy(funcs: seq<Hash>, asize: nat, added: seq<string>, n: nat)
    requires asize > 0 || funcs == []
    ensures n in Marked(funcs, asize, added) <==> exists i :: 0 <= i < |added| && n in Indices(funcs, asize, added[i])
    decreases |added|
  {
    if added != [] {
      var k := |added| - 1;
      var before := added[..k];
      MarkedBy(funcs, asize, before, n);
      if i :| 0 <= i < |added| && n in Indices(funcs, asize, added[i]) {
        assert i < k ==> before[i] == added[i];
      }
      if n in Marked(funcs, asize, before) {
        var i :| 0 <= i < k && n in Indices(funcs, asize, before[i]);
        assert added[i] == before[i];
      }
    }
  }

  /** Some hash function gives the bit `n` to some added string. */
  ghost predicate GivenBy(funcs: seq<Hash>, asize: nat, added: seq<string>, n: nat)
    requires asize > 0 || funcs == []
  {
    exists j, k :: 0 <= j < |funcs| && 0 <= k < |added| && funcs[j](added[k]) % asize == n
  }

  lemma {:induction false} MarkedIffGiven(funcs: seq<Hash>, asize: nat, added: seq<string>, n: nat)
    requires asize > 0 || funcs == []
    ensures n in Marked(funcs, asize, added) <==> GivenBy(funcs, asize, added, n)
  {
    MarkedBy(funcs, asize, added, n);
    if n in Marked(funcs, asize, added) {
      var k :| 0 <= k < |added| && n in Indices(funcs, asize, added[k]);
      var j :| 0 <= j < |funcs| && funcs[j](added[k]) % asize == n;
    }
    if GivenBy(funcs, asize, added, n) {
      var j, k :| 0 <= j < |funcs| && 0 <= k < |added| && funcs[j](added[k]) % asize == n;
      assert n in Indices(funcs, asize, added[k]);
    }
  }

  class Filter {
    const asize: nat
    const a: array<bv8>
    const funcs: seq<Hash>
    ghost var added: seq<string>

    constructor (size: nat, funcs: seq<Hash>)
      requires size > 0 || funcs == []
      ensures Valid() && fresh(a) && added == [] && asize == size && this.funcs == funcs
    {
      this.asize := size;
      this.funcs := funcs;
      this.a := new bv8[(size + 7) / 8](_ => 0);
      this.added := [];
    }

    /** The set of bits that the byte array stands for. */
    ghost function Bits(): set<nat>
      requires a.Length == (asize + 7) / 8
      reads a
    {
      set n: nat | n < asize && HasBit(a[..], n)
    }

    /** The bits are exactly those that the added strings have set. */
    ghost predicate Valid()
      reads this, a
    {
      && (asize > 0 || funcs == [])
      && a.Length == (asize + 7) / 8
      && Bits() == Marked(funcs, asize, added)
    }

    /** `SETBIT` */
    method SetBit(n: nat)
      requires a.Length == (asize + 7) / 8 && n < asize
      modifies a
      ensures Bits() == old(Bits()) + {n}
    {
      ghost var before := a[..];
      a[n / 8] := a[n / 8] | Mask(n % 8);
      forall m: nat | m < asize
        ensures HasBit(a[..], m) <==> m == n || HasBit(before, m)
      {
        SetsOneBit(before[n / 8], n % 8, m % 8);
      }
    }

    /** `GETBIT` */
    method GetBit(n: nat) returns (r: bool)
      requires a.Length == (asize + 7) / 8 && n < asize
      ensures r <==> n in Bits()
    {
      return a[n / 8] & Mask(n % 8) != 0;
    }

    /** `bloom_add` */
    method Add(s: string)
      requires Valid()
      modifies a, this`added
      ensures Valid() && added == old(added) + [s]
      ensures Bits() == old(Bits()) + Indices(funcs, asize, s)
    {
      ghost var before := Bits();
      for n := 0 to |funcs|
        invariant added == old(added)
        invariant asize > 0 ==> Bits() == before + (set i | 0 <= i < n :: funcs[i](s) % asize)
        invariant asize == 0 ==> n == 0
      {
        SetBit(funcs[n](s) % asize);
      }
      added := added + [s];
      assert added[..|added| - 1] == old(added);
    }

    /** `bloom_check`: yes if and only if each hash value of `s` is, as an index, a
        hash value of some added string; so yes for every string that was added. */
    method Check(s: string) returns (r: bool)
      requires Valid()
      ensures r <==> forall i :: 0 <= i < |funcs| ==> GivenBy(funcs, asize, added, funcs[i](s) % asize)
      ensures r <==> Indices(funcs, asize, s) <= Bits()
      ensures s in added ==> r
    {
      AllGiven(s);
      ghost var wanted, marked := Indices(funcs, asize, s), Bits();
      for n := 0 to |funcs|
        invariant asize > 0 ==> forall i :: 0 <= i < n ==> funcs[i](s) % asize in marked
      {
        var bit := GetBit(funcs[n](s) % asize);
        if !bit {
          assert funcs[n](s) % asize in wanted;
          assert !(wanted <= marked);
          return false;
        }
      }
      assert wanted <= marked;
      return true;
    }

    lemma {:induction false} AllGiven(s: string)
      requires Valid()
      ensures Indices(funcs, asize, s) <= Bits() <==>
        forall i :: 0 <= i < |funcs| ==> GivenBy(funcs, asize, added, funcs[i](s) % asize)
      ensures s in added ==> Indices(funcs, asize, s) <= Bits()
    {
      forall i | 0 <= i < |funcs|
        ensures funcs[i](s) % asize in Indices(funcs, asize, s)
        ensures funcs[i](s) % asize in Bits() <==> GivenBy(funcs, asize, added, funcs[i](s) % asize)
      {
        MarkedIffGiven(funcs, asize, added, funcs[i](s) % asize);
      }
      if s in added {
        var k :| 0 <= k < |added| && added[k] == s;
        forall n | n in Indices(funcs, asize, s)
          ensures n in Bits()
        {
          MarkedBy(funcs, asize, added, n);
        }
      }
    }
  }
}
