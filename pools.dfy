/** `build_bst_swap_pools`: each species maps to every species whose BST lies within the range of its own. */
module Pools {
  import opened Dicts

  function Abs(x: int): nat {
    if x < 0 then -x else x
  }

  /** `[species2 for species2, bst2 in bst_map.items() if abs(bst1 - bst2) <= similarity_range]`. */
  function Pool(bst: Dict, v: int, range: int): (r: seq<string>)
    ensures |r| <= |bst|
  {
    if bst == [] then []
    else (if Abs(v - bst[0].1) <= range then [bst[0].0] else []) + Pool(bst[1..], v, range)
  }

  /** The pools of all species of the map, keyed by species. */
  function SwapPools(bst: Dict, range: int): (pools: map<string, seq<string>>)
    ensures forall a :: a in pools <==> Lookup(bst, a).Some?
  {
    map a | a in KeysOf(bst) && Lookup(bst, a).Some? :: Pool(bst, Lookup(bst, a).value, range)
  }

  /** A species is in the pool for `v` iff it has a BST within `range` of `v`. */
  lemma {:induction false} PoolMember(bst: Dict, v: int, range: int, b: string)
    requires NoDupKeys(bst)
    ensures b in Pool(bst, v, range) <==> Lookup(bst, b).Some? && Abs(v - Lookup(bst, b).value) <= range
    decreases |bst|
  {
    if bst != [] {
      var rest := bst[1..];
      assert NoDupKeys(rest) by {
        forall i, j | 0 <= i < j < |rest| ensures rest[i].0 != rest[j].0 {
          assert rest[i] == bst[i + 1] && rest[j] == bst[j + 1];
        }
      }
      PoolMember(rest, v, range, b);
      if bst[0].0 == b {
        FindUnique(bst, b, 0);
      } else {
        assert Lookup(bst, b) == Lookup(rest, b);
      }
    }
  }

  /** The pool of `a` holds exactly the species whose BST is within `range` of the BST of `a`. */
  lemma SwapPoolMember(bst: Dict, range: int, a: string, b: string)
    requires NoDupKeys(bst)
    requires a in SwapPools(bst, range)
    ensures b in SwapPools(bst, range)[a] <==>
      Lookup(bst, b).Some? && Abs(Lookup(bst, a).value - Lookup(bst, b).value) <= range
  {
    PoolMember(bst, Lookup(bst, a).value, range, b);
  }

  /** With a non-negative range every species is in its own pool. */
  lemma SelfInPool(bst: Dict, range: int, a: string)
    requires NoDupKeys(bst) && range >= 0
    requires a in SwapPools(bst, range)
    ensures a in SwapPools(bst, range)[a]
  {
    SwapPoolMember(bst, range, a, a);
  }

  /** Pool membership is symmetric. */
  lemma PoolSymmetric(bst: Dict, range: int, a: string, b: string)
    requires NoDupKeys(bst)
    requires a in SwapPools(bst, range) && b in SwapPools(bst, range)
    ensures b in SwapPools(bst, range)[a] <==> a in SwapPools(bst, range)[b]
  {
    SwapPoolMember(bst, range, a, b);
    SwapPoolMember(bst, range, b, a);
  }

  /** `xs` is `ys` with some elements left out and the rest in their order. */
  predicate IsSubsequence(xs: seq<string>, ys: seq<string>)
    decreases |ys|
  {
    if xs == [] then true
    else if ys == [] then false
    else if xs[0] == ys[0] then IsSubsequence(xs[1..], ys[1..])
    else IsSubsequence(xs, ys[1..])
  }

  /** A subsequence of the tail is a subsequence of the whole. */
  lemma {:induction false} SubsequenceOfTail(xs: seq<string>, ys: seq<string>)
    requires ys != [] && IsSubsequence(xs, ys[1..])
    ensures IsSubsequence(xs, ys)
    decreases |ys|, 0
  {
    if xs != [] && xs[0] == ys[0] {
      DropFirst(xs, ys[1..]);
    }
  }

  /** Leaving out the first element keeps a subsequence. */
  lemma {:induction false} DropFirst(xs: seq<string>, zs: seq<string>)
    requires xs != [] && IsSubsequence(xs, zs)
    ensures IsSubsequence(xs[1..], zs)
    decreases |zs|, 1
  {
    if xs[0] != zs[0] {
      DropFirst(xs, zs[1..]);
    }
    if xs[1..] != [] {
      SubsequenceOfTail(xs[1..], zs);
    }
  }

  /** A pool lists its species in the order of the BST map. */
  lemma {:induction false} PoolInMapOrder(bst: Dict, v: int, range: int)
    ensures IsSubsequence(Pool(bst, v, range), KeysOf(bst))
    decreases |bst|
  {
    if bst != [] {
      PoolInMapOrder(bst[1..], v, range);
      assert KeysOf(bst)[1..] == KeysOf(bst[1..]);
      var p := Pool(bst, v, range);
      if Abs(v - bst[0].1) <= range {
        assert p[1..] == Pool(bst[1..], v, range);
      } else {
        assert p == Pool(bst[1..], v, range);
        SubsequenceOfTail(p, KeysOf(bst));
      }
    }
  }
}
