/**
 * Python dictionaries from species names to base stat totals, modelled as
 * association lists in insertion order: assigning to an existing key updates
 * its value in place, assigning to a new key appends it.
 */
module Dicts {
  import opened Options

  type Dict = seq<(string, int)>

  function KeysOf(d: Dict): (ks: seq<string>)
    ensures |ks| == |d|
    ensures forall i :: 0 <= i < |d| ==> ks[i] == d[i].0
  {
    if d == [] then [] else [d[0].0] + KeysOf(d[1..])
  }

  predicate NoDupKeys(d: Dict) {
    forall i, j :: 0 <= i < j < |d| ==> d[i].0 != d[j].0
  }

  /** Position of key `k`, or -1. */
  function Find(d: Dict, k: string): (i: int)
    ensures -1 <= i < |d|
    ensures i == -1 ==> forall j :: 0 <= j < |d| ==> d[j].0 != k
    ensures i >= 0 ==> d[i].0 == k && forall j :: 0 <= j < i ==> d[j].0 != k
  {
    if d == [] then -1
    else if d[0].0 == k then 0
    else
      var i := Find(d[1..], k);
      if i == -1 then -1 else i + 1
  }

  /** `d.get(k)`. */
  function Lookup(d: Dict, k: string): Option<int> {
    var i := Find(d, k);
    if i < 0 then None else Some(d[i].1)
  }

  /** `d[k] = v`. */
  function Put(d: Dict, k: string, v: int): (r: Dict)
    requires NoDupKeys(d)
    ensures NoDupKeys(r)
    ensures Lookup(r, k) == Some(v)
    ensures forall j :: j != k ==> Lookup(r, j) == Lookup(d, j)
    ensures KeysOf(r) == if k in KeysOf(d) then KeysOf(d) else KeysOf(d) + [k]
  {
    var i := Find(d, k);
    var r := if i < 0 then d + [(k, v)] else d[i := (k, v)];
    forall j | j != k ensures Lookup(r, j) == Lookup(d, j) {
      var p := Find(d, j);
      if p >= 0 {
        assert r[p] == d[p];
        FindUnique(r, j, p);
      } else {
        assert forall q :: 0 <= q < |r| ==> r[q].0 != j;
      }
    }
    FindUnique(r, k, if i < 0 then |d| else i);
    r
  }

  lemma FindUnique(d: Dict, k: string, i: nat)
    requires NoDupKeys(d)
    requires i < |d| && d[i].0 == k
    ensures Find(d, k) == i
  {
  }

  /** The dictionary that a loop of assignments `d[k] = v`, one per entry in order, builds from `{}`. */
  function Build(es: seq<(string, int)>): (d: Dict)
    ensures NoDupKeys(d)
  {
    if es == [] then [] else Put(Build(es[..|es| - 1]), es[|es| - 1].0, es[|es| - 1].1)
  }

  /** Reference: the value of the last entry for `k`, searching from the end. */
  function LastFor(es: seq<(string, int)>, k: string): Option<int> {
    if es == [] then None
    else if es[|es| - 1].0 == k then Some(es[|es| - 1].1)
    else LastFor(es[..|es| - 1], k)
  }

  lemma {:induction false} BuildLookup(es: seq<(string, int)>, k: string)
    ensures Lookup(Build(es), k) == LastFor(es, k)
    decreases |es|
  {
    if es != [] {
      BuildLookup(es[..|es| - 1], k);
    }
  }

  /** A key is in the built dictionary iff some entry has it. */
  lemma {:induction false} LastForNone(es: seq<(string, int)>, k: string)
    ensures LastFor(es, k) == None <==> forall i :: 0 <= i < |es| ==> es[i].0 != k
    decreases |es|
  {
    if es != [] {
      var init := es[..|es| - 1];
      LastForNone(init, k);
      assert forall i :: 0 <= i < |init| ==> init[i] == es[i];
    }
  }

  /** The value for a key is that of its last entry: a later assignment overwrites an earlier one. */
  lemma {:induction false} LastForSome(es: seq<(string, int)>, k: string, i: nat)
    requires i < |es| && es[i].0 == k
    requires forall j :: i < j < |es| ==> es[j].0 != k
    ensures LastFor(es, k) == Some(es[i].1)
    decreases |es|
  {
    if i < |es| - 1 {
      var init := es[..|es| - 1];
      assert init[i] == es[i];
      LastForSome(init, k, i);
    }
  }

  /** The keys of the built dictionary are exactly the keys of the entries. */
  lemma BuildKeys(es: seq<(string, int)>, k: string)
    ensures Lookup(Build(es), k).Some? <==> exists i :: 0 <= i < |es| && es[i].0 == k
  {
    BuildLookup(es, k);
    LastForNone(es, k);
  }

  /** The entries a loop produces when it assigns `f(x)` for every `x` that `f` keeps, in order. */
  function Collect<R>(xs: seq<R>, f: R -> Option<(string, int)>): seq<(string, int)> {
    if xs == [] then []
    else
      var last := f(xs[|xs| - 1]);
      Collect(xs[..|xs| - 1], f) + (if last.Some? then [last.value] else [])
  }

  /** No kept element has key `k` exactly when `k` has no value. */
  lemma {:induction false} CollectNone<R>(xs: seq<R>, f: R -> Option<(string, int)>, k: string)
    ensures LastFor(Collect(xs, f), k) == None <==>
      forall i :: 0 <= i < |xs| ==> f(xs[i]).None? || f(xs[i]).value.0 != k
    decreases |xs|
  {
    if xs != [] {
      var init := xs[..|xs| - 1];
      CollectNone(init, f, k);
      assert forall i :: 0 <= i < |init| ==> init[i] == xs[i];
      var last := f(xs[|xs| - 1]);
      if last.Some? {
        assert Collect(xs, f)[..|Collect(xs, f)| - 1] == Collect(init, f);
      } else {
        assert Collect(xs, f) == Collect(init, f);
      }
    }
  }

  /** The value of `k` comes from the last kept element with key `k`. */
  lemma {:induction false} CollectLast<R>(xs: seq<R>, f: R -> Option<(string, int)>, k: string, i: nat)
    requires i < |xs| && f(xs[i]).Some? && f(xs[i]).value.0 == k
    requires forall j :: i < j < |xs| ==> f(xs[j]).None? || f(xs[j]).value.0 != k
    ensures LastFor(Collect(xs, f), k) == Some(f(xs[i]).value.1)
    decreases |xs|
  {
    var init := xs[..|xs| - 1];
    var last := f(xs[|xs| - 1]);
    if last.Some? {
      assert Collect(xs, f)[..|Collect(xs, f)| - 1] == Collect(init, f);
    } else {
      assert Collect(xs, f) == Collect(init, f);
    }
    if i < |xs| - 1 {
      assert init[i] == xs[i];
      assert forall j :: i < j < |init| ==> init[j] == xs[j];
      CollectLast(init, f, k, i);
    }
  }

  /** Appending one element to the input extends the loop by one step. */
  lemma CollectSnoc<R>(xs: seq<R>, x: R, f: R -> Option<(string, int)>)
    ensures Collect(xs + [x], f) == Collect(xs, f) + (if f(x).Some? then [f(x).value] else [])
  {
    assert (xs + [x])[..|xs|] == xs;
  }

  lemma BuildSnoc(es: seq<(string, int)>, e: (string, int))
    ensures Build(es + [e]) == Put(Build(es), e.0, e.1)
  {
    assert (es + [e])[..|es|] == es;
  }

  /** One step of the loop: the dictionary after element `i` from the dictionary before it. */
  lemma BuildCollectStep<R>(xs: seq<R>, i: nat, f: R -> Option<(string, int)>)
    requires i < |xs|
    ensures Build(Collect(xs[..i + 1], f)) ==
      if f(xs[i]).Some? then Put(Build(Collect(xs[..i], f)), f(xs[i]).value.0, f(xs[i]).value.1)
      else Build(Collect(xs[..i], f))
  {
    assert xs[..i + 1] == xs[..i] + [xs[i]];
    CollectSnoc(xs[..i], xs[i], f);
    if f(xs[i]).Some? {
      BuildSnoc(Collect(xs[..i], f), f(xs[i]).value);
    } else {
      assert Collect(xs[..i + 1], f) == Collect(xs[..i], f);
    }
  }
}
