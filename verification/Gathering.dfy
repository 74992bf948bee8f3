// Collecting the results of a function over a sequence as a multiset, and the fact that the
// order of the sequence does not matter.
module Gathering {
  ghost function Gather<T, F>(f: T -> multiset<F>, xs: seq<T>): multiset<F> {
    if xs == [] then multiset{} else Gather(f, xs[..|xs| - 1]) + f(xs[|xs| - 1])
  }

  lemma GatherOneMore<T, F>(f: T -> multiset<F>, xs: seq<T>, x: T)
    ensures Gather(f, xs + [x]) == Gather(f, xs) + f(x)
  {
    assert (xs + [x])[..|xs|] == xs;
  }

  function Without<T>(xs: seq<T>, k: nat): seq<T>
    requires k < |xs|
  {
    xs[..k] + xs[k + 1..]
  }

  lemma WithoutInit<T>(xs: seq<T>, k: nat)
    requires k < |xs| - 1
    ensures Without(xs, k) == Without(xs[..|xs| - 1], k) + [xs[|xs| - 1]]
  {
    var n := |xs| - 1;
    assert xs[..n][..k] == xs[..k] && xs[..n][k + 1..] == xs[k + 1..n];
    assert xs[k + 1..] == xs[k + 1..n] + [xs[n]];
  }

  lemma Swap<F>(a: multiset<F>, b: multiset<F>, c: multiset<F>)
    ensures a + b + c == a + c + b
  {
  }

  lemma Regroup<F>(a: multiset<F>, b: multiset<F>, c: multiset<F>)
    ensures a + b + c == a + (b + c)
  {
  }

  lemma {:induction false} GatherWithout<T, F>(f: T -> multiset<F>, xs: seq<T>, k: nat)
    requires k < |xs|
    ensures Gather(f, xs) == Gather(f, Without(xs, k)) + f(xs[k])
    decreases |xs|
  {
    var n := |xs| - 1;
    var init := xs[..n];
    if k == n {
      assert Without(xs, k) == init;
    } else {
      GatherWithout(f, init, k);
      WithoutInit(xs, k);
      GatherOneMore(f, Without(init, k), xs[n]);
      Swap(Gather(f, Without(init, k)), f(xs[k]), f(xs[n]));
    }
  }

  lemma WithoutOnce<T>(xs: seq<T>, k: nat)
    requires k < |xs|
    ensures multiset(Without(xs, k)) == multiset(xs) - multiset{xs[k]}
  {
    assert xs == xs[..k] + [xs[k]] + xs[k + 1..];
  }

  lemma WithoutLast<T>(xs: seq<T>)
    requires xs != []
    ensures multiset(xs[..|xs| - 1]) == multiset(xs) - multiset{xs[|xs| - 1]}
  {
    var n := |xs| - 1;
    assert Without(xs, n) == xs[..n];
    WithoutOnce(xs, n);
  }

  lemma {:induction false} GatherPermutation<T, F>(f: T -> multiset<F>, xs: seq<T>, ys: seq<T>)
    requires multiset(xs) == multiset(ys)
    ensures Gather(f, xs) == Gather(f, ys)
    decreases |xs|
  {
    if xs == [] {
      assert |multiset(ys)| == 0;
      assert ys == [];
    } else {
      var n := |xs| - 1;
      var k := IndexIn(ys, xs[n], multiset(xs));
      WithoutOnce(ys, k);
      WithoutLast(xs);
      GatherPermutation(f, xs[..n], Without(ys, k));
      GatherWithout(f, ys, k);
    }
  }

  lemma IndexIn<T>(ys: seq<T>, x: T, bag: multiset<T>) returns (k: nat)
    requires multiset(ys) == bag && x in bag
    ensures k < |ys| && ys[k] == x
  {
    k :| 0 <= k < |ys| && ys[k] == x;
  }
}
