/** Lists produced element by element and joined in order, as a nested
    `for` loop that appends to one result list does. The facts here hold for
    any per-element list `f`; the directory walk instantiates them. */
module Gathering {

  /** The lists `f(x)` for the elements `x` of `xs`, joined in order. */
  function Gather<T, U>(xs: seq<T>, f: T -> seq<U>): seq<U>
  {
    if |xs| == 0 then [] else Gather(xs[..|xs| - 1], f) + f(xs[|xs| - 1])
  }

  predicate Distinct<T(==)>(s: seq<T>)
  {
    forall i, j :: 0 <= i < j < |s| ==> s[i] != s[j]
  }

  /** Gathering two lists one after the other gives the two results one
      after the other. */
  lemma {:induction false} GatherAppend<T, U>(a: seq<T>, b: seq<T>, f: T -> seq<U>)
    ensures Gather(a + b, f) == Gather(a, f) + Gather(b, f)
    decreases |b|
  {
    if |b| == 0 {
      assert a + b == a;
    } else {
      var b' := b[..|b| - 1];
      assert (a + b)[..|a + b| - 1] == a + b';
      assert (a + b)[|a + b| - 1] == b[|b| - 1];
      GatherAppend(a, b', f);
    }
  }

  /** A single element gathers its own list. */
  lemma GatherSingle<T, U>(x: T, f: T -> seq<U>)
    ensures Gather([x], f) == f(x)
  {
    assert [x][..0] == [];
  }

  /** A prefix one element longer adds that element's list. */
  lemma GatherPrefixStep<T, U>(xs: seq<T>, i: nat, f: T -> seq<U>)
    requires i < |xs|
    ensures Gather(xs[..i + 1], f) == Gather(xs[..i], f) + f(xs[i])
  {
    var pre := xs[..i + 1];
    assert pre[..|pre| - 1] == xs[..i];
  }

  /** Gathering splits at any position into the prefix and the rest. */
  lemma GatherSplit<T, U>(xs: seq<T>, m: nat, f: T -> seq<U>)
    requires m <= |xs|
    ensures Gather(xs, f) == Gather(xs[..m], f) + Gather(xs[m..], f)
  {
    assert xs[..m] + xs[m..] == xs;
    GatherAppend(xs[..m], xs[m..], f);
  }

  /** Every element of an element's list is gathered. */
  lemma {:induction false} GatherHas<T, U>(xs: seq<T>, f: T -> seq<U>, i: nat, k: nat)
    requires i < |xs| && k < |f(xs[i])|
    ensures f(xs[i])[k] in Gather(xs, f)
    decreases |xs|
  {
    var n := |xs| - 1;
    var init := xs[..n];
    if i < n {
      assert init[i] == xs[i];
      GatherHas(init, f, i, k);
    }
  }

  /** Everything gathered comes from the list of some element. */
  lemma {:induction false} GatherFrom<T, U>(xs: seq<T>, f: T -> seq<U>, y: U)
    requires y in Gather(xs, f)
    ensures exists i, k :: 0 <= i < |xs| && 0 <= k < |f(xs[i])| && f(xs[i])[k] == y
    decreases |xs|
  {
    var n := |xs| - 1;
    var init := xs[..n];
    if y in Gather(init, f) {
      GatherFrom(init, f, y);
      var i, k :| 0 <= i < |init| && 0 <= k < |f(init[i])| && f(init[i])[k] == y;
      assert init[i] == xs[i];
    } else {
      var k :| 0 <= k < |f(xs[n])| && f(xs[n])[k] == y;
    }
  }

  /** Two duplicate-free lists with no common element concatenate to a
      duplicate-free list. */
  lemma DistinctConcat<T>(a: seq<T>, b: seq<T>)
    requires Distinct(a) && Distinct(b)
    requires forall x, y :: 0 <= x < |a| && 0 <= y < |b| ==> a[x] != b[y]
    ensures Distinct(a + b)
  {
    var s := a + b;
    forall x, y | 0 <= x < y < |s| ensures s[x] != s[y] {
      if y < |a| {
        assert s[x] == a[x] && s[y] == a[y];
      } else if x >= |a| {
        assert s[x] == b[x - |a|] && s[y] == b[y - |a|];
      } else {
        assert s[x] == a[x] && s[y] == b[y - |a|];
      }
    }
  }
}
