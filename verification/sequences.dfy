/**
 * The query operators the repository composes, on a table viewed as the
 * sequence of its rows: `Where`, `FirstOrDefault`, `Any`, `Skip` and `Take`.
 */
module Sequences {
  import opened Wrappers

  /** `Where`: the rows that satisfy `keep`, in their original order. */
  function Where<T>(xs: seq<T>, keep: T -> bool): (r: seq<T>)
    ensures |r| <= |xs|
    ensures forall x :: x in r ==> x in xs && keep(x)
    ensures forall x :: x in xs && keep(x) ==> x in r
    ensures r == [] <==> forall x :: x in xs ==> !keep(x)
  {
    if |xs| == 0 then []
    else if keep(xs[0]) then [xs[0]] + Where(xs[1..], keep)
    else Where(xs[1..], keep)
  }

  /** Filtering distributes over concatenation. */
  lemma {:induction false} WhereAppend<T>(xs: seq<T>, ys: seq<T>, keep: T -> bool)
    ensures Where(xs + ys, keep) == Where(xs, keep) + Where(ys, keep)
    decreases |xs|
  {
    if |xs| > 0 {
      assert (xs + ys)[1..] == xs[1..] + ys;
      WhereAppend(xs[1..], ys, keep);
    } else {
      assert xs + ys == ys;
    }
  }

  /** A filter every row passes keeps the whole sequence. */
  lemma {:induction false} WhereKeepsAll<T>(xs: seq<T>, keep: T -> bool)
    requires forall x :: x in xs ==> keep(x)
    ensures Where(xs, keep) == xs
    decreases |xs|
  {
    if |xs| > 0 {
      WhereKeepsAll(xs[1..], keep);
      assert xs == [xs[0]] + xs[1..];
    }
  }

  /** The first row `Where` keeps is the first row of `xs` that passes. */
  lemma {:induction false} WhereFirst<T>(xs: seq<T>, keep: T -> bool)
    requires Where(xs, keep) != []
    ensures exists i :: 0 <= i < |xs| && xs[i] == Where(xs, keep)[0] && keep(xs[i]) && forall j :: 0 <= j < i ==> !keep(xs[j])
    decreases |xs|
  {
    if !keep(xs[0]) {
      WhereFirst(xs[1..], keep);
      var tail := xs[1..];
      var i :| 0 <= i < |tail| && tail[i] == Where(tail, keep)[0] && keep(tail[i]) && forall j :: 0 <= j < i ==> !keep(tail[j]);
      assert xs[i + 1] == tail[i];
      forall j | 0 <= j < i + 1 ensures !keep(xs[j]) {
        if j > 0 {
          assert xs[j] == tail[j - 1];
        }
      }
    }
  }

  /** `Where` keeps every passing row as often as it occurs and drops every
      other row. */
  lemma {:induction false} WhereMultiset<T>(xs: seq<T>, keep: T -> bool)
    ensures forall x :: multiset(Where(xs, keep))[x] == if keep(x) then multiset(xs)[x] else 0
    decreases |xs|
  {
    if |xs| > 0 {
      WhereMultiset(xs[1..], keep);
      assert xs == [xs[0]] + xs[1..];
    }
  }

  /** `FirstOrDefault`: the first row, or null for an empty sequence. */
  function FirstOrNone<T>(xs: seq<T>): (r: Option<T>)
    ensures r.None? <==> |xs| == 0
    ensures r.Some? ==> r.value == xs[0]
  {
    if |xs| == 0 then None else Some(xs[0])
  }

  /** `Any`: some row satisfies the predicate. */
  function Any<T>(xs: seq<T>, p: T -> bool): (r: bool)
    ensures r <==> exists x :: x in xs && p(x)
  {
    var hits := Where(xs, p);
    assert |hits| > 0 ==> hits[0] in hits;
    |hits| > 0
  }

  function Min(a: int, b: int): int {
    if a <= b then a else b
  }

  /** `Skip(n)`: everything after the first `n` rows. */
  function Skip<T>(xs: seq<T>, n: int): (r: seq<T>)
    ensures |r| == if n <= 0 then |xs| else if n >= |xs| then 0 else |xs| - n
    ensures forall i :: 0 <= i < |r| ==> r[i] == xs[i + |xs| - |r|]
  {
    if n <= 0 then xs else if n >= |xs| then [] else xs[n..]
  }

  /** `Take(n)`: at most the first `n` rows. */
  function Take<T>(xs: seq<T>, n: int): (r: seq<T>)
    ensures |r| == if n <= 0 then 0 else Min(n, |xs|)
    ensures r == xs[..|r|]
  {
    if n <= 0 then [] else xs[..Min(n, |xs|)]
  }

  /** Index of the first row of page `pageNumber` (counting from 1) when a
      sequence is cut into pages of `pageSize` rows: `pageSize * (pageNumber - 1)`. */
  function PageStart(pageNumber: int, pageSize: int): (skip: int)
    requires pageNumber >= 1 && pageSize >= 0
    ensures skip >= 0
  {
    pageSize * (pageNumber - 1)
  }

  /** `Skip(skip).Take(take)`: the window of at most `take` rows starting at
      row `skip`. */
  function Window<T>(xs: seq<T>, skip: int, take: int): (r: seq<T>)
    requires skip >= 0 && take >= 0
    ensures |r| <= take
    ensures |r| == (if skip >= |xs| then 0 else Min(take, |xs| - skip))
    ensures forall i :: 0 <= i < |r| ==> r[i] == xs[skip + i]
    ensures forall x :: x in r ==> x in xs
  {
    Take(Skip(xs, skip), take)
  }

  /** The row-wise image of a sequence (the element-wise mapping of a list). */
  function MapSeq<T, U>(xs: seq<T>, f: T -> U): (r: seq<U>)
    ensures |r| == |xs|
    ensures forall i :: 0 <= i < |xs| ==> r[i] == f(xs[i])
  {
    if |xs| == 0 then [] else [f(xs[0])] + MapSeq(xs[1..], f)
  }

  /** Membership in the image: every image element comes from some element,
      and every element's image is present. */
  lemma MapSeqMembership<T, U>(xs: seq<T>, f: T -> U)
    ensures forall y :: y in MapSeq(xs, f) ==> exists x :: x in xs && y == f(x)
    ensures forall x :: x in xs ==> f(x) in MapSeq(xs, f)
  {
    var ys := MapSeq(xs, f);
    forall y | y in ys ensures exists x :: x in xs && y == f(x) {
      var i :| 0 <= i < |ys| && ys[i] == y;
      assert xs[i] in xs;
    }
    forall x | x in xs ensures f(x) in ys {
      var i :| 0 <= i < |xs| && xs[i] == x;
      assert ys[i] == f(x);
    }
  }
}
