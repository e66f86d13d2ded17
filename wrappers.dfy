/** Option and Result, and the "first failure wins" traversal that models a
    Python list comprehension whose element expression may raise. */
module Wrappers {

  datatype Option<+T> = None | Some(value: T)

  datatype Result<+T, +E> = Success(value: T) | Failure(error: E)

  /** Applies `f` to every element in order; the first element whose result
      is a failure makes the whole traversal fail with that error, as a
      raising comprehension does. */
  function Traverse<A, B, E>(xs: seq<A>, f: A -> Result<B, E>): (r: Result<seq<B>, E>)
    ensures r.Success? <==> forall i :: 0 <= i < |xs| ==> f(xs[i]).Success?
    ensures r.Success? ==> |r.value| == |xs|
    ensures r.Success? ==> forall i :: 0 <= i < |xs| ==> r.value[i] == f(xs[i]).value
    ensures r.Failure? ==>
      exists i :: 0 <= i < |xs| && f(xs[i]) == Failure(r.error)
        && forall j :: 0 <= j < i ==> f(xs[j]).Success?
  {
    if xs == [] then Success([])
    else
      match f(xs[0])
      case Failure(e) => Failure(e)
      case Success(y) =>
        match Traverse(xs[1..], f)
        case Failure(e) =>
          assert forall j :: 1 <= j < |xs| ==> xs[j] == xs[1..][j - 1];
          Failure(e)
        case Success(ys) => Success([y] + ys)
  }

  /** A collected result extended by one more element's result: an earlier
      failure wins, otherwise the new failure or the new value appended. */
  function Snoc<B, E>(r: Result<seq<B>, E>, y: Result<B, E>): Result<seq<B>, E> {
    match r
    case Failure(e) => Failure(e)
    case Success(ys) =>
      match y
      case Failure(e) => Failure(e)
      case Success(v) => Success(ys + [v])
  }

  /** Traversing one more element at the end extends the traversal by that
      element's result. */
  lemma {:induction false} TraverseSnoc<A, B, E>(xs: seq<A>, x: A, f: A -> Result<B, E>)
    ensures Traverse(xs + [x], f) == Snoc(Traverse(xs, f), f(x))
    decreases |xs|
  {
    if xs == [] {
      assert xs + [x] == [x];
      assert [x][1..] == [];
      match f(x)
      case Failure(e) =>
      case Success(y) => assert [y] + [] == [] + [y];
    } else {
      assert (xs + [x])[0] == xs[0];
      assert (xs + [x])[1..] == xs[1..] + [x];
      TraverseSnoc(xs[1..], x, f);
      match f(xs[0])
      case Failure(e) =>
      case Success(y0) =>
        match Traverse(xs[1..], f)
        case Failure(e) =>
        case Success(ys) =>
          match f(x)
          case Failure(e) =>
          case Success(y) => assert [y0] + (ys + [y]) == ([y0] + ys) + [y];
    }
  }

  /** `acc` followed by the result of the rest of a traversal. */
  function Then<B, E>(acc: seq<B>, rest: Result<seq<B>, E>): Result<seq<B>, E> {
    match rest
    case Success(ys) => Success(acc + ys)
    case Failure(e) => Failure(e)
  }

  /** One step of a loop that runs `Traverse` element by element. */
  lemma {:induction false} TraverseStep<A, B, E>(xs: seq<A>, f: A -> Result<B, E>, i: nat, acc: seq<B>)
    requires i < |xs| && f(xs[i]).Success?
    ensures Then(acc, Traverse(xs[i..], f)) == Then(acc + [f(xs[i]).value], Traverse(xs[i + 1..], f))
  {
    assert xs[i..][1..] == xs[i + 1..];
    match Traverse(xs[i + 1..], f)
    case Failure(e) =>
    case Success(ys) => assert acc + ([f(xs[i]).value] + ys) == (acc + [f(xs[i]).value]) + ys;
  }

  /** A loop that runs `Traverse` element by element starts with nothing collected. */
  lemma {:induction false} TraverseStart<A, B, E>(xs: seq<A>, f: A -> Result<B, E>)
    ensures Then([], Traverse(xs[0..], f)) == Traverse(xs, f)
  {
    assert xs[0..] == xs;
    match Traverse(xs, f)
    case Failure(e) =>
    case Success(ys) => assert [] + ys == ys;
  }

  /** A failing element ends a loop that runs `Traverse` element by element. */
  lemma {:induction false} TraverseFail<A, B, E>(xs: seq<A>, f: A -> Result<B, E>, i: nat, acc: seq<B>)
    requires i < |xs| && f(xs[i]).Failure?
    ensures Then(acc, Traverse(xs[i..], f)) == Failure(f(xs[i]).error)
  {
    assert xs[i..][0] == xs[i];
  }

  /** A loop that runs `Traverse` element by element ends with what it collected. */
  lemma {:induction false} TraverseDone<A, B, E>(xs: seq<A>, f: A -> Result<B, E>, acc: seq<B>)
    ensures Then(acc, Traverse(xs[|xs|..], f)) == Success(acc)
  {
    assert acc + [] == acc;
  }

  /** All the pieces glued end to end, in order (`"".join`, `np.concatenate`). */
  function Flatten<T>(xss: seq<seq<T>>): seq<T> {
    if xss == [] then [] else Flatten(xss[..|xss| - 1]) + xss[|xss| - 1]
  }

  lemma {:induction false} FlattenCons<T>(xs: seq<T>, xss: seq<seq<T>>)
    ensures Flatten([xs] + xss) == xs + Flatten(xss)
    decreases |xss|
  {
    if xss != [] {
      var n := |xss| - 1;
      assert ([xs] + xss)[..n + 1] == [xs] + xss[..n];
      FlattenCons(xs, xss[..n]);
    }
  }

  /** `[i for i in range(k) if p(i)]`: the indices below `k` that satisfy
      `p`, in increasing order. */
  function Where(p: nat -> bool, k: nat): (r: seq<nat>)
    ensures forall j :: 0 <= j < |r| ==> r[j] < k && p(r[j])
    ensures forall i, j :: 0 <= i < j < |r| ==> r[i] < r[j]
    ensures forall i :: 0 <= i < k && p(i) ==> i in r
  {
    if k == 0 then [] else Where(p, k - 1) + (if p(k - 1) then [k - 1] else [])
  }

  /** `[x for x in xs if p(x)]`. */
  function Filter<T>(xs: seq<T>, p: T -> bool): (r: seq<T>)
    ensures |r| <= |xs|
    ensures forall i :: 0 <= i < |r| ==> p(r[i])
    ensures forall i :: 0 <= i < |xs| && p(xs[i]) ==> xs[i] in r
  {
    if xs == [] then []
    else
      var n := |xs| - 1;
      assert forall i :: 0 <= i < n ==> xs[i] == xs[..n][i];
      Filter(xs[..n], p) + (if p(xs[n]) then [xs[n]] else [])
  }

  /** Filtering keeps only elements of the input. */
  lemma {:induction false} FilterMember<T>(xs: seq<T>, p: T -> bool, x: T)
    requires x in Filter(xs, p)
    ensures x in xs && p(x)
    decreases |xs|
  {
    var n := |xs| - 1;
    if x != xs[n] || !p(xs[n]) {
      assert x in Filter(xs[..n], p);
      FilterMember(xs[..n], p, x);
    }
  }

  /** Filtering keeps the order: it works piece by piece. */
  lemma {:induction false} FilterAppend<T>(xs: seq<T>, ys: seq<T>, p: T -> bool)
    ensures Filter(xs + ys, p) == Filter(xs, p) + Filter(ys, p)
    decreases |ys|
  {
    if ys != [] {
      var n := |ys| - 1;
      assert (xs + ys)[..|xs| + n] == xs + ys[..n];
      FilterAppend(xs, ys[..n], p);
    } else {
      assert xs + ys == xs;
    }
  }

  /** Two filters in a row are one filter by both conditions. */
  lemma {:induction false} FilterFilter<T>(xs: seq<T>, p: T -> bool, q: T -> bool)
    ensures Filter(Filter(xs, p), q) == Filter(xs, x => p(x) && q(x))
    decreases |xs|
  {
    if xs != [] {
      var n := |xs| - 1;
      FilterFilter(xs[..n], p, q);
      FilterAppend(Filter(xs[..n], p), if p(xs[n]) then [xs[n]] else [], q);
      assert [xs[n]][..0] == [];
    }
  }
}
