/**
 Facts about sequences that the comparison, publishing and cache proofs share: concatenating the results of
 a function over a sequence, and rearranging a sequence up to a relation.
 */
module Sequences {

  datatype Option<+T> = None | Some(value: T)
  {
    function GetOr(default: T): T {
      if Some? then value else default
    }
  }

  ghost predicate Distinct<T>(xs: seq<T>) {
    forall i, j :: 0 <= i < j < |xs| ==> xs[i] != xs[j]
  }

  function FlatMap<T, U>(xs: seq<T>, f: T -> seq<U>): seq<U> {
    if xs == [] then [] else f(xs[0]) + FlatMap(xs[1..], f)
  }

  lemma Associative<T>(a: seq<T>, b: seq<T>, c: seq<T>)
    ensures a + b + c == a + (b + c)
  {
  }

  lemma {:induction false} FlatMapAppend<T, U>(xs: seq<T>, ys: seq<T>, f: T -> seq<U>)
    ensures FlatMap(xs + ys, f) == FlatMap(xs, f) + FlatMap(ys, f)
  {
    if xs == [] {
      assert xs + ys == ys;
    } else {
      assert (xs + ys)[1..] == xs[1..] + ys;
      FlatMapAppend(xs[1..], ys, f);
    }
  }

  // One loop iteration: the prefix of length i + 1 adds exactly f of the element at i.
  lemma FlatMapStep<T, U>(xs: seq<T>, i: nat, f: T -> seq<U>)
    requires i < |xs|
    ensures FlatMap(xs[..i + 1], f) == FlatMap(xs[..i], f) + f(xs[i])
  {
    assert xs[..i + 1] == xs[..i] + [xs[i]];
    FlatMapAppend(xs[..i], [xs[i]], f);
    assert FlatMap([xs[i]], f) == f(xs[i]) + FlatMap([], f);
  }

  lemma {:induction false} FlatMapMember<T, U>(xs: seq<T>, f: T -> seq<U>, y: U)
    ensures y in FlatMap(xs, f) <==> exists x :: x in xs && y in f(x)
  {
    if xs != [] {
      FlatMapMember(xs[1..], f, y);
      assert forall x :: x in xs <==> x == xs[0] || x in xs[1..];
    }
  }

  lemma {:induction false} FlatMapEmpty<T, U>(xs: seq<T>, f: T -> seq<U>)
    requires forall x :: x in xs ==> f(x) == []
    ensures FlatMap(xs, f) == []
  {
    if xs != [] {
      FlatMapEmpty(xs[1..], f);
    }
  }

  lemma FlatMapCons<T, U>(x: T, xs: seq<T>, f: T -> seq<U>)
    ensures FlatMap([x] + xs, f) == f(x) + FlatMap(xs, f)
  {
    assert ([x] + xs)[1..] == xs;
  }

  lemma FlatMapAround<T, U>(ys: seq<T>, j: nat, g: T -> seq<U>)
    requires j < |ys|
    ensures FlatMap(ys, g) == FlatMap(ys[..j], g) + (g(ys[j]) + FlatMap(ys[j + 1..], g))
  {
    hide FlatMap;
    assert ys == ys[..j] + ys[j..] && ys[j..] == [ys[j]] + ys[j + 1..];
    FlatMapAppend(ys[..j], ys[j..], g);
    FlatMapCons(ys[j], ys[j + 1..], g);
  }

  lemma FlatMapRemove<T, U>(ys: seq<T>, j: nat, g: T -> seq<U>)
    requires j < |ys|
    ensures multiset(FlatMap(ys, g)) == multiset(g(ys[j])) + multiset(FlatMap(ys[..j] + ys[j + 1..], g))
  {
    FlatMapAround(ys, j, g);
    FlatMapAppend(ys[..j], ys[j + 1..], g);
    hide FlatMap;
  }

  lemma RemoveFirst<T>(xs: seq<T>, ys: seq<T>, j: nat)
    requires xs != [] && j < |ys| && ys[j] == xs[0] && multiset(xs) == multiset(ys)
    ensures multiset(xs[1..]) == multiset(ys[..j] + ys[j + 1..])
  {
    assert xs == [xs[0]] + xs[1..];
    assert ys == ys[..j] + [ys[j]] + ys[j + 1..];
    assert multiset(xs[1..]) == multiset(xs) - multiset{xs[0]};
    assert multiset(ys[..j] + ys[j + 1..]) == multiset(ys) - multiset{ys[j]};
  }

  lemma {:induction false} FlatMapPermuted<T, U>(xs: seq<T>, ys: seq<T>, f: T -> seq<U>, g: T -> seq<U>)
    requires multiset(xs) == multiset(ys)
    requires forall x :: x in xs ==> multiset(f(x)) == multiset(g(x))
    ensures multiset(FlatMap(xs, f)) == multiset(FlatMap(ys, g))
  {
    if xs == [] {
      assert |multiset(ys)| == 0;
    } else {
      assert xs[0] in multiset(ys);
      var j :| 0 <= j < |ys| && ys[j] == xs[0];
      RemoveFirst(xs, ys, j);
      FlatMapPermuted(xs[1..], ys[..j] + ys[j + 1..], f, g);
      FlatMapRemove(ys, j, g);
    }
  }

  // ys is a reordering of xs in which corresponding elements are related by r.
  ghost predicate Rearranged<T(!new)>(xs: seq<T>, ys: seq<T>, r: (T, T) -> bool) {
    |xs| == |ys| &&
    (xs == [] || exists j :: 0 <= j < |ys| && r(xs[0], ys[j]) && Rearranged(xs[1..], ys[..j] + ys[j + 1..], r))
  }

  lemma {:induction false} FlatMapRearranged<T(!new), U>(xs: seq<T>, ys: seq<T>, r: (T, T) -> bool,
                                                         f: T -> seq<U>, g: T -> seq<U>)
    requires Rearranged(xs, ys, r)
    requires forall x, y :: x in xs && y in ys && r(x, y) ==> multiset(f(x)) == multiset(g(y))
    ensures multiset(FlatMap(xs, f)) == multiset(FlatMap(ys, g))
  {
    if xs != [] {
      var j :| 0 <= j < |ys| && r(xs[0], ys[j]) && Rearranged(xs[1..], ys[..j] + ys[j + 1..], r);
      FlatMapRearranged(xs[1..], ys[..j] + ys[j + 1..], r, f, g);
      FlatMapRemove(ys, j, g);
    }
  }

  lemma Witnessed<T>(xs: seq<T>, p: T -> bool, witnesses: T -> seq<bool>)
    requires forall x :: witnesses(x) == if p(x) then [true] else []
    ensures (exists i :: 0 <= i < |xs| && p(xs[i])) <==> true in multiset(FlatMap(xs, witnesses))
  {
    FlatMapMember(xs, witnesses, true);
    if i :| 0 <= i < |xs| && p(xs[i]) {
      assert true in witnesses(xs[i]);
    }
  }

  // So a reordering keeps the answer to whether some element has a property that the relation respects.
  lemma RearrangedHas<T(!new)>(xs: seq<T>, ys: seq<T>, r: (T, T) -> bool, p: T -> bool)
    requires Rearranged(xs, ys, r)
    requires forall x, y :: r(x, y) ==> p(x) == p(y)
    ensures (exists i :: 0 <= i < |xs| && p(xs[i])) <==> (exists i :: 0 <= i < |ys| && p(ys[i]))
  {
    var witnesses: T -> seq<bool> := x => if p(x) then [true] else [];
    FlatMapRearranged(xs, ys, r, witnesses, witnesses);
    Witnessed(xs, p, witnesses);
    Witnessed(ys, p, witnesses);
  }

  // The element that y is a rearranged copy of, and the copy of x.
  lemma {:induction false} Original<T(!new)>(xs: seq<T>, ys: seq<T>, r: (T, T) -> bool, y: T) returns (x: T)
    requires Rearranged(xs, ys, r) && y in ys
    ensures x in xs && r(x, y)
  {
    var j :| 0 <= j < |ys| && r(xs[0], ys[j]) && Rearranged(xs[1..], ys[..j] + ys[j + 1..], r);
    if ys[j] == y {
      x := xs[0];
    } else {
      assert y in ys[..j] || y in ys[j + 1..];
      x := Original(xs[1..], ys[..j] + ys[j + 1..], r, y);
    }
  }

  lemma {:induction false} Relocated<T(!new)>(xs: seq<T>, ys: seq<T>, r: (T, T) -> bool, x: T) returns (y: T)
    requires Rearranged(xs, ys, r) && x in xs
    ensures y in ys && r(x, y)
  {
    var j :| 0 <= j < |ys| && r(xs[0], ys[j]) && Rearranged(xs[1..], ys[..j] + ys[j + 1..], r);
    if xs[0] == x {
      y := ys[j];
    } else {
      assert x in xs[1..];
      y := Relocated(xs[1..], ys[..j] + ys[j + 1..], r, x);
    }
  }

  lemma DistinctAppend<T>(a: seq<T>, b: seq<T>)
    requires Distinct(a) && Distinct(b) && forall x :: !(x in a && x in b)
    ensures Distinct(a + b)
  {
    forall i, j | 0 <= i < j < |a + b| ensures (a + b)[i] != (a + b)[j] {
      if i < |a| <= j {
        assert (a + b)[i] in a && (a + b)[j] in b;
      }
    }
  }

  lemma {:induction false} FlatMapDistinct<T, U>(xs: seq<T>, f: T -> seq<U>)
    requires Distinct(xs) && forall x :: x in xs ==> Distinct(f(x))
    requires forall x, y :: x in xs && y in xs && x != y ==> forall u :: !(u in f(x) && u in f(y))
    ensures Distinct(FlatMap(xs, f))
  {
    if xs != [] {
      FlatMapDistinct(xs[1..], f);
      assert xs[0] in xs && forall x :: x in xs[1..] ==> x in xs && x != xs[0];
      assert Distinct(f(xs[0]));
      var rest := FlatMap(xs[1..], f);
      forall u | u in rest ensures u !in f(xs[0]) {
        FlatMapMember(xs[1..], f, u);
      }
      DistinctAppend(f(xs[0]), rest);
    }
  }
}
