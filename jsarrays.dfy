/** The array operations the editor uses, on sequences. */
module JsArrays {

  /** The elements of r occur in xs in the same order (not necessarily adjacent). */
  predicate Subsequence<T(==)>(r: seq<T>, xs: seq<T>)
    decreases |xs|
  {
    if |r| == 0 then true
    else if |xs| == 0 then false
    else if r[0] == xs[0] then Subsequence(r[1..], xs[1..])
    else Subsequence(r, xs[1..])
  }

  /**
   * `xs.filter(keep)`: every element keep accepts, as often as it occurs in
   * xs and in the order of xs, and no other.
   */
  function Filter<T(==,!new)>(xs: seq<T>, keep: T -> bool): (r: seq<T>)
    ensures forall i :: 0 <= i < |r| ==> keep(r[i]) && r[i] in xs
    ensures forall x :: multiset(r)[x] == if keep(x) then multiset(xs)[x] else 0
    ensures Subsequence(r, xs)
    ensures (forall i :: 0 <= i < |xs| ==> keep(xs[i])) ==> r == xs
    decreases |xs|
  {
    if |xs| == 0 then []
    else
      var rest := Filter(xs[1..], keep);
      if keep(xs[0]) then
        FilterKept(xs, rest, keep);
        [xs[0]] + rest
      else
        FilterDropped(xs, rest, keep);
        rest
  }

  /** The step of Filter that keeps the head. */
  lemma FilterKept<T(!new)>(xs: seq<T>, rest: seq<T>, keep: T -> bool)
    requires |xs| > 0 && keep(xs[0])
    requires forall i :: 0 <= i < |rest| ==> keep(rest[i]) && rest[i] in xs[1..]
    requires forall x :: multiset(rest)[x] == if keep(x) then multiset(xs[1..])[x] else 0
    requires Subsequence(rest, xs[1..])
    requires (forall i :: 1 <= i < |xs| ==> keep(xs[i])) ==> rest == xs[1..]
    ensures var r := [xs[0]] + rest;
      (forall i :: 0 <= i < |r| ==> keep(r[i]) && r[i] in xs)
      && (forall x :: multiset(r)[x] == if keep(x) then multiset(xs)[x] else 0)
      && Subsequence(r, xs)
      && ((forall i :: 0 <= i < |xs| ==> keep(xs[i])) ==> r == xs)
  {
    var r := [xs[0]] + rest;
    assert xs == [xs[0]] + xs[1..];
    assert multiset(r) == multiset{xs[0]} + multiset(rest);
    assert r[1..] == rest;
  }

  /** The step of Filter that drops the head. */
  lemma FilterDropped<T(!new)>(xs: seq<T>, rest: seq<T>, keep: T -> bool)
    requires |xs| > 0 && !keep(xs[0])
    requires forall i :: 0 <= i < |rest| ==> keep(rest[i]) && rest[i] in xs[1..]
    requires forall x :: multiset(rest)[x] == if keep(x) then multiset(xs[1..])[x] else 0
    requires Subsequence(rest, xs[1..])
    ensures forall i :: 0 <= i < |rest| ==> keep(rest[i]) && rest[i] in xs
    ensures forall x :: multiset(rest)[x] == if keep(x) then multiset(xs)[x] else 0
    ensures Subsequence(rest, xs)
  {
    assert xs == [xs[0]] + xs[1..];
    forall x | keep(x) ensures multiset(xs)[x] == multiset(xs[1..])[x] {
      assert x != xs[0];
    }
    if rest != [] {
      assert rest[0] != xs[0];
    }
  }

  /** `xs.filter(x => x !== v)`: every v removed, the rest kept in order. */
  function RemoveAll<T(==,!new)>(xs: seq<T>, v: T): (r: seq<T>)
    ensures |r| <= |xs|
    ensures v !in r
    ensures forall x :: x in r <==> x in xs && x != v
    ensures v !in xs ==> r == xs
    ensures forall x :: multiset(r)[x] == if x == v then 0 else multiset(xs)[x]
    ensures Subsequence(r, xs)
    decreases |xs|
  {
    if |xs| == 0 then []
    else
      var rest := RemoveAll(xs[1..], v);
      assert xs == [xs[0]] + xs[1..];
      if xs[0] == v then
        assert rest != [] ==> rest[0] != xs[0];
        rest
      else
        assert ([xs[0]] + rest)[1..] == rest;
        [xs[0]] + rest
  }

  /** No element occurs twice. */
  predicate NoDup<T(==)>(xs: seq<T>) {
    forall i, j :: 0 <= i < j < |xs| ==> xs[i] != xs[j]
  }

  /** Filtering keeps a list free of duplicates. */
  lemma {:induction false} RemoveAllNoDup<T(!new)>(xs: seq<T>, v: T)
    requires NoDup(xs)
    ensures NoDup(RemoveAll(xs, v))
    decreases |xs|
  {
    if |xs| > 0 {
      assert NoDup(xs[1..]);
      RemoveAllNoDup(xs[1..], v);
      if xs[0] != v {
        assert xs[0] !in xs[1..];
        assert xs[0] !in RemoveAll(xs[1..], v);
      }
    }
  }

  /** Removing an element just appended, and absent before, gives back the list. */
  lemma {:induction false} RemoveAllAppended<T(!new)>(xs: seq<T>, v: T)
    requires v !in xs
    ensures RemoveAll(xs + [v], v) == xs
    decreases |xs|
  {
    if |xs| == 0 {
      assert xs + [v] == [v];
    } else {
      assert (xs + [v])[1..] == xs[1..] + [v];
      RemoveAllAppended(xs[1..], v);
      assert xs == [xs[0]] + xs[1..];
    }
  }
}
