/** The linear tables of the library: first match, removal and in-order filtering. */
module Tables {
  /** Index of the first element satisfying `p`, or the length when there is none. */
  function First<T>(xs: seq<T>, p: T -> bool): (i: nat)
    ensures i <= |xs|
    ensures i < |xs| ==> p(xs[i])
    ensures forall j :: 0 <= j < i ==> !p(xs[j])
  {
    if xs == [] then 0 else if p(xs[0]) then 0 else 1 + First(xs[1..], p)
  }

  lemma FirstIs<T>(xs: seq<T>, p: T -> bool, i: nat)
    requires i <= |xs| && (i < |xs| ==> p(xs[i])) && forall j :: 0 <= j < i ==> !p(xs[j])
    ensures First(xs, p) == i
  {
  }

  function Remove<T>(xs: seq<T>, i: nat): (r: seq<T>)
    requires i < |xs|
    ensures |r| == |xs| - 1
    ensures forall j :: 0 <= j < i ==> r[j] == xs[j]
    ensures forall j :: i <= j < |r| ==> r[j] == xs[j + 1]
  {
    xs[..i] + xs[i + 1..]
  }

  /** The elements satisfying `p`, in order. */
  function Filter<T>(xs: seq<T>, p: T -> bool): (r: seq<T>)
    ensures |r| <= |xs|
    ensures forall x :: x in r ==> x in xs && p(x)
    ensures forall x :: x in xs && p(x) ==> x in r
  {
    if xs == [] then []
    else
      var front, last := xs[..|xs| - 1], xs[|xs| - 1];
      assert xs == front + [last];
      if p(last) then Filter(front, p) + [last] else Filter(front, p)
  }

  function Not<T>(p: T -> bool): T -> bool { (x: T) => !p(x) }

  lemma {:induction false} FilterAll<T>(xs: seq<T>, p: T -> bool)
    requires forall i :: 0 <= i < |xs| ==> p(xs[i])
    ensures Filter(xs, p) == xs
  {
    if xs != [] {
      FilterAll(xs[..|xs| - 1], p);
      assert xs == xs[..|xs| - 1] + [xs[|xs| - 1]];
    }
  }

  /** Every element of the filtered list keeps its relative position. */
  lemma {:induction false} FilterPair<T>(xs: seq<T>, p: T -> bool, i: nat, j: nat) returns (a: nat, b: nat)
    requires i < j < |Filter(xs, p)|
    ensures a < b < |xs| && xs[a] == Filter(xs, p)[i] && xs[b] == Filter(xs, p)[j]
  {
    var front := xs[..|xs| - 1];
    if j < |Filter(front, p)| {
      a, b := FilterPair(front, p, i, j);
    } else {
      b := |xs| - 1;
      assert Filter(front, p)[i] in front;
      a :| 0 <= a < |front| && front[a] == Filter(front, p)[i];
    }
  }

  lemma FilterLast<T>(xs: seq<T>, x: T, p: T -> bool)
    ensures Filter(xs + [x], p) == if p(x) then Filter(xs, p) + [x] else Filter(xs, p)
  {
    assert (xs + [x])[..|xs|] == xs;
  }

  /** One more element of a prefix, kept or left out. */
  lemma FilterStep<T>(xs: seq<T>, p: T -> bool, n: nat)
    requires n < |xs|
    ensures Filter(xs[..n + 1], p) == if p(xs[n]) then Filter(xs[..n], p) + [xs[n]] else Filter(xs[..n], p)
    ensures Filter(xs[..n + 1], Not(p))
         == if p(xs[n]) then Filter(xs[..n], Not(p)) else Filter(xs[..n], Not(p)) + [xs[n]]
  {
    assert xs[..n + 1][..n] == xs[..n];
  }

  lemma FilterNone<T>(xs: seq<T>, p: T -> bool)
    ensures Filter(xs[..0], p) == [] && Filter(xs[..0], Not(p)) == []
  {
  }
}
