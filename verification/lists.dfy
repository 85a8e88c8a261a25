/** Lists of text values without repetitions. */
module Lists {

  predicate NoDup(xs: seq<string>) {
    forall i, j :: 0 <= i < j < |xs| ==> xs[i] != xs[j]
  }

  /** The position where `x` first occurs in `xs`. */
  function FirstIndex(xs: seq<string>, x: string): (i: nat)
    requires x in xs
    ensures i < |xs| && xs[i] == x
    ensures forall k :: 0 <= k < i ==> xs[k] != x
  {
    if xs[0] == x then 0 else 1 + FirstIndex(xs[1..], x)
  }

  /** Appending an element leaves the first occurrence of earlier values where it was. */
  lemma FirstIndexSnoc(xs: seq<string>, y: string, x: string)
    requires x in xs
    ensures x in xs + [y] && FirstIndex(xs + [y], x) == FirstIndex(xs, x)
  {
    var a, b := FirstIndex(xs + [y], x), FirstIndex(xs, x);
    assert (xs + [y])[b] == x;
    assert xs[a] == (xs + [y])[a];
  }

  /** The values of `d` that occur in `xs` come in the order of their first
      occurrence there. */
  predicate FirstOrdered(xs: seq<string>, d: seq<string>) {
    forall i, j :: 0 <= i < j < |d| && d[i] in xs && d[j] in xs ==> FirstIndex(xs, d[i]) < FirstIndex(xs, d[j])
  }

  /** Appending to `xs` keeps that order ... */
  lemma FirstOrderedSnoc(xs: seq<string>, y: string, d: seq<string>)
    requires forall k :: 0 <= k < |d| ==> d[k] in xs
    requires FirstOrdered(xs, d)
    ensures FirstOrdered(xs + [y], d)
  {
    forall i | 0 <= i < |d| ensures d[i] in xs + [y] && FirstIndex(xs + [y], d[i]) == FirstIndex(xs, d[i]) {
      FirstIndexSnoc(xs, y, d[i]);
    }
  }

  /** ... and a value new to `xs` may follow them. */
  lemma FirstOrderedAppend(xs: seq<string>, y: string, d: seq<string>)
    requires forall k :: 0 <= k < |d| ==> d[k] in xs
    requires y !in xs && FirstOrdered(xs + [y], d)
    ensures FirstOrdered(xs + [y], d + [y])
  {
    var e := d + [y];
    assert FirstIndex(xs + [y], y) == |xs|;
    forall i, j | 0 <= i < j < |e| && e[i] in xs + [y] && e[j] in xs + [y]
      ensures FirstIndex(xs + [y], e[i]) < FirstIndex(xs + [y], e[j])
    {
      assert e[i] == d[i];
      if j < |d| { assert e[j] == d[j]; }
      else { FirstIndexSnoc(xs, y, d[i]); }
    }
  }

  /** `xs` without repetitions, each element kept where it first occurs (the order
      in which `SELECT DISTINCT` meets values when it scans the table). */
  function Distinct(xs: seq<string>): (r: seq<string>)
    ensures NoDup(r)
    ensures forall x :: x in r <==> x in xs
    ensures |r| <= |xs|
    ensures FirstOrdered(xs, r)
  {
    if |xs| == 0 then []
    else
      var init := xs[..|xs| - 1];
      var d := Distinct(init);
      var last := xs[|xs| - 1];
      assert xs == init + [last];
      assert forall x :: x in xs <==> x in init || x == last;
      FirstOrderedSnoc(init, last, d);
      if last in d then d
      else
        FirstOrderedAppend(init, last, d);
        d + [last]
  }
}
