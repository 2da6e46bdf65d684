/** Small sequence helpers shared by the tree model. */
module Seqs {
  import opened Wrappers

  ghost predicate NoDuplicates<T>(xs: seq<T>) {
    forall i, j :: 0 <= i < j < |xs| ==> xs[i] != xs[j]
  }

  /** The position of the first occurrence of `x`, like `List.indexOf`. */
  function IndexOf<T(==)>(xs: seq<T>, x: T): (r: Option<nat>)
    ensures r.Some? ==> r.value < |xs| && xs[r.value] == x
    ensures r.Some? ==> forall j :: 0 <= j < r.value ==> xs[j] != x
    ensures r.None? <==> x !in xs
  {
    if |xs| == 0 then None
    else if xs[0] == x then Some(0)
    else
      match IndexOf(xs[1..], x)
      case None => None
      case Some(i) => Some(i + 1)
  }

  /** In a duplicate-free sequence, an element's index is the only index holding it. */
  lemma IndexOfUnique<T>(xs: seq<T>, x: T, i: nat)
    requires NoDuplicates(xs) && i < |xs| && xs[i] == x
    ensures IndexOf(xs, x) == Some(i)
  {
  }

  function InsertAt<T>(xs: seq<T>, i: nat, x: T): (r: seq<T>)
    requires i <= |xs|
    ensures |r| == |xs| + 1 && r[i] == x
    ensures forall j :: 0 <= j < i ==> r[j] == xs[j]
    ensures forall j :: i < j < |r| ==> r[j] == xs[j - 1]
  {
    xs[..i] + [x] + xs[i..]
  }

  function RemoveAt<T>(xs: seq<T>, i: nat): (r: seq<T>)
    requires i < |xs|
    ensures |r| == |xs| - 1
    ensures forall j :: 0 <= j < i ==> r[j] == xs[j]
    ensures forall j :: i <= j < |r| ==> r[j] == xs[j + 1]
  {
    xs[..i] + xs[i + 1..]
  }

  /** Inserting through a window `[o, o + n)` is inserting into the whole sequence at
      the shifted index, then reading the widened window. */
  lemma InsertAtSlice<T>(xs: seq<T>, o: nat, n: nat, i: nat, x: T)
    requires o + n <= |xs| && i <= n
    ensures InsertAt(xs, o + i, x)[o..o + n + 1] == InsertAt(xs[o..o + n], i, x)
  {
    var lhs := InsertAt(xs, o + i, x)[o..o + n + 1];
    var rhs := InsertAt(xs[o..o + n], i, x);
    assert forall j :: 0 <= j < |lhs| ==> lhs[j] == rhs[j];
  }

  /** The concatenation of a sequence of sequences, in order. */
  function Concat<T>(xss: seq<seq<T>>): seq<T> {
    if |xss| == 0 then [] else xss[0] + Concat(xss[1..])
  }

  lemma {:induction false} ConcatAppend<T>(xss: seq<seq<T>>, yss: seq<seq<T>>)
    ensures Concat(xss + yss) == Concat(xss) + Concat(yss)
    decreases |xss|
  {
    if |xss| == 0 {
      assert xss + yss == yss;
    } else {
      assert (xss + yss)[1..] == xss[1..] + yss;
      ConcatAppend(xss[1..], yss);
    }
  }
}
