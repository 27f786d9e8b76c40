/** The ordering step of the post pipeline: `Array.prototype.sort` with
    the comparator `(a, b) => key(b) - key(a)`. JavaScript's sort is
    stable, so the model is a stable insertion sort into non-increasing
    key order. */
module Sorting {

  /** Non-increasing by `key`. */
  ghost predicate SortedDesc<T>(xs: seq<T>, key: T -> int) {
    forall i, j :: 0 <= i < j < |xs| ==> key(xs[i]) >= key(xs[j])
  }

  /** Places `x` before the first element whose key is not greater than
      its own. */
  function Insert<T>(x: T, ys: seq<T>, key: T -> int): (r: seq<T>)
    requires SortedDesc(ys, key)
    ensures SortedDesc(r, key)
    ensures forall i :: 0 <= i < |r| ==> r[i] == x || r[i] in ys
    decreases |ys|
  {
    if ys == [] then [x]
    else if key(x) >= key(ys[0]) then [x] + ys
    else
      var tail := Insert(x, ys[1..], key);
      assert forall i :: 0 <= i < |tail| ==> tail[i] == x || tail[i] in ys;
      [ys[0]] + tail
  }

  /** Inserting adds exactly one element. */
  lemma {:induction false} InsertPermutes<T>(x: T, ys: seq<T>, key: T -> int)
    requires SortedDesc(ys, key)
    ensures multiset(Insert(x, ys, key)) == multiset(ys) + multiset{x}
    decreases |ys|
  {
    if ys != [] && key(x) < key(ys[0]) {
      InsertPermutes(x, ys[1..], key);
      assert ys == [ys[0]] + ys[1..];
    }
  }

  function SortDesc<T>(xs: seq<T>, key: T -> int): (r: seq<T>)
    ensures SortedDesc(r, key)
    ensures multiset(r) == multiset(xs)
    decreases |xs|
  {
    if xs == [] then []
    else
      var rest := SortDesc(xs[1..], key);
      InsertPermutes(xs[0], rest, key);
      assert xs == [xs[0]] + xs[1..];
      Insert(xs[0], rest, key)
  }
}
