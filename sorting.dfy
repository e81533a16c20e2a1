/**
 * The length ordering both reinsert functions apply before substituting:
 * a stable sort by a natural-number key, largest key first
 * (`[...xs].sort((a, b) => key(b) - key(a))` in JavaScript,
 * `sorted(xs, key=key, reverse=True)` in Python; both are stable).
 */
module Sorting {

  /** Keys never increase from left to right. */
  predicate SortedDesc<T>(xs: seq<T>, key: T -> nat) {
    forall i, j | 0 <= i < j < |xs| :: key(xs[i]) >= key(xs[j])
  }

  /** `x` placed after every element of `ys` whose key is at least its own. */
  function Insert<T(==)>(x: T, ys: seq<T>, key: T -> nat): (r: seq<T>)
    ensures multiset(r) == multiset(ys) + multiset{x}
    ensures SortedDesc(ys, key) ==> SortedDesc(r, key)
    ensures r[0] == x || (ys != [] && r[0] == ys[0])
    decreases |ys|
  {
    if ys == [] then [x]
    else if key(ys[0]) >= key(x) then
      var rest := Insert(x, ys[1..], key);
      assert ys == [ys[0]] + ys[1..];
      ConsSorted(ys[0], rest, key);
      [ys[0]] + rest
    else
      ConsSorted(x, ys, key);
      [x] + ys
  }

  /** A head whose key is at least that of the next element extends a sorted list. */
  lemma ConsSorted<T>(h: T, rest: seq<T>, key: T -> nat)
    ensures SortedDesc(rest, key) && (rest == [] || key(h) >= key(rest[0])) ==> SortedDesc([h] + rest, key)
  {
    if SortedDesc(rest, key) && (rest == [] || key(h) >= key(rest[0])) {
      var r := [h] + rest;
      forall i, j | 0 <= i < j < |r| ensures key(r[i]) >= key(r[j]) {
        if i == 0 {
          assert r[j] == rest[j - 1];
          assert key(rest[0]) >= key(rest[j - 1]) || j == 1;
        } else {
          assert r[i] == rest[i - 1] && r[j] == rest[j - 1];
        }
      }
    }
  }

  /** Stable insertion sort, largest key first. */
  function SortDesc<T(==)>(xs: seq<T>, key: T -> nat): (r: seq<T>)
    ensures multiset(r) == multiset(xs)
    ensures SortedDesc(r, key)
    decreases |xs|
  {
    if xs == [] then []
    else
      var init := xs[..|xs| - 1];
      assert xs == init + [xs[|xs| - 1]];
      Insert(xs[|xs| - 1], SortDesc(init, key), key)
  }
}
