/**
 * The array primitives the task list is built on, as operations on sequences:
 * `Array.prototype.filter`, `includes`, and the `splice`-out / `splice`-in pair
 * that moves one element to another index.
 */
module Seqs {

  /** No value occurs twice. */
  predicate NoDuplicates<T(==)>(s: seq<T>) {
    forall i, j :: 0 <= i < j < |s| ==> s[i] != s[j]
  }

  /** `r` is an order-preserving subsequence of `s`: `s` with some elements left out. */
  predicate IsSubseq<T(==)>(r: seq<T>, s: seq<T>)
    decreases |s|
  {
    r == [] ||
    (s != [] && ((r[0] == s[0] && IsSubseq(r[1..], s[1..])) || IsSubseq(r, s[1..])))
  }

  /** `Array.prototype.filter`: the elements that pass `p`, in their original order. */
  function Filter<T>(s: seq<T>, p: T -> bool): seq<T> {
    if s == [] then []
    else (if p(s[0]) then [s[0]] else []) + Filter(s[1..], p)
  }

  /** An element is in the filtered sequence exactly when it is in the input and passes. */
  lemma {:induction false} FilterMembers<T>(s: seq<T>, p: T -> bool, x: T)
    ensures x in Filter(s, p) <==> x in s && p(x)
  {
    if s != [] {
      FilterMembers(s[1..], p, x);
      assert s == [s[0]] + s[1..];
    }
  }

  /** Every element of the filtered sequence passes, and each passing element is kept as often as it occurs. */
  lemma {:induction false} FilterMultiplicity<T>(s: seq<T>, p: T -> bool, x: T)
    ensures multiset(Filter(s, p))[x] == if p(x) then multiset(s)[x] else 0
  {
    if s != [] {
      FilterMultiplicity(s[1..], p, x);
      assert s == [s[0]] + s[1..];
    }
  }

  /** The filtered sequence keeps the input's order: it is a subsequence of it. */
  lemma {:induction false} FilterIsSubseq<T>(s: seq<T>, p: T -> bool)
    ensures IsSubseq(Filter(s, p), s)
  {
    if s != [] {
      FilterIsSubseq(s[1..], p);
      var r := Filter(s[1..], p);
      if p(s[0]) {
        assert Filter(s, p) == [s[0]] + r;
        assert Filter(s, p)[1..] == r;
      } else {
        assert Filter(s, p) == r;
      }
    }
  }

  /** Filtering with a test every element passes returns the input unchanged. */
  lemma {:induction false} FilterAllPass<T>(s: seq<T>, p: T -> bool)
    requires forall k :: 0 <= k < |s| ==> p(s[k])
    ensures Filter(s, p) == s
  {
    if s != [] {
      FilterAllPass(s[1..], p);
      assert s == [s[0]] + s[1..];
    }
  }

  /** A sequence splits into what passes `p` and what passes its negation `q`. */
  lemma {:induction false} FilterComplement<T>(s: seq<T>, p: T -> bool, q: T -> bool)
    requires forall x :: q(x) == !p(x)
    ensures |Filter(s, p)| + |Filter(s, q)| == |s|
  {
    if s != [] {
      FilterComplement(s[1..], p, q);
    }
  }

  /** Filtering appended elements filters each part. */
  lemma {:induction false} FilterAppend<T>(s: seq<T>, t: seq<T>, p: T -> bool)
    ensures Filter(s + t, p) == Filter(s, p) + Filter(t, p)
  {
    if s == [] {
      assert s + t == t;
    } else {
      var head := if p(s[0]) then [s[0]] else [];
      assert (s + t)[0] == s[0];
      assert (s + t)[1..] == s[1..] + t;
      FilterAppend(s[1..], t, p);
      calc {
        Filter(s + t, p);
        head + Filter(s[1..] + t, p);
        head + (Filter(s[1..], p) + Filter(t, p));
        (head + Filter(s[1..], p)) + Filter(t, p);
        Filter(s, p) + Filter(t, p);
      }
    }
  }

  /** The positions of `s` whose element passes `p`. */
  function Positions<T>(s: seq<T>, p: T -> bool): set<nat> {
    set k: nat | k < |s| && p(s[k])
  }

  /** The length of a filtered sequence is the number of positions whose element passes. */
  lemma {:induction false} FilterCount<T>(s: seq<T>, p: T -> bool)
    ensures |Filter(s, p)| == |Positions(s, p)|
    decreases |s|
  {
    if s != [] {
      var n := |s| - 1;
      var init := s[..n];
      FilterCount(init, p);
      assert s == init + [s[n]];
      FilterAppend(init, [s[n]], p);
      if p(s[n]) {
        assert Positions(s, p) == Positions(init, p) + {n};
      } else {
        assert Positions(s, p) == Positions(init, p);
      }
    }
  }

  /** Filtering keeps a duplicate-free sequence duplicate-free. */
  lemma {:induction false} FilterNoDuplicates<T>(s: seq<T>, p: T -> bool)
    requires NoDuplicates(s)
    ensures NoDuplicates(Filter(s, p))
  {
    if s != [] {
      FilterNoDuplicates(s[1..], p);
      FilterMembers(s[1..], p, s[0]);
      assert s[0] !in s[1..];
      var r := Filter(s[1..], p);
      if p(s[0]) {
        assert Filter(s, p) == [s[0]] + r;
      }
    }
  }

  /** `s.filter(y => y !== x)`: every occurrence of `x` taken out. */
  function Without<T(==)>(s: seq<T>, x: T): seq<T> {
    Filter(s, (y: T) => y != x)
  }

  /**
   * What taking out every occurrence of `x` leaves: no `x`, every other element
   * as often as before, in the original order; nothing changes when `x` was absent.
   */
  lemma WithoutSpec<T>(s: seq<T>, x: T)
    ensures x !in Without(s, x)
    ensures forall y :: y != x ==> multiset(Without(s, x))[y] == multiset(s)[y]
    ensures IsSubseq(Without(s, x), s)
    ensures x !in s ==> Without(s, x) == s
    ensures NoDuplicates(s) ==> NoDuplicates(Without(s, x))
  {
    var p := (y: T) => y != x;
    FilterMembers(s, p, x);
    forall y | y != x ensures multiset(Without(s, x))[y] == multiset(s)[y] {
      FilterMultiplicity(s, p, y);
    }
    FilterIsSubseq(s, p);
    if x !in s {
      FilterAllPass(s, p);
    }
    if NoDuplicates(s) {
      FilterNoDuplicates(s, p);
    }
  }

  /** `s.splice(i, 1)`: the element at `i` is taken out. */
  function RemoveAt<T>(s: seq<T>, i: nat): (r: seq<T>)
    requires i < |s|
    ensures |r| == |s| - 1
  {
    s[..i] + s[i + 1..]
  }

  /** `s.splice(i, 0, x)`: `x` is put in front of the element at `i`. */
  function InsertAt<T>(s: seq<T>, i: nat, x: T): (r: seq<T>)
    requires i <= |s|
    ensures |r| == |s| + 1
  {
    s[..i] + [x] + s[i..]
  }

  /**
   * Takes the element at `from` out and puts it back in at `to`, where `to` is
   * an index of the sequence before the removal: the splice pair of a drop.
   */
  function Move<T>(s: seq<T>, from: nat, to: nat): seq<T>
    requires from < |s| && to < |s|
  {
    InsertAt(RemoveAt(s, from), to, s[from])
  }

  /** A move keeps the length and the elements: the result is a permutation of the input. */
  lemma MovePermutation<T>(s: seq<T>, from: nat, to: nat)
    requires from < |s| && to < |s|
    ensures |Move(s, from, to)| == |s|
    ensures multiset(Move(s, from, to)) == multiset(s)
  {
    var rest := RemoveAt(s, from);
    assert s == s[..from] + [s[from]] + s[from + 1..];
    assert rest[..to] + rest[to..] == rest;
    calc {
      multiset(Move(s, from, to));
      multiset(rest[..to]) + multiset([s[from]]) + multiset(rest[to..]);
      multiset(rest) + multiset([s[from]]);
      multiset(s[..from]) + multiset(s[from + 1..]) + multiset([s[from]]);
      multiset(s);
    }
  }

  /**
   * Where each element ends up: the moved element lands at `to`; the elements
   * between the two positions shift one place towards `from`; the rest stay.
   */
  lemma MovePositions<T>(s: seq<T>, from: nat, to: nat)
    requires from < |s| && to < |s|
    ensures |Move(s, from, to)| == |s|
    ensures Move(s, from, to)[to] == s[from]
    ensures forall k :: 0 <= k < |s| && k < from && k < to ==> Move(s, from, to)[k] == s[k]
    ensures forall k :: 0 <= k < |s| && k > from && k > to ==> Move(s, from, to)[k] == s[k]
    ensures forall k :: from <= k < to ==> Move(s, from, to)[k] == s[k + 1]
    ensures forall k :: to < k <= from ==> Move(s, from, to)[k] == s[k - 1]
  {
  }

  /** The elements at `i` and `i + 1` trade places. */
  function SwapNeighbours<T>(s: seq<T>, i: nat): (r: seq<T>)
    requires i + 1 < |s|
    ensures |r| == |s| && r[i] == s[i + 1] && r[i + 1] == s[i]
    ensures forall k :: 0 <= k < |s| && k != i && k != i + 1 ==> r[k] == s[k]
  {
    s[i := s[i + 1]][i + 1 := s[i]]
  }

  /** Swapping the same neighbours twice gives back the sequence. */
  lemma SwapNeighboursTwice<T>(s: seq<T>, i: nat)
    requires i + 1 < |s|
    ensures SwapNeighbours(SwapNeighbours(s, i), i) == s
  {
  }

  /** Moving an element onto a neighbour's index, in either direction, swaps the two. */
  lemma MoveNeighbourSwap<T>(s: seq<T>, i: nat)
    requires i + 1 < |s|
    ensures Move(s, i, i + 1) == SwapNeighbours(s, i)
    ensures Move(s, i + 1, i) == SwapNeighbours(s, i)
  {
  }

  /** So a move onto a neighbour is undone by the same move. */
  lemma MoveNeighbourUndone<T>(s: seq<T>, i: nat)
    requires i + 1 < |s|
    ensures Move(Move(s, i, i + 1), i, i + 1) == s
  {
    MoveNeighbourSwap(s, i);
    MoveNeighbourSwap(Move(s, i, i + 1), i);
    SwapNeighboursTwice(s, i);
  }
}
