// The values a cell of the tic-tac-toe board can hold, and counting over boards.

module Marks {

  /** The content of one square: `null` in the component's state, `X`, or
      the digit `0` (the second player's mark is the digit zero, not the letter O). */
  datatype Mark = Empty | X | Zero

  /** An index of a square, 0..8 in row-major order. */
  type Cell = i: int | 0 <= i < 9

  /** The component's `squares` state: always exactly nine marks. */
  type Squares = s: seq<Mark> | |s| == 9 witness [Empty, Empty, Empty, Empty, Empty, Empty, Empty, Empty, Empty]

  /** The board the component starts from: nine `null`s. */
  const EmptySquares: Squares := [Empty, Empty, Empty, Empty, Empty, Empty, Empty, Empty, Empty]

  /** Number of positions of `s` that hold `m`. */
  function CountOf(s: seq<Mark>, m: Mark): (n: nat)
    ensures n <= |s|
  {
    if s == [] then 0 else (if s[0] == m then 1 else 0) + CountOf(s[1..], m)
  }

  /** Number of occupied squares. */
  function Filled(s: seq<Mark>): nat
  {
    CountOf(s, X) + CountOf(s, Zero)
  }

  /** Every position holds exactly one of the three marks. */
  lemma {:induction false} CountsPartition(s: seq<Mark>)
    ensures CountOf(s, Empty) + CountOf(s, X) + CountOf(s, Zero) == |s|
  {
    if s != [] {
      CountsPartition(s[1..]);
    }
  }

  /** A count of `m` is positive exactly when `m` occurs somewhere. */
  lemma {:induction false} CountPositive(s: seq<Mark>, m: Mark)
    ensures CountOf(s, m) > 0 <==> exists j :: 0 <= j < |s| && s[j] == m
  {
    if s != [] {
      CountPositive(s[1..], m);
      if CountOf(s[1..], m) > 0 {
        var j :| 0 <= j < |s[1..]| && s[1..][j] == m;
        assert s[j + 1] == m;
      }
      if exists j :: 0 <= j < |s| && s[j] == m {
        var j :| 0 <= j < |s| && s[j] == m;
        if j > 0 {
          assert s[1..][j - 1] == m;
        }
      }
    }
  }

  /** Writing `v` at position `i` changes the count of `m` by what left and what came in. */
  lemma {:induction false} CountOfUpdate(s: seq<Mark>, i: int, v: Mark, m: Mark)
    requires 0 <= i < |s|
    ensures CountOf(s[i := v], m)
         == CountOf(s, m) - (if s[i] == m then 1 else 0) + (if v == m then 1 else 0)
  {
    if i == 0 {
      assert s[i := v][1..] == s[1..];
    } else {
      assert s[i := v][1..] == s[1..][i - 1 := v];
      CountOfUpdate(s[1..], i - 1, v, m);
    }
  }
}
