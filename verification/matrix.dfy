/** Two-dimensional grids as sequences of rows, and counting over them.
    The planner counts occupied, blocked and empty cells over the whole grid. */
module Matrices {

  /** A matrix is a sequence of rows; nothing forces the rows to share a length. */
  type Matrix<T> = seq<seq<T>>

  /** `m` has exactly `rows` rows of `cols` entries each. */
  predicate IsRectangular<T>(m: Matrix<T>, rows: nat, cols: nat)
  {
    |m| == rows && forall r :: 0 <= r < |m| ==> |m[r]| == cols
  }

  /** Number of entries of one row that satisfy `p`. */
  function CountRow<T>(row: seq<T>, p: T -> bool): (n: nat)
    ensures n <= |row|
  {
    if |row| == 0 then 0
    else CountRow(row[..|row| - 1], p) + (if p(row[|row| - 1]) then 1 else 0)
  }

  /** Number of entries of `m`, over all rows, that satisfy `p`. */
  function Count<T>(m: Matrix<T>, p: T -> bool): nat
  {
    if |m| == 0 then 0 else Count(m[..|m| - 1], p) + CountRow(m[|m| - 1], p)
  }

  /** Number of entries of `m`, over all rows. */
  function Size<T>(m: Matrix<T>): nat
  {
    if |m| == 0 then 0 else Size(m[..|m| - 1]) + |m[|m| - 1]|
  }

  lemma {:induction false} CountRowZero<T>(row: seq<T>, p: T -> bool)
    ensures CountRow(row, p) == 0 <==> forall i :: 0 <= i < |row| ==> !p(row[i])
  {
    if |row| > 0 {
      var init := row[..|row| - 1];
      CountRowZero(init, p);
      assert forall i :: 0 <= i < |init| ==> init[i] == row[i];
    }
  }

  /** A count is zero exactly when no entry satisfies the predicate. */
  lemma {:induction false} CountZero<T>(m: Matrix<T>, p: T -> bool)
    ensures Count(m, p) == 0 <==> forall r, c :: 0 <= r < |m| && 0 <= c < |m[r]| ==> !p(m[r][c])
  {
    if |m| > 0 {
      var init := m[..|m| - 1];
      CountZero(init, p);
      CountRowZero(m[|m| - 1], p);
      assert forall r :: 0 <= r < |init| ==> init[r] == m[r];
    }
  }

  /** Exactly one of three predicates holds of `x`. */
  predicate OneOf<T>(x: T, p: T -> bool, q: T -> bool, s: T -> bool)
  {
    (if p(x) then 1 else 0) + (if q(x) then 1 else 0) + (if s(x) then 1 else 0) == 1
  }

  lemma {:induction false} CountRowPartition<T>(row: seq<T>, p: T -> bool, q: T -> bool, s: T -> bool)
    requires forall i :: 0 <= i < |row| ==> OneOf(row[i], p, q, s)
    ensures CountRow(row, p) + CountRow(row, q) + CountRow(row, s) == |row|
  {
    if |row| > 0 {
      var init := row[..|row| - 1];
      assert forall i :: 0 <= i < |init| ==> init[i] == row[i];
      CountRowPartition(init, p, q, s);
      assert OneOf(row[|row| - 1], p, q, s);
    }
  }

  /** Three predicates that split every entry three ways split the entry count. */
  lemma {:induction false} CountPartition<T>(m: Matrix<T>, p: T -> bool, q: T -> bool, s: T -> bool)
    requires forall r, c :: 0 <= r < |m| && 0 <= c < |m[r]| ==> OneOf(m[r][c], p, q, s)
    ensures Count(m, p) + Count(m, q) + Count(m, s) == Size(m)
  {
    if |m| > 0 {
      var init := m[..|m| - 1];
      assert forall r :: 0 <= r < |init| ==> init[r] == m[r];
      CountPartition(init, p, q, s);
      CountRowPartition(m[|m| - 1], p, q, s);
    }
  }

  /** A rectangular matrix has `rows * cols` entries. */
  lemma {:induction false} SizeRectangular<T>(m: Matrix<T>, rows: nat, cols: nat)
    requires IsRectangular(m, rows, cols)
    ensures Size(m) == rows * cols
  {
    if rows > 0 {
      var init := m[..rows - 1];
      assert IsRectangular(init, rows - 1, cols);
      SizeRectangular(init, rows - 1, cols);
      assert (rows - 1) * cols + cols == rows * cols;
    }
  }

  lemma {:induction false} CountRowCongruent<T, U>(a: seq<T>, p: T -> bool, b: seq<U>, q: U -> bool)
    requires |a| == |b|
    requires forall i :: 0 <= i < |a| ==> p(a[i]) == q(b[i])
    ensures CountRow(a, p) == CountRow(b, q)
  {
    if |a| > 0 {
      var ia, ib := a[..|a| - 1], b[..|b| - 1];
      assert forall i :: 0 <= i < |ia| ==> ia[i] == a[i] && ib[i] == b[i];
      CountRowCongruent(ia, p, ib, q);
    }
  }

  /** Two matrices of the same shape whose entries agree on the predicates
      have the same count. */
  lemma {:induction false} CountCongruent<T, U>(a: Matrix<T>, p: T -> bool, b: Matrix<U>, q: U -> bool)
    requires |a| == |b|
    requires forall r :: 0 <= r < |a| ==> |a[r]| == |b[r]|
    requires forall r, c :: 0 <= r < |a| && 0 <= c < |a[r]| ==> p(a[r][c]) == q(b[r][c])
    ensures Count(a, p) == Count(b, q)
  {
    if |a| > 0 {
      var ia, ib := a[..|a| - 1], b[..|b| - 1];
      assert forall r :: 0 <= r < |ia| ==> ia[r] == a[r] && ib[r] == b[r];
      CountCongruent(ia, p, ib, q);
      CountRowCongruent(a[|a| - 1], p, b[|b| - 1], q);
    }
  }

  /** Replacing one entry of a row changes its count by what the new entry
      adds and the old one took away. */
  lemma {:induction false} CountRowUpdate<T>(row: seq<T>, i: nat, x: T, p: T -> bool)
    requires i < |row|
    ensures CountRow(row[i := x], p) + (if p(row[i]) then 1 else 0) == CountRow(row, p) + (if p(x) then 1 else 0)
  {
    var n := |row|;
    var row' := row[i := x];
    if i == n - 1 {
      assert row'[..n - 1] == row[..n - 1];
    } else {
      CountRowUpdate(row[..n - 1], i, x, p);
      assert row'[..n - 1] == row[..n - 1][i := x];
    }
  }

  /** Replacing one entry of a matrix changes its count by what the new entry
      adds and the old one took away. */
  lemma {:induction false} CountUpdate<T>(m: Matrix<T>, r: nat, c: nat, x: T, p: T -> bool)
    requires r < |m| && c < |m[r]|
    ensures Count(m[r := m[r][c := x]], p) + (if p(m[r][c]) then 1 else 0) == Count(m, p) + (if p(x) then 1 else 0)
  {
    var n := |m|;
    var m' := m[r := m[r][c := x]];
    if r == n - 1 {
      assert m'[..n - 1] == m[..n - 1];
      CountRowUpdate(m[r], c, x, p);
    } else {
      CountUpdate(m[..n - 1], r, c, x, p);
      assert m'[..n - 1] == m[..n - 1][r := m[r][c := x]];
    }
  }
}
