/** Concatenation of sequences and the row-major layout of a grid in a flat sequence. */
module Sequences {

  /** The concatenation, in order, of a sequence of sequences. */
  function Concat<T>(ss: seq<seq<T>>): (r: seq<T>)
  {
    if ss == [] then [] else ss[0] + Concat(ss[1..])
  }

  /** Every piece has `n` elements. */
  predicate Uniform<T>(ss: seq<seq<T>>, n: nat) {
    forall i :: 0 <= i < |ss| ==> |ss[i]| == n
  }

  /** The number of cells in `m` rows of `n` cells, counted row by row. */
  function GridSize(m: nat, n: nat): nat
  {
    if m == 0 then 0 else n + GridSize(m - 1, n)
  }

  /** Counting row by row gives the product. */
  lemma {:induction false} GridSizeIsProduct(m: nat, n: nat)
    ensures GridSize(m, n) == m * n
  {
    if m > 0 {
      GridSizeIsProduct(m - 1, n);
      MulSucc(m - 1, n);
    }
  }

  /** The position of cell `(r, c)` in the row-major order of rows of `n` cells:
      the `r` rows before it, then `c` cells of its own row. */
  function RowMajor(r: nat, c: nat, n: nat): (k: nat)
    requires c < n
  {
    GridSize(r, n) + c
  }

  /** The row-major position of `(r, c)` is `r * n + c`, and dividing it by `n`
      gives back the row and the column. */
  lemma RowMajorSplit(r: nat, c: nat, n: nat)
    requires c < n
    ensures RowMajor(r, c, n) == r * n + c
    ensures RowMajor(r, c, n) / n == r && RowMajor(r, c, n) % n == c
  {
    GridSizeIsProduct(r, n);
    DivModUnique(r * n + c, n, r, c);
  }

  /** Concatenating `m` pieces of `n` elements gives `m * n` elements. */
  lemma {:induction false} ConcatUniformLength<T>(ss: seq<seq<T>>, n: nat)
    requires Uniform(ss, n)
    ensures |Concat(ss)| == GridSize(|ss|, n)
  {
    if ss != [] {
      ConcatUniformLength(ss[1..], n);
    }
  }

  /** In a concatenation of pieces of `n` elements, element `j` of piece `i` sits at
      the row-major position of `(i, j)`. */
  lemma {:induction false} ConcatUniformAt<T>(ss: seq<seq<T>>, n: nat, i: nat, j: nat)
    requires Uniform(ss, n) && i < |ss| && j < n
    ensures RowMajor(i, j, n) < |Concat(ss)| && Concat(ss)[RowMajor(i, j, n)] == ss[i][j]
    decreases i
  {
    ConcatUniformLength(ss, n);
    if i > 0 {
      ConcatUniformAt(ss[1..], n, i - 1, j);
      assert RowMajor(i, j, n) == n + RowMajor(i - 1, j, n);
    } else {
      ConcatUniformLength(ss[1..], n);
    }
  }

  /** Euclidean division of `k` by `n` is the only way to write `k` as `q * n + r` with `0 <= r < n`. */
  lemma DivModUnique(k: int, n: int, q: int, r: int)
    requires 0 < n && 0 <= r < n && k == q * n + r
    ensures k / n == q && k % n == r
  {
    var q0, r0 := k / n, k % n;
    assert k == q0 * n + r0;
    if q > q0 {
      MulLe(q0 + 1, q, n);
      assert false;
    } else if q < q0 {
      MulLe(q + 1, q0, n);
      assert false;
    }
  }

  lemma MulSucc(a: int, n: int)
    ensures (a + 1) * n == n + a * n
  {
  }

  lemma MulLe(a: int, b: int, n: int)
    requires a <= b && 0 <= n
    ensures a * n <= b * n
  {
    assert b * n == a * n + (b - a) * n;
  }
}
