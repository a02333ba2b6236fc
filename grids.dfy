/**
 * Two-dimensional grids of samples. The source's arrays are addressed as
 * (x, y) with x along size(0) and y along size(1); a grid value keeps that
 * order, `g[x][y]`.
 */
module Grids {

  /** The values an 8-bit unsigned image can hold. */
  type UInt8 = x: int | 0 <= x < 256

  /** A grid as a value: one column of samples per x. */
  type Grid<T> = seq<seq<T>>

  /** The grid holds every position of [0, w) x [0, h) (it may be larger). */
  predicate Covers<T>(g: Grid<T>, w: nat, h: nat)
  {
    |g| >= w && forall x :: 0 <= x < w ==> |g[x]| >= h
  }

  /** The contents of a two-dimensional array, as a grid value. */
  function Cells<T>(a: array2<T>): (g: Grid<T>)
    reads a
    ensures |g| == a.Length0 && Covers(g, a.Length0, a.Length1)
    ensures forall x :: 0 <= x < a.Length0 ==> |g[x]| == a.Length1
    ensures forall x, y :: 0 <= x < a.Length0 && 0 <= y < a.Length1 ==> g[x][y] == a[x, y]
  {
    seq(a.Length0, x requires 0 <= x < a.Length0 reads a =>
      seq(a.Length1, y requires 0 <= y < a.Length1 reads a => a[x, y]))
  }

  /** Channel `c` of a three-dimensional (x, y, channel) array, as a grid value. */
  function ChannelCells<T>(a: array3<T>, c: nat): (g: Grid<T>)
    requires c < a.Length2
    reads a
    ensures |g| == a.Length0 && Covers(g, a.Length0, a.Length1)
    ensures forall x :: 0 <= x < a.Length0 ==> |g[x]| == a.Length1
    ensures forall x, y :: 0 <= x < a.Length0 && 0 <= y < a.Length1 ==> g[x][y] == a[x, y, c]
  {
    seq(a.Length0, x requires 0 <= x < a.Length0 reads a =>
      seq(a.Length1, y requires 0 <= y < a.Length1 reads a => a[x, y, c]))
  }
}
