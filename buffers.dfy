/**
 * The element-moving loops of src/btree.c over the `items` and `children`
 * buffers of a node, one method per loop shape. Each states the whole buffer
 * it leaves behind, dead slots included.
 */
module Buffers {

  /** `for (j = hi; j >= lo; j--) a[j+1] = a[j];`: opens a gap at `lo` by
      moving `a[lo..hi]` one slot up; slot `lo` keeps its old value. */
  method ShiftUp<T>(a: seq<T>, lo: int, hi: int) returns (b: seq<T>)
    requires 0 <= lo <= hi + 1 && hi + 1 < |a|
    ensures b == a[..lo + 1] + a[lo..hi + 1] + a[hi + 2..]
  {
    b := a;
    var j := hi;
    while j >= lo
      invariant lo - 1 <= j <= hi && |b| == |a|
      invariant forall q :: 0 <= q < |a| && !(j + 1 < q <= hi + 1) ==> b[q] == a[q]
      invariant forall q :: j + 1 < q <= hi + 1 ==> b[q] == a[q - 1]
    {
      b := b[j + 1 := b[j]];
      j := j - 1;
    }
    assert forall q :: 0 <= q < |b| ==> b[q] == (a[..lo + 1] + a[lo..hi + 1] + a[hi + 2..])[q];
  }

  /** `for (j = lo; j < hi; j++) a[j] = a[j+1];`: closes slot `lo` by moving
      `a[lo+1..hi]` one slot down; slot `hi` keeps its old value. */
  method ShiftDown<T>(a: seq<T>, lo: int, hi: int) returns (b: seq<T>)
    requires 0 <= lo <= hi < |a|
    ensures b == a[..lo] + a[lo + 1..hi + 1] + a[hi..]
  {
    b := a;
    var j := lo;
    while j < hi
      invariant lo <= j <= hi && |b| == |a|
      invariant forall q :: 0 <= q < |a| && !(lo <= q < j) ==> b[q] == a[q]
      invariant forall q :: lo <= q < j ==> b[q] == a[q + 1]
    {
      b := b[j := b[j + 1]];
      j := j + 1;
    }
    assert forall q :: 0 <= q < |b| ==> b[q] == (a[..lo] + a[lo + 1..hi + 1] + a[hi..])[q];
  }

  /** `for (j = 0; j < count; j++) dst[at+j] = src[from+j];` (also the
      `memcpy` of `count` items): `src[from..from+count)` lands at `at`. */
  method Copy<T>(dst: seq<T>, at: int, src: seq<T>, from: int, count: int) returns (b: seq<T>)
    requires 0 <= count && 0 <= at && at + count <= |dst| && 0 <= from && from + count <= |src|
    ensures b == dst[..at] + src[from..from + count] + dst[at + count..]
  {
    b := dst;
    var j := 0;
    while j < count
      invariant 0 <= j <= count && |b| == |dst|
      invariant forall q :: 0 <= q < |dst| && !(at <= q < at + j) ==> b[q] == dst[q]
      invariant forall q :: at <= q < at + j ==> b[q] == src[q - at + from]
    {
      b := b[at + j := src[from + j]];
      j := j + 1;
    }
    assert forall q :: 0 <= q < |b| ==> b[q] == (dst[..at] + src[from..from + count] + dst[at + count..])[q];
  }
}
