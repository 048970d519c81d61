/**
 * `node_delete` of src/btree.c as a function on node values, as the code is
 * written: the scan for the key, the removal from a leaf, the cases of a key
 * found in an internal node (2a: delete the last item of the leaf reached by
 * following `children[n-1]` from the left child, 2b: delete the last item of
 * the leftmost leaf under the right child, both returning before the key is
 * replaced; 2c: merge the two children and go on), and case 3, the fix of
 * an under-full child before descending into it. Undefined behaviour of the
 * C code is the `Undefined` outcome.
 */
module Removal {
  import opened Model
  import opened Lookup
  import Primitives
  import Growth

  /** What `node_delete` leaves: the subtree, and the value it returns
      (1 when an item was removed, 0 otherwise). */
  datatype Removed = Removed(tree: Tree, res: int)

  /** A subtree `node_delete` may be called on: well formed, balanced, no
      node over `2t-1` items. */
  ghost predicate Deletable(m: Tree, t: int)
  {
    t >= 2 && WellFormed(m) && Balanced(m) && Capped(m, t)
  }

  /** `ks` without its element at `i`. */
  function Cut(ks: seq<int>, i: int): seq<int>
    requires 0 <= i < |ks|
  {
    ks[..i] + ks[i + 1..]
  }

  // ---------------------------------------------------------------------
  // The walks of cases 2a and 2b
  // ---------------------------------------------------------------------

  /** Case 2a's walk: from `y`, follow `children[n-1]` down to a leaf and
      take its last item. A node without items makes the walk read
      `children[-1]` or `items[-1]`. */
  ghost function PredecessorWalk(m: Tree): (r: Outcome<int>)
    requires WellFormed(m)
    ensures r.Ok? ==> r.value in Flat(m)
  {
    if m.children == [] then
      if m.items == [] then Undefined else Ok(m.items[|m.items| - 1])
    else if m.items == [] then Undefined
    else
      var r := PredecessorWalk(m.children[|m.items| - 1]);
      FlatAt(m, |m.items| - 1);
      r
  }

  /** The walk down `children[0]` to a leaf, taking its last item. */
  ghost function LeftmostLast(m: Tree): (r: Outcome<int>)
    requires WellFormed(m)
    ensures r.Ok? ==> r.value in Flat(m)
  {
    if m.children == [] then
      if m.items == [] then Undefined else Ok(m.items[|m.items| - 1])
    else
      var r := LeftmostLast(m.children[0]);
      FlatAt(m, 0);
      r
  }

  /** Case 2b's walk: it starts from `z->children[0]`, a NULL dereference
      when `z` is a leaf. */
  ghost function SuccessorWalk(z: Tree): (r: Outcome<int>)
    requires WellFormed(z)
    ensures r.Ok? ==> r.value in Flat(z)
  {
    if z.children == [] then Undefined
    else
      var r := LeftmostLast(z.children[0]);
      FlatAt(z, 0);
      r
  }

  // ---------------------------------------------------------------------
  // Case 3: the fix before the descent
  // ---------------------------------------------------------------------

  /** Case 3 of `node_delete` before it recurses: when the child `ii` has
      fewer than `t` items, borrow from the left sibling (`node_shift_right`),
      else from the right one (`node_shift_left`), else merge with the left
      sibling, else with the right one. Returns the node and the index of
      the child to descend into. */
  ghost function Fix(m: Tree, ii: int, t: int): (r: (Tree, int))
    requires Deletable(m, t) && m.children != [] && 0 <= ii <= |m.items|
    ensures |r.0.children| == |r.0.items| + 1 && 0 <= r.1 < |r.0.children|
    ensures |m.items| - 1 <= |r.0.items| <= |m.items|
    ensures |m.children[ii].items| >= t ==> r == (m, ii)
  {
    if |m.children[ii].items| < t then
      if ii > 0 && |m.children[ii - 1].items| >= t then
        Primitives.ShiftRightKeeps(m, ii - 1);
        (Primitives.ShiftRight(m, ii - 1), ii)
      else if ii < |m.children| - 1 && |m.children[ii + 1].items| >= t then
        (Primitives.ShiftLeft(m, ii), ii)
      else if ii > 0 then
        (Primitives.Merge(m, ii - 1), ii - 1)
      else if ii < |m.children| - 1 then
        (Primitives.Merge(m, ii), ii)
      else
        (m, ii)
    else
      (m, ii)
  }

  // ---------------------------------------------------------------------
  // node_delete
  // ---------------------------------------------------------------------

  /** `node_delete(m, k)` as written. */
  ghost function Delete(m: Tree, k: int, t: int): (r: Outcome<Removed>)
    requires Deletable(m, t)
    decreases Height(m), 1
    ensures r.Ok? ==> r.value.res == 0 || r.value.res == 1
    ensures r.Ok? ==> (r.value.tree.children == [] <==> m.children == [])
    ensures r.Ok? ==> |m.items| - 1 <= |r.value.tree.items| <= |m.items|
  {
    if m.items == [] then Undefined
    else
      var i := Seek(m.items, k);
      if i < |m.items| && m.items[i] == k then
        if m.children == [] then Ok(Removed(Node(Cut(m.items, i), []), 1))
        else if |m.children[i].items| >= t then
          match PredecessorWalk(m.children[i])
          case Undefined => Undefined
          case Ok(kk) => Within(m, i, kk, t)
        else if |m.children[i + 1].items| >= t then
          match SuccessorWalk(m.children[i + 1])
          case Undefined => Undefined
          case Ok(kk) => Within(m, i + 1, kk, t)
        else
          MergeDeletable(m, i, t);
          Within(Primitives.Merge(m, i), i, k, t)
      else if m.children == [] then Ok(Removed(m, 0))
      else
        FixDeletable(m, i, t);
        Within(Fix(m, i, t).0, Fix(m, i, t).1, k, t)
  }

  /** The recursive call on child `j` of `x`, its result put back in
      place. */
  ghost function Within(x: Tree, j: int, k: int, t: int): (r: Outcome<Removed>)
    requires Deletable(x, t) && x.children != [] && 0 <= j < |x.children|
    decreases Height(x), 0
    ensures r.Ok? ==> r.value.tree.items == x.items && |r.value.tree.children| == |x.children|
    ensures r.Ok? ==> r.value.res == 0 || r.value.res == 1
    ensures r.Ok? ==> forall q :: 0 <= q < |x.children| && q != j ==> r.value.tree.children[q] == x.children[q]
  {
    ChildDeletable(x, j, t);
    match Delete(x.children[j], k, t)
    case Undefined => Undefined
    case Ok(d) => Ok(Removed(Node(x.items, x.children[j := d.tree]), d.res))
  }

  // ---------------------------------------------------------------------
  // Shape lemmas
  // ---------------------------------------------------------------------

  /** A child of a node `node_delete` may be called on is one too, one level
      lower. */
  lemma ChildDeletable(x: Tree, j: int, t: int)
    requires Deletable(x, t) && x.children != [] && 0 <= j < |x.children|
    ensures Deletable(x.children[j], t) && Height(x.children[j]) == Height(x) - 1
  {
    UniformChildren(x);
  }

  /** A node whose items fit and whose children are all taken from a
      sequence of capped trees is capped. */
  lemma CappedFrom(ks: seq<int>, cs: seq<Tree>, src: seq<Tree>, t: int)
    requires |ks| <= 2 * t - 1
    requires forall q :: 0 <= q < |src| ==> Capped(src[q], t)
    requires forall q :: 0 <= q < |cs| ==> cs[q] in src
    ensures Capped(Node(ks, cs), t)
  {
    forall q | 0 <= q < |cs| ensures Capped(cs[q], t) {
      assert cs[q] in src;
      var j :| 0 <= j < |src| && src[j] == cs[q];
    }
  }

  /** `node_child_merge` keeps every node capped when the merged child
      fits. */
  lemma MergeCapped(m: Tree, i: int, t: int)
    requires Capped(m, t) && 0 <= i < |m.items| && i + 1 < |m.children|
    requires |m.children[i].items| + 1 + |m.children[i + 1].items| <= 2 * t - 1
    ensures Capped(Primitives.Merge(m, i), t)
  {
    var x := Primitives.Merge(m, i);
    var y := m.children[i];
    var z := m.children[i + 1];
    var w := x.children[i];
    assert Capped(y, t) && Capped(z, t);
    CappedFrom(w.items, w.children, y.children + z.children, t);
    CappedFrom(x.items, x.children, m.children + [w], t);
  }

  /** `node_shift_right` keeps every node capped when the right child has
      room. */
  lemma ShiftRightCapped(m: Tree, i: int, t: int)
    requires Capped(m, t) && 0 <= i < |m.items| && i + 1 < |m.children| && |m.children[i].items| >= 1
    requires m.children[i + 1].children != [] ==> |m.children[i].children| >= 1
    requires |m.children[i + 1].items| < 2 * t - 1
    ensures Capped(Primitives.ShiftRight(m, i), t)
  {
    var x := Primitives.ShiftRight(m, i);
    var y := m.children[i];
    var z := m.children[i + 1];
    assert Capped(y, t) && Capped(z, t);
    CappedFrom(x.children[i].items, x.children[i].children, y.children, t);
    CappedFrom(x.children[i + 1].items, x.children[i + 1].children, y.children + z.children, t);
    CappedFrom(x.items, x.children, m.children + [x.children[i], x.children[i + 1]], t);
  }

  /** `node_shift_left` keeps every node capped when the left child has
      room. */
  lemma ShiftLeftCapped(m: Tree, i: int, t: int)
    requires Capped(m, t) && 0 <= i < |m.items| && i + 1 < |m.children| && |m.children[i + 1].items| >= 1
    requires |m.children[i].items| < 2 * t - 1
    ensures Capped(Primitives.ShiftLeft(m, i), t)
  {
    var x := Primitives.ShiftLeft(m, i);
    var y := m.children[i];
    var z := m.children[i + 1];
    assert Capped(y, t) && Capped(z, t);
    CappedFrom(x.children[i].items, x.children[i].children, y.children + z.children, t);
    CappedFrom(x.children[i + 1].items, x.children[i + 1].children, z.children, t);
    CappedFrom(x.items, x.children, m.children + [x.children[i], x.children[i + 1]], t);
  }

  /** Merging two children with fewer than `t` items each keeps a node
      `node_delete` may be called on. */
  lemma MergeDeletable(m: Tree, i: int, t: int)
    requires Deletable(m, t) && m.children != [] && 0 <= i < |m.items|
    requires |m.children[i].items| < t && |m.children[i + 1].items| < t
    ensures Deletable(Primitives.Merge(m, i), t) && Height(Primitives.Merge(m, i)) == Height(m)
    ensures Flat(Primitives.Merge(m, i)) == Flat(m)
    ensures Primitives.Merge(m, i).children != [] && |Primitives.Merge(m, i).items| == |m.items| - 1
  {
    Primitives.MergeKeeps(m, i);
    MergeCapped(m, i, t);
  }

  /** The node and child index case 3's fix leaves: a node `node_delete`
      may be called on, of the same height and with the same in-order
      sequence, and a live child. */
  ghost predicate Refit(m: Tree, x: Tree, j: int, t: int)
  {
    Deletable(x, t) && Height(x) == Height(m) && x.children != [] && 0 <= j < |x.children| &&
    Flat(x) == Flat(m)
  }

  /** Case 3's fix keeps a node `node_delete` may be called on, of the same
      height and with the same in-order sequence, and names a live child. */
  lemma FixDeletable(m: Tree, ii: int, t: int)
    requires Deletable(m, t) && m.children != [] && 0 <= ii <= |m.items|
    ensures Refit(m, Fix(m, ii, t).0, Fix(m, ii, t).1, t)
  {
    if |m.children[ii].items| < t {
      if ii > 0 && |m.children[ii - 1].items| >= t {
        BorrowLeft(m, ii, t);
      } else if ii < |m.children| - 1 && |m.children[ii + 1].items| >= t {
        BorrowRight(m, ii, t);
      } else if ii > 0 {
        MergeDeletable(m, ii - 1, t);
      } else if ii < |m.children| - 1 {
        MergeDeletable(m, ii, t);
      }
    }
  }

  /** Case 3 borrowing from the left sibling (`node_shift_right`) leaves a
      node `node_delete` may be called on, whose child `ii` now has room
      to lose an item, with the in-order sequence unchanged. */
  lemma BorrowLeft(m: Tree, ii: int, t: int)
    requires Deletable(m, t) && m.children != [] && 0 < ii <= |m.items|
    requires |m.children[ii].items| < t && |m.children[ii - 1].items| >= t
    ensures m.children[ii].children != [] ==> |m.children[ii - 1].children| >= 1
    ensures Refit(m, Primitives.ShiftRight(m, ii - 1), ii, t)
  {
    Primitives.ShiftRightKeeps(m, ii - 1);
    ShiftRightCapped(m, ii - 1, t);
  }

  /** Case 3 borrowing from the right sibling (`node_shift_left`): as
      `BorrowLeft`. */
  lemma BorrowRight(m: Tree, ii: int, t: int)
    requires Deletable(m, t) && m.children != [] && 0 <= ii < |m.items|
    requires |m.children[ii].items| < t && |m.children[ii + 1].items| >= t
    ensures Refit(m, Primitives.ShiftLeft(m, ii), ii, t)
  {
    Primitives.ShiftLeftKeeps(m, ii);
    ShiftLeftCapped(m, ii, t);
  }

  // ---------------------------------------------------------------------
  // What node_delete does to the in-order sequence
  // ---------------------------------------------------------------------

  /** `b` is `a` with one element taken out. */
  ghost predicate OneLess(b: seq<int>, a: seq<int>)
  {
    exists j :: 0 <= j < |a| && b == Cut(a, j)
  }

  /** What a defined `node_delete` leaves of the subtree `m`: a subtree it
      may be called on again, of the same height, with the same in-order
      sequence when it returns 0 and with one element taken out when it
      returns 1. */
  ghost predicate Shrinks(m: Tree, d: Removed, t: int)
  {
    Deletable(d.tree, t) && Height(d.tree) == Height(m) && (d.res == 0 || d.res == 1) &&
    (d.res == 0 ==> Flat(d.tree) == Flat(m)) &&
    (d.res == 1 ==> OneLess(Flat(d.tree), Flat(m)))
  }

  /** `node_delete`, wherever it is defined, leaves a subtree it may be
      called on again, of the same height, whose in-order sequence is the
      old one when it returns 0 and the old one less one element when it
      returns 1; and it only returns 1 when `k` is in the subtree. */
  lemma {:induction false} DeleteShrinks(m: Tree, k: int, t: int)
    requires Deletable(m, t) && Delete(m, k, t).Ok?
    ensures Shrinks(m, Delete(m, k, t).value, t)
    ensures Delete(m, k, t).value.res == 1 ==> k in Flat(m)
    decreases Height(m), 1
  {
    var i := Seek(m.items, k);
    if i < |m.items| && m.items[i] == k {
      ItemInFlat(m, i);
      if m.children == [] {
        assert Cut(Flat(m), i) == Cut(m.items, i);
        assert Deletable(Node(Cut(m.items, i), []), t);
      } else if |m.children[i].items| >= t {
        WithinShrinks(m, i, PredecessorWalk(m.children[i]).value, t);
      } else if |m.children[i + 1].items| >= t {
        WithinShrinks(m, i + 1, SuccessorWalk(m.children[i + 1]).value, t);
      } else {
        MergeDeletable(m, i, t);
        WithinShrinks(Primitives.Merge(m, i), i, k, t);
      }
    } else if m.children != [] {
      FixDeletable(m, i, t);
      WithinShrinks(Fix(m, i, t).0, Fix(m, i, t).1, k, t);
    }
  }

  /** `Within` keeps what `node_delete` keeps, one level up. */
  lemma {:induction false} WithinShrinks(x: Tree, j: int, k: int, t: int)
    requires Deletable(x, t) && x.children != [] && 0 <= j < |x.children| && Within(x, j, k, t).Ok?
    ensures Shrinks(x, Within(x, j, k, t).value, t)
    ensures Within(x, j, k, t).value.res == 1 ==> k in Flat(x)
    decreases Height(x), 0
  {
    ChildDeletable(x, j, t);
    var c := x.children[j];
    var d := Delete(c, k, t).value;
    DeleteShrinks(c, k, t);
    SwapChild(x, j, d.tree, t);
    SwapFlat(x, j, d.tree);
    var P := Front(x.children[..j], x.items[..j]);
    var Q := Back(x.children[j + 1..], x.items[j..]);
    if d.res == 1 {
      var j0 :| 0 <= j0 < |Flat(c)| && Flat(d.tree) == Cut(Flat(c), j0);
      CutInside(P, Flat(c), Q, j0);
    }
  }

  /** A child of a node `node_delete` may be called on replaced by another
      such subtree of the same height. */
  lemma SwapChild(x: Tree, j: int, c': Tree, t: int)
    requires Deletable(x, t) && x.children != [] && 0 <= j < |x.children|
    requires Deletable(c', t) && Height(c') == Height(x.children[j])
    ensures Deletable(Node(x.items, x.children[j := c']), t)
    ensures Height(Node(x.items, x.children[j := c'])) == Height(x)
  {
    UniformChildren(x);
    UniformUpdate(x.children, j, c', Height(x) - 1);
    NodeOver(x.items, x.children[j := c'], Height(x) - 1);
    CappedFrom(x.items, x.children[j := c'], x.children + [c'], t);
  }

  /** The in-order sequence around child `j`, before and after it is
      replaced. */
  lemma SwapFlat(x: Tree, j: int, c': Tree)
    requires x.children != [] && |x.children| == |x.items| + 1 && 0 <= j < |x.children|
    ensures Flat(x) == Front(x.children[..j], x.items[..j]) + Flat(x.children[j]) + Back(x.children[j + 1..], x.items[j..])
    ensures Flat(Node(x.items, x.children[j := c'])) ==
            Front(x.children[..j], x.items[..j]) + Flat(c') + Back(x.children[j + 1..], x.items[j..])
  {
    var r := Node(x.items, x.children[j := c']);
    FlatAt(x, j);
    FlatAt(r, j);
    assert r.children[..j] == x.children[..j] && r.children[j + 1..] == x.children[j + 1..];
  }

  /** Taking an element out of the middle piece takes it out of the whole. */
  lemma CutInside(P: seq<int>, C: seq<int>, Q: seq<int>, j0: int)
    requires 0 <= j0 < |C|
    ensures 0 <= |P| + j0 < |P + C + Q|
    ensures P + Cut(C, j0) + Q == Cut(P + C + Q, |P| + j0)
  {
    var F := P + C + Q;
    assert F[..|P| + j0] == P + C[..j0];
    assert F[|P| + j0 + 1..] == C[j0 + 1..] + Q;
  }

  // ---------------------------------------------------------------------
  // node_delete finds every key of a sorted subtree
  // ---------------------------------------------------------------------

  /** Every element of `a`'s in-order sequence is in `b`'s. */
  ghost predicate Covers(a: Tree, b: Tree)
  {
    forall v :: v in Flat(a) ==> v in Flat(b)
  }

  /** On a subtree with a sorted in-order sequence, `node_delete` returns 1
      whenever the key is in the subtree (with `DeleteShrinks`: exactly
      when it is). */
  lemma {:induction false} DeleteFinds(m: Tree, k: int, t: int)
    requires Deletable(m, t) && Sorted(Flat(m)) && Delete(m, k, t).Ok?
    ensures k in Flat(m) ==> Delete(m, k, t).value.res == 1
    decreases Height(m), 1
  {
    var i := Seek(m.items, k);
    if i < |m.items| && m.items[i] == k {
      if m.children == [] {
      } else if |m.children[i].items| >= t {
        WithinFinds(m, i, PredecessorWalk(m.children[i]).value, t);
      } else if |m.children[i + 1].items| >= t {
        WithinFinds(m, i + 1, SuccessorWalk(m.children[i + 1]).value, t);
      } else {
        MergeDeletable(m, i, t);
        Primitives.SiblingsAlike(m, i, i + 1);
        MergedFlat(m.children[i], k, m.children[i + 1]);
        WithinFinds(Primitives.Merge(m, i), i, k, t);
      }
    } else if m.children == [] {
      SeekSorted(m.items, k);
    } else {
      SeekChild(m, k);
      FixDeletable(m, i, t);
      if k in Flat(m) {
        FixCovers(m, i, t);
        WithinFinds(Fix(m, i, t).0, Fix(m, i, t).1, k, t);
      }
    }
  }

  /** `Within` returns 1 when the key is in the child it descends into. */
  lemma {:induction false} WithinFinds(x: Tree, j: int, k: int, t: int)
    requires Deletable(x, t) && x.children != [] && 0 <= j < |x.children| && Within(x, j, k, t).Ok?
    requires Sorted(Flat(x)) && k in Flat(x.children[j])
    ensures Within(x, j, k, t).value.res == 1
    decreases Height(x), 0
  {
    ChildDeletable(x, j, t);
    FlatAt(x, j);
    Piece(Front(x.children[..j], x.items[..j]), Flat(x.children[j]), Back(x.children[j + 1..], x.items[j..]));
    DeleteFinds(x.children[j], k, t);
  }

  /** Two siblings joined around an item: the in-order sequence of the
      merged node. */
  lemma MergedFlat(y: Tree, k: int, z: Tree)
    requires WellFormed(y) && WellFormed(z) && (y.children == []) == (z.children == [])
    ensures Flat(Node(y.items + [k] + z.items, y.children + z.children)) == Flat(y) + [k] + Flat(z)
  {
    if y.children != [] {
      FlatJoin(y.items, k, z.items, y.children, z.children);
    }
  }

  /** Case 3's fix keeps every element of the child it was called for in
      the child it descends into. */
  lemma FixCovers(m: Tree, ii: int, t: int)
    requires Deletable(m, t) && m.children != [] && 0 <= ii <= |m.items|
    ensures Covers(m.children[ii], Fix(m, ii, t).0.children[Fix(m, ii, t).1])
  {
    if |m.children[ii].items| < t {
      if ii > 0 && |m.children[ii - 1].items| >= t {
        BorrowLeft(m, ii, t);
        CoversLeft(m, ii);
      } else if ii < |m.children| - 1 && |m.children[ii + 1].items| >= t {
        CoversRight(m, ii);
      } else if ii > 0 {
        CoversMerge(m, ii - 1);
      } else if ii < |m.children| - 1 {
        CoversMerge(m, ii);
      }
    }
  }

  /** Borrowing from the left sibling keeps the child's elements. */
  lemma CoversLeft(m: Tree, ii: int)
    requires WellFormed(m) && Balanced(m) && m.children != [] && 0 < ii <= |m.items| && |m.children[ii - 1].items| >= 1
    requires m.children[ii].children != [] ==> |m.children[ii - 1].children| >= 1
    ensures Covers(m.children[ii], Primitives.ShiftRight(m, ii - 1).children[ii])
  {
    Primitives.SiblingsAlike(m, ii - 1, ii);
    var z := m.children[ii];
    var k := m.items[ii - 1];
    if z.children != [] {
      var y := m.children[ii - 1];
      var last := y.children[|y.children| - 1];
      assert WellFormed(z);
      FlatJoin([], k, z.items, [last], z.children);
      assert [] + [k] + z.items == [k] + z.items;
      assert Flat(Primitives.ShiftRight(m, ii - 1).children[ii]) == Flat(Node([], [last])) + [k] + Flat(z);
    }
  }

  /** Borrowing from the right sibling keeps the child's elements. */
  lemma CoversRight(m: Tree, ii: int)
    requires WellFormed(m) && Balanced(m) && m.children != [] && 0 <= ii < |m.items| && |m.children[ii + 1].items| >= 1
    ensures Covers(m.children[ii], Primitives.ShiftLeft(m, ii).children[ii])
  {
    Primitives.SiblingsAlike(m, ii, ii + 1);
    var y := m.children[ii];
    var z := m.children[ii + 1];
    var k := m.items[ii];
    if z.children != [] {
      assert WellFormed(y);
      FlatJoin(y.items, k, [], y.children, [z.children[0]]);
      assert y.items + [k] + [] == y.items + [k];
      assert Flat(Primitives.ShiftLeft(m, ii).children[ii]) == Flat(y) + [k] + Flat(Node([], [z.children[0]]));
    }
  }

  /** Merging keeps the elements of both merged children. */
  lemma CoversMerge(m: Tree, i: int)
    requires WellFormed(m) && Balanced(m) && m.children != [] && 0 <= i < |m.items|
    ensures Covers(m.children[i], Primitives.Merge(m, i).children[i])
    ensures Covers(m.children[i + 1], Primitives.Merge(m, i).children[i])
  {
    Primitives.SiblingsAlike(m, i, i + 1);
    MergedFlat(m.children[i], m.items[i], m.children[i + 1]);
  }

  // ---------------------------------------------------------------------
  // node_delete keeps the minimum fill
  // ---------------------------------------------------------------------

  /** What case 3's fix leaves when every child is full: every child still
      full, the one to descend into with at least `t` items, and at most one
      item fewer in the node. */
  ghost predicate Refull(m: Tree, x: Tree, j: int, t: int)
  {
    AllFull(x.children, t) && 0 <= j < |x.children| && |x.children[j].items| >= t &&
    |x.items| >= |m.items| - 1
  }

  /** When every child holds at least `t-1` items, case 3's fix leaves a
      child with at least `t` items to descend into, as the CLRS deletion
      promises, and every child still full. */
  lemma FixFull(m: Tree, ii: int, t: int)
    requires Deletable(m, t) && m.children != [] && 0 <= ii <= |m.items| && AllFull(m.children, t)
    ensures m.items != [] ==> Refull(m, Fix(m, ii, t).0, Fix(m, ii, t).1, t)
  {
    assert Full(m.children[ii], t);
    if |m.children[ii].items| < t {
      if ii > 0 && |m.children[ii - 1].items| >= t {
        BorrowLeft(m, ii, t);
        Primitives.ShiftRightSizes(m, ii - 1, t);
      } else if ii < |m.children| - 1 && |m.children[ii + 1].items| >= t {
        Primitives.ShiftLeftSizes(m, ii, t);
      } else if ii > 0 {
        assert Full(m.children[ii - 1], t);
        Primitives.MergeSizes(m, ii - 1, t);
      } else if ii < |m.children| - 1 {
        assert Full(m.children[ii + 1], t);
        Primitives.MergeSizes(m, ii, t);
      }
    }
  }

  /** When every child of `m` is full, `node_delete` leaves every child of
      the result full and takes at most one item from `m` itself. */
  lemma {:induction false} DeleteFull(m: Tree, k: int, t: int)
    requires Deletable(m, t) && AllFull(m.children, t) && Delete(m, k, t).Ok?
    ensures AllFull(Delete(m, k, t).value.tree.children, t)
    ensures |Delete(m, k, t).value.tree.items| >= |m.items| - 1
    decreases Height(m), 1
  {
    var i := Seek(m.items, k);
    if i < |m.items| && m.items[i] == k {
      if m.children == [] {
      } else if |m.children[i].items| >= t {
        WithinFull(m, i, PredecessorWalk(m.children[i]).value, t);
      } else if |m.children[i + 1].items| >= t {
        WithinFull(m, i + 1, SuccessorWalk(m.children[i + 1]).value, t);
      } else {
        MergeDeletable(m, i, t);
        assert Full(m.children[i], t) && Full(m.children[i + 1], t);
        Primitives.MergeSizes(m, i, t);
        WithinFull(Primitives.Merge(m, i), i, k, t);
      }
    } else if m.children != [] {
      FixDeletable(m, i, t);
      FixFull(m, i, t);
      WithinFull(Fix(m, i, t).0, Fix(m, i, t).1, k, t);
    }
  }

  /** `Within` on a child with at least `t` items keeps every child full
      and the node's items. */
  lemma {:induction false} WithinFull(x: Tree, j: int, k: int, t: int)
    requires Deletable(x, t) && x.children != [] && 0 <= j < |x.children| && Within(x, j, k, t).Ok?
    requires AllFull(x.children, t) && |x.children[j].items| >= t
    ensures AllFull(Within(x, j, k, t).value.tree.children, t)
    ensures |Within(x, j, k, t).value.tree.items| == |x.items|
    decreases Height(x), 0
  {
    ChildDeletable(x, j, t);
    var c := x.children[j];
    assert Full(c, t);
    DeleteFull(c, k, t);
    DeleteShrinks(c, k, t);
    var d := Delete(c, k, t).value;
    assert Full(d.tree, t);
    AllFullUpdate(x.children, j, d.tree, t);
  }

  // ---------------------------------------------------------------------
  // Two consequences of the code as written
  // ---------------------------------------------------------------------

  /** `ks` without its element at `i` is still sorted and has one `ks[i]`
      fewer. */
  lemma CutSorted(ks: seq<int>, i: int)
    requires 0 <= i < |ks|
    ensures Sorted(ks) ==> Sorted(Cut(ks, i))
    ensures multiset(Cut(ks, i)) == multiset(ks) - multiset{ks[i]}
  {
    assert ks == ks[..i] + [ks[i]] + ks[i + 1..];
    var c := Cut(ks, i);
    if Sorted(ks) {
      forall a, b | 0 <= a < b < |c| ensures c[a] <= c[b] {
        var a' := if a < i then a else a + 1;
        var b' := if b < i then b else b + 1;
        assert c[a] == ks[a'] && c[b] == ks[b'];
      }
    }
  }

  /** At a sorted leaf, `node_delete` takes out one occurrence of the key
      and returns 1 when the key is there, and changes nothing and returns
      0 otherwise. */
  lemma DeleteLeaf(m: Tree, k: int, t: int)
    requires Deletable(m, t) && m.children == [] && m.items != [] && Sorted(m.items)
    ensures Delete(m, k, t).Ok?
    ensures k in m.items ==>
              Delete(m, k, t).value.res == 1 && Delete(m, k, t).value.tree.children == [] &&
              Sorted(Delete(m, k, t).value.tree.items) &&
              multiset(Delete(m, k, t).value.tree.items) == multiset(m.items) - multiset{k}
    ensures k !in m.items ==> Delete(m, k, t) == Ok(Removed(m, 0))
  {
    var i := Seek(m.items, k);
    SeekSorted(m.items, k);
    if i < |m.items| && m.items[i] == k {
      CutSorted(m.items, i);
    }
  }

  /** Case 2a as written deletes the item found by the walk from the child
      and returns 1 without putting it in the key's place: deleting 10 from
      this tree of degree 2 removes 2 and leaves 10 where it was. */
  lemma KeyLeftInPlace()
    ensures Deletable(Node([10], [Node([1, 2], []), Node([20], [])]), 2)
    ensures Delete(Node([10], [Node([1, 2], []), Node([20], [])]), 10, 2) ==
            Ok(Removed(Node([10], [Node([1], []), Node([20], [])]), 1))
  {
    var m := Node([10], [Node([1, 2], []), Node([20], [])]);
    assert Deletable(m, 2);
    assert Seek(m.items, 10) == 0;
    var y := m.children[0];
    assert PredecessorWalk(y) == Ok(2);
    assert Seek(y.items, 2) == 1;
    assert Cut(y.items, 1) == [1];
    assert Delete(y, 2, 2) == Ok(Removed(Node([1], []), 1));
    assert m.children[0 := Node([1], [])] == [Node([1], []), Node([20], [])];
  }

  /** Case 2b as written starts its walk at `z->children[0]`: deleting 10
      from this B-tree of degree 2, whose left child is short and whose
      right child `z` is a leaf, reads through `z`'s NULL children buffer. */
  lemma SuccessorFromLeaf()
    ensures IsBTree(Node([10], [Node([1], []), Node([20, 30], [])]), 2)
    ensures Deletable(Node([10], [Node([1], []), Node([20, 30], [])]), 2)
    ensures Delete(Node([10], [Node([1], []), Node([20, 30], [])]), 10, 2) == Undefined
  {
    var m := Node([10], [Node([1], []), Node([20, 30], [])]);
    assert Flat(m) == [1, 10, 20, 30] by {
      FlatAt(m, 0);
    }
    assert IsBTree(m, 2);
    assert Deletable(m, 2);
    assert Seek(m.items, 10) == 0;
    assert SuccessorWalk(m.children[1]) == Undefined;
  }

  // ---------------------------------------------------------------------
  // btree_delete
  // ---------------------------------------------------------------------

  /** What `btree_delete` leaves: the root (`None` for an empty tree) and
      the value of `node_delete`. */
  datatype Pruned = Pruned(root: Option<Tree>, res: int)

  /** The in-order sequence of a tree that may be empty. */
  ghost function Contents(o: Option<Tree>): seq<int>
  {
    if o.None? then [] else Flat(o.value)
  }

  /** `btree_delete(m, k)` as written: `node_delete` on the root, then,
      when the root is left without items, its child 0 becomes the root.
      A root leaf left without items makes that read `children[0]` through
      a NULL `children` buffer. */
  ghost function TreeDelete(m: Tree, k: int, t: int): (r: Outcome<Pruned>)
    requires Shaped(m, t)
    ensures Deletable(m, t)
    ensures r.Ok? ==>
              Delete(m, k, t).Ok? && r.value.root.Some? && r.value.res == Delete(m, k, t).value.res &&
              Flat(r.value.root.value) == Flat(Delete(m, k, t).value.tree)
    ensures Delete(m, k, t).Ok? && Delete(m, k, t).value.tree == Node([], []) ==> r == Undefined
  {
    Growth.CappedOf(m, t);
    match Delete(m, k, t)
    case Undefined => Undefined
    case Ok(d) =>
      if d.tree.items != [] then Ok(Pruned(Some(d.tree), d.res))
      else if d.tree.children == [] then Undefined
      else
        FlatSingle(d.tree.children[0]);
        assert d.tree == Node([], [d.tree.children[0]]);
        Ok(Pruned(Some(d.tree.children[0]), d.res))
  }

  /** `btree_delete` with the root shrink only for an internal root; a root
      leaf left without items leaves the tree empty (root NULL), the state
      `btree_new` starts from. */
  ghost function TreeDeleteFixed(m: Tree, k: int, t: int): (r: Outcome<Pruned>)
    requires Shaped(m, t)
    ensures Deletable(m, t)
    ensures r.Ok? <==> Delete(m, k, t).Ok?
    ensures r.Ok? ==>
              r.value.res == Delete(m, k, t).value.res && Contents(r.value.root) == Flat(Delete(m, k, t).value.tree)
  {
    Growth.CappedOf(m, t);
    match Delete(m, k, t)
    case Undefined => Undefined
    case Ok(d) =>
      if d.tree.items != [] then Ok(Pruned(Some(d.tree), d.res))
      else if d.tree.children == [] then Ok(Pruned(None, d.res))
      else
        FlatSingle(d.tree.children[0]);
        assert d.tree == Node([], [d.tree.children[0]]);
        Ok(Pruned(Some(d.tree.children[0]), d.res))
  }

  /** Deleting the only element `v` of a one-leaf tree: undefined as
      written, an empty tree with the shrink fixed; wherever the code as
      written is defined, the two agree. */
  lemma LastElement(m: Tree, k: int, t: int, v: int)
    requires Shaped(m, t)
    ensures Shaped(Node([v], []), t)
    ensures TreeDelete(Node([v], []), v, t) == Undefined
    ensures TreeDeleteFixed(Node([v], []), v, t) == Ok(Pruned(None, 1))
    ensures TreeDelete(m, k, t).Ok? ==> TreeDeleteFixed(m, k, t) == TreeDelete(m, k, t)
  {
    var m1 := Node([v], []);
    assert Shaped(m1, t);
    Growth.CappedOf(m1, t);
    assert Seek(m1.items, v) == 0;
    assert Cut(m1.items, 0) == [];
    assert Delete(m1, v, t) == Ok(Removed(Node([], []), 1));
  }

  /** `btree_delete` (with the root shrink fixed) on a B-tree, wherever it
      is defined, leaves a B-tree or the empty tree, returns 1 exactly when
      the key was in the tree, and leaves the elements as they were when it
      returns 0 and with one element taken out when it returns 1. */
  lemma TreeDeleteBTree(m: Tree, k: int, t: int)
    requires IsBTree(m, t) && TreeDeleteFixed(m, k, t).Ok?
    ensures TreeDeleteFixed(m, k, t).value.root.Some? ==> IsBTree(TreeDeleteFixed(m, k, t).value.root.value, t)
    ensures TreeDeleteFixed(m, k, t).value.res == 1 <==> k in Flat(m)
    ensures TreeDeleteFixed(m, k, t).value.res == 0 ==> Contents(TreeDeleteFixed(m, k, t).value.root) == Flat(m)
    ensures TreeDeleteFixed(m, k, t).value.res == 1 ==> OneLess(Contents(TreeDeleteFixed(m, k, t).value.root), Flat(m))
  {
    Growth.CappedOf(m, t);
    var d := Delete(m, k, t).value;
    DeleteShrinks(m, k, t);
    DeleteFinds(m, k, t);
    DeleteFull(m, k, t);
    assert Sorted(Flat(d.tree)) by {
      if d.res == 1 {
        var j :| 0 <= j < |Flat(m)| && Flat(d.tree) == Cut(Flat(m), j);
        CutSorted(Flat(m), j);
      }
    }
    if d.tree.items == [] && d.tree.children != [] {
      var c := d.tree.children[0];
      assert d.tree == Node([], [c]);
      FlatSingle(c);
      assert Full(c, t);
      assert IsBTree(c, t);
    }
  }
}
