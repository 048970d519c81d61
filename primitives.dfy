/**
 * The node primitives of src/btree.c as functions on node values:
 * `node_tree_split_child`, `node_child_merge`, `node_shift_left` and
 * `node_shift_right`, each taking the parent `x` and the index of the affected
 * child, and the lemmas that they keep the in-order sequence and the shape.
 */
module Primitives {
  import opened Model

  /** `node_tree_split_child(t, x, i)`: the full child `y = children[i]`
      (`2t-1` items) keeps its first `t-1` items (and first `t` children),
      a new right sibling `z` gets the last `t-1` items (and children
      `t..2t-1`), and the median `y.items[t-1]` moves up into `x` at `i`. */
  ghost function SplitChild(x: Tree, i: nat, t: nat): (r: Tree)
    requires i < |x.children| && i <= |x.items|
    requires t >= 1 && |x.children[i].items| == 2 * t - 1
    requires x.children[i].children == [] || |x.children[i].children| == 2 * t
    ensures |r.items| == |x.items| + 1 && |r.children| == |x.children| + 1
    ensures r.items[i] == x.children[i].items[t - 1]
    ensures |r.children[i].items| == t - 1 && |r.children[i + 1].items| == t - 1
    ensures forall j :: 0 <= j < i ==> r.children[j] == x.children[j]
    ensures forall j :: i + 1 < j < |r.children| ==> r.children[j] == x.children[j - 1]
  {
    var y := x.children[i];
    var left := Node(y.items[..t - 1], if y.children == [] then [] else y.children[..t]);
    var right := Node(y.items[t..], if y.children == [] then [] else y.children[t..]);
    Node(x.items[..i] + [y.items[t - 1]] + x.items[i..],
         x.children[..i] + [left, right] + x.children[i + 1..])
  }

  /** `node_child_merge(x, i)`: `y = children[i]` absorbs `items[i]` and then
      all items and children of `z = children[i+1]`; `x` loses `items[i]` and
      the child `z`. */
  ghost function Merge(x: Tree, i: nat): (r: Tree)
    requires i < |x.items| && i + 1 < |x.children|
    ensures |r.items| == |x.items| - 1 && |r.children| == |x.children| - 1
    ensures |r.children[i].items| == |x.children[i].items| + 1 + |x.children[i + 1].items|
    ensures r.children[i].items[|x.children[i].items|] == x.items[i]
    ensures forall j :: 0 <= j < i ==> r.children[j] == x.children[j]
    ensures forall j :: i < j < |r.children| ==> r.children[j] == x.children[j + 1]
  {
    var y := x.children[i];
    var z := x.children[i + 1];
    Node(x.items[..i] + x.items[i + 1..],
         x.children[..i] + [Node(y.items + [x.items[i]] + z.items, y.children + z.children)] + x.children[i + 2..])
  }

  /** `node_shift_left(x, i)`: `items[i]` moves down to the end of
      `y = children[i]`, the first item of `z = children[i+1]` moves up into its
      place, and (if `z` is internal) the first child of `z` becomes the last
      child of `y`. */
  ghost function ShiftLeft(x: Tree, i: nat): (r: Tree)
    requires i < |x.items| && i + 1 < |x.children| && |x.children[i + 1].items| >= 1
    ensures |r.items| == |x.items| && |r.children| == |x.children|
    ensures r.items[i] == x.children[i + 1].items[0]
    ensures |r.children[i].items| == |x.children[i].items| + 1
    ensures r.children[i].items[|x.children[i].items|] == x.items[i]
    ensures |r.children[i + 1].items| == |x.children[i + 1].items| - 1
    ensures forall j :: 0 <= j < |r.children| && j != i && j != i + 1 ==> r.children[j] == x.children[j]
  {
    var y := x.children[i];
    var z := x.children[i + 1];
    var y' := Node(y.items + [x.items[i]],
                   if z.children == [] then y.children else y.children + [z.children[0]]);
    var z' := Node(z.items[1..], if z.children == [] then [] else z.children[1..]);
    Node(x.items[i := z.items[0]], x.children[i := y'][i + 1 := z'])
  }

  /** `node_shift_right(x, i)`: `items[i]` moves down to the front of
      `z = children[i+1]`, the last item of `y = children[i]` moves up into its
      place, and (if `z` is internal) the last child of `y` becomes the first
      child of `z`. */
  ghost function ShiftRight(x: Tree, i: nat): (r: Tree)
    requires i < |x.items| && i + 1 < |x.children| && |x.children[i].items| >= 1
    requires x.children[i + 1].children != [] ==> |x.children[i].children| >= 1
    ensures |r.items| == |x.items| && |r.children| == |x.children|
    ensures r.items[i] == x.children[i].items[|x.children[i].items| - 1]
    ensures |r.children[i].items| == |x.children[i].items| - 1
    ensures |r.children[i + 1].items| == |x.children[i + 1].items| + 1 && r.children[i + 1].items[0] == x.items[i]
    ensures forall j :: 0 <= j < |r.children| && j != i && j != i + 1 ==> r.children[j] == x.children[j]
  {
    var y := x.children[i];
    var z := x.children[i + 1];
    var y' := Node(y.items[..|y.items| - 1],
                   if z.children == [] then y.children else y.children[..|y.children| - 1]);
    var z' := Node([x.items[i]] + z.items,
                   if z.children == [] then [] else [y.children[|y.children| - 1]] + z.children);
    Node(x.items[i := y.items[|y.items| - 1]], x.children[i := y'][i + 1 := z'])
  }

  // ---------------------------------------------------------------------
  // Shape helpers
  // ---------------------------------------------------------------------

  /** Siblings in a balanced tree are both leaves or both internal. */
  lemma SiblingsAlike(x: Tree, i: nat, j: nat)
    requires Balanced(x) && i < |x.children| && j < |x.children|
    ensures (x.children[i].children == []) == (x.children[j].children == [])
  {
    assert Height(x.children[i]) == Height(x.children[0]) == Height(x.children[j]);
  }

  /** The in-order sequence of a node cut at item `k` into two halves. */
  lemma FlatCut(y: Tree, k: nat, c: nat)
    requires k < |y.items| && (y.children == [] || |y.children| == |y.items| + 1)
    requires y.children != [] ==> c == k + 1
    ensures Flat(y) == Flat(Node(y.items[..k], if y.children == [] then [] else y.children[..c]))
                     + [y.items[k]]
                     + Flat(Node(y.items[k + 1..], if y.children == [] then [] else y.children[c..]))
  {
    assert y.items == y.items[..k] + [y.items[k]] + y.items[k + 1..];
    if y.children != [] {
      assert y.children == y.children[..c] + y.children[c..];
      FlatJoin(y.items[..k], y.items[k], y.items[k + 1..], y.children[..c], y.children[c..]);
    }
  }

  // ---------------------------------------------------------------------
  // Split
  // ---------------------------------------------------------------------

  /** Splitting keeps the parent's subtree well formed and balanced, at the
      same height. */
  lemma SplitChildShape(x: Tree, i: nat, t: nat)
    requires WellFormed(x) && Balanced(x) && x.children != []
    requires i < |x.children| && t >= 1 && |x.children[i].items| == 2 * t - 1
    ensures i <= |x.items|
    ensures x.children[i].children == [] || |x.children[i].children| == 2 * t
    ensures WellFormed(SplitChild(x, i, t)) && Balanced(SplitChild(x, i, t))
    ensures Height(SplitChild(x, i, t)) == Height(x)
  {
    UniformChildren(x);
    SplitHalves(x.children[i], t, Height(x) - 1);
    var x' := SplitChild(x, i, t);
    UniformFission(x.children, i, x'.children[i], x'.children[i + 1], Height(x) - 1);
    NodeOver(x'.items, x'.children, Height(x) - 1);
  }

  /** Both halves of a split node keep its height. */
  lemma SplitHalves(y: Tree, t: nat, h: nat)
    requires WellFormed(y) && Balanced(y) && Height(y) == h
    requires t >= 1 && |y.items| == 2 * t - 1
    ensures y.children == [] || |y.children| == 2 * t
    ensures var left := Node(y.items[..t - 1], if y.children == [] then [] else y.children[..t]);
            WellFormed(left) && Balanced(left) && Height(left) == h
    ensures var right := Node(y.items[t..], if y.children == [] then [] else y.children[t..]);
            WellFormed(right) && Balanced(right) && Height(right) == h
  {
    if y.children != [] {
      UniformChildren(y);
      UniformSlice(y.children, 0, t, h - 1);
      UniformSlice(y.children, t, |y.children|, h - 1);
      NodeOver(y.items[..t - 1], y.children[..t], h - 1);
      NodeOver(y.items[t..], y.children[t..], h - 1);
    }
  }

  /** Splitting keeps the in-order sequence of the parent's subtree. */
  lemma SplitChildFlat(x: Tree, i: nat, t: nat)
    requires |x.children| == |x.items| + 1 && i < |x.children|
    requires t >= 1 && |x.children[i].items| == 2 * t - 1
    requires x.children[i].children == [] || |x.children[i].children| == 2 * t
    ensures Flat(SplitChild(x, i, t)) == Flat(x)
  {
    var y := x.children[i];
    var x' := SplitChild(x, i, t);
    FlatCut(y, t - 1, t);
    FlatAt(x, i);
    FlatAtPair(x', i);
    assert x'.children[..i] == x.children[..i] && x'.items[..i] == x.items[..i];
    assert x'.children[i + 2..] == x.children[i + 1..] && x'.items[i + 1..] == x.items[i..];
  }

  // ---------------------------------------------------------------------
  // Merge
  // ---------------------------------------------------------------------

  /** Merging keeps the parent's subtree well formed and balanced, at the
      same height. */
  lemma MergeShape(x: Tree, i: nat)
    requires WellFormed(x) && Balanced(x) && i < |x.items| && i + 1 < |x.children|
    ensures WellFormed(Merge(x, i)) && Balanced(Merge(x, i))
    ensures Height(Merge(x, i)) == Height(x)
  {
    MergeChildShape(x, i);
    MergeParentShape(x, i, Height(x) - 1);
  }

  /** The parent of a merge is well formed and balanced once the merged
      child is. */
  lemma MergeParentShape(x: Tree, i: nat, h: nat)
    requires |x.children| == |x.items| + 1 && i < |x.items| && Uniform(x.children, h)
    requires WellFormed(Merge(x, i).children[i]) && Balanced(Merge(x, i).children[i])
    requires Height(Merge(x, i).children[i]) == h
    ensures WellFormed(Merge(x, i)) && Balanced(Merge(x, i)) && Height(Merge(x, i)) == h + 1
  {
    UniformFuse(x.children, i, Merge(x, i).children[i], h);
    NodeOver(Merge(x, i).items, Merge(x, i).children, h);
  }

  /** The merged child is well formed and balanced, one level below its
      parent. */
  lemma MergeChildShape(x: Tree, i: nat)
    requires WellFormed(x) && Balanced(x) && i < |x.items| && i + 1 < |x.children|
    ensures Height(x) >= 1 && Uniform(x.children, Height(x) - 1)
    ensures WellFormed(Merge(x, i).children[i]) && Balanced(Merge(x, i).children[i])
    ensures Height(Merge(x, i).children[i]) == Height(x) - 1
  {
    UniformChildren(x);
    SiblingsAlike(x, i, i + 1);
    MergedNode(x.children[i], x.items[i], x.children[i + 1], Height(x) - 1);
  }

  /** Two siblings of height `h` joined around an item form one node of
      height `h`. */
  lemma MergedNode(y: Tree, k: int, z: Tree, h: nat)
    requires WellFormed(y) && Balanced(y) && Height(y) == h
    requires WellFormed(z) && Balanced(z) && Height(z) == h
    requires (y.children == []) == (z.children == [])
    ensures WellFormed(Node(y.items + [k] + z.items, y.children + z.children))
    ensures Balanced(Node(y.items + [k] + z.items, y.children + z.children))
    ensures Height(Node(y.items + [k] + z.items, y.children + z.children)) == h
  {
    if y.children != [] {
      UniformChildren(y);
      UniformChildren(z);
      UniformAppend(y.children, z.children, h - 1);
      NodeOver(y.items + [k] + z.items, y.children + z.children, h - 1);
    }
  }

  /** Merging keeps the in-order sequence of the parent's subtree. */
  lemma MergeFlat(x: Tree, i: nat)
    requires |x.children| == |x.items| + 1 && i < |x.items|
    requires (x.children[i].children == []) == (x.children[i + 1].children == [])
    requires x.children[i].children != [] ==>
               |x.children[i].children| == |x.children[i].items| + 1 &&
               |x.children[i + 1].children| == |x.children[i + 1].items| + 1
    ensures Flat(Merge(x, i)) == Flat(x)
  {
    var y := x.children[i];
    var z := x.children[i + 1];
    var k := x.items[i];
    var x' := Merge(x, i);
    var w := x'.children[i];
    if y.children != [] {
      FlatJoin(y.items, k, z.items, y.children, z.children);
    }
    assert Flat(w) == Flat(y) + [k] + Flat(z);
    FlatAtPair(x, i);
    FlatAt(x', i);
    assert x'.children[..i] == x.children[..i] && x'.items[..i] == x.items[..i];
    assert x'.children[i + 1..] == x.children[i + 2..] && x'.items[i..] == x.items[i + 1..];
  }

  /** Merging keeps the in-order sequence of the parent's subtree, its
      well-formedness, balance and height. */
  lemma MergeKeeps(x: Tree, i: nat)
    requires WellFormed(x) && Balanced(x) && i < |x.items| && i + 1 < |x.children|
    ensures WellFormed(Merge(x, i)) && Balanced(Merge(x, i))
    ensures Height(Merge(x, i)) == Height(x)
    ensures Flat(Merge(x, i)) == Flat(x)
  {
    MergeShape(x, i);
    SiblingsAlike(x, i, i + 1);
    assert WellFormed(x.children[i]) && WellFormed(x.children[i + 1]);
    MergeFlat(x, i);
  }
  // ---------------------------------------------------------------------
  // Borrowing
  // ---------------------------------------------------------------------

  /** The common half of both rotations: replacing two adjacent children and
      the item between them by ones with the same joint in-order sequence. */
  lemma FlatRotate(x: Tree, x': Tree, i: nat)
    requires |x.children| == |x.items| + 1 && i < |x.items|
    requires |x'.children| == |x'.items| + 1 && i < |x'.items|
    requires x'.children[..i] == x.children[..i] && x'.items[..i] == x.items[..i]
    requires x'.children[i + 2..] == x.children[i + 2..] && x'.items[i + 1..] == x.items[i + 1..]
    requires Flat(x'.children[i]) + [x'.items[i]] + Flat(x'.children[i + 1])
          == Flat(x.children[i]) + [x.items[i]] + Flat(x.children[i + 1])
    ensures Flat(x') == Flat(x)
  {
    FlatAtPair(x, i);
    FlatAtPair(x', i);
  }

  /** The two children after borrowing from the right sibling: both keep
      the height, and together with the item between them they keep the
      in-order sequence. */
  lemma ShiftLeftPair(x: Tree, i: nat, h: nat)
    requires i < |x.items| && i + 1 < |x.children| && |x.children[i + 1].items| >= 1
    requires WellFormed(x.children[i]) && Balanced(x.children[i]) && Height(x.children[i]) == h
    requires WellFormed(x.children[i + 1]) && Balanced(x.children[i + 1]) && Height(x.children[i + 1]) == h
    requires (x.children[i].children == []) == (x.children[i + 1].children == [])
    ensures WellFormed(ShiftLeft(x, i).children[i]) && Balanced(ShiftLeft(x, i).children[i])
    ensures Height(ShiftLeft(x, i).children[i]) == h
    ensures WellFormed(ShiftLeft(x, i).children[i + 1]) && Balanced(ShiftLeft(x, i).children[i + 1])
    ensures Height(ShiftLeft(x, i).children[i + 1]) == h
    ensures Flat(ShiftLeft(x, i).children[i]) + [ShiftLeft(x, i).items[i]] + Flat(ShiftLeft(x, i).children[i + 1])
         == Flat(x.children[i]) + [x.items[i]] + Flat(x.children[i + 1])
  {
    var y := x.children[i];
    var z := x.children[i + 1];
    if z.children != [] {
      UniformChildren(y);
      UniformChildren(z);
      BorrowFirst(y, x.items[i], z, h - 1);
    } else {
      assert z.items == [z.items[0]] + z.items[1..];
    }
  }

  /** Internal siblings `y`, `z` around `k`: `y` takes `k` and the first child
      of `z`, the first item of `z` goes up. */
  lemma BorrowFirst(y: Tree, k: int, z: Tree, h: nat)
    requires |y.children| == |y.items| + 1 && |z.children| == |z.items| + 1 && |z.items| >= 1
    requires Uniform(y.children, h) && Uniform(z.children, h)
    ensures var y' := Node(y.items + [k], y.children + [z.children[0]]);
            WellFormed(y') && Balanced(y') && Height(y') == h + 1
    ensures var z' := Node(z.items[1..], z.children[1..]);
            WellFormed(z') && Balanced(z') && Height(z') == h + 1
    ensures Flat(Node(y.items + [k], y.children + [z.children[0]])) + [z.items[0]] + Flat(Node(z.items[1..], z.children[1..]))
         == Flat(y) + [k] + Flat(z)
  {
    var y' := Node(y.items + [k], y.children + [z.children[0]]);
    var z' := Node(z.items[1..], z.children[1..]);
    UniformSlice(z.children, 0, 1, h);
    UniformSlice(z.children, 1, |z.children|, h);
    assert z.children[0..1] == [z.children[0]];
    UniformAppend(y.children, [z.children[0]], h);
    NodeOver(y'.items, y'.children, h);
    NodeOver(z'.items, z'.children, h);
    BorrowFirstFlat(y, k, z);
  }

  /** Moving the separator down to the left and the right node's first
      item up keeps the in-order sequence. */
  lemma BorrowFirstFlat(y: Tree, k: int, z: Tree)
    requires |y.children| == |y.items| + 1 && |z.children| == |z.items| + 1 && |z.items| >= 1
    ensures Flat(Node(y.items + [k], y.children + [z.children[0]])) + [z.items[0]] + Flat(Node(z.items[1..], z.children[1..]))
         == Flat(y) + [k] + Flat(z)
  {
    var y' := Node(y.items + [k], y.children + [z.children[0]]);
    var z' := Node(z.items[1..], z.children[1..]);
    assert y.items + [k] + [] == y'.items;
    FlatJoin(y.items, k, [], y.children, [z.children[0]]);
    FlatSingle(z.children[0]);
    assert Flat(y') == Flat(y) + [k] + Flat(z.children[0]);
    FlatCut(z, 0, 1);
    assert Node(z.items[..0], z.children[..1]) == Node([], [z.children[0]]);
    assert Node(z.items[0 + 1..], z.children[1..]) == z';
    assert Flat(z) == Flat(z.children[0]) + [z.items[0]] + Flat(z');
    RegroupShift(Flat(y'), Flat(y), [k], Flat(z.children[0]), Flat(z), [z.items[0]], Flat(z'));
  }

  /** The two children after borrowing from the left sibling, as above. */
  lemma ShiftRightPair(x: Tree, i: nat, h: nat)
    requires i < |x.items| && i + 1 < |x.children| && |x.children[i].items| >= 1
    requires WellFormed(x.children[i]) && Balanced(x.children[i]) && Height(x.children[i]) == h
    requires WellFormed(x.children[i + 1]) && Balanced(x.children[i + 1]) && Height(x.children[i + 1]) == h
    requires (x.children[i].children == []) == (x.children[i + 1].children == [])
    ensures x.children[i + 1].children != [] ==> |x.children[i].children| >= 1
    ensures WellFormed(ShiftRight(x, i).children[i]) && Balanced(ShiftRight(x, i).children[i])
    ensures Height(ShiftRight(x, i).children[i]) == h
    ensures WellFormed(ShiftRight(x, i).children[i + 1]) && Balanced(ShiftRight(x, i).children[i + 1])
    ensures Height(ShiftRight(x, i).children[i + 1]) == h
    ensures Flat(ShiftRight(x, i).children[i]) + [ShiftRight(x, i).items[i]] + Flat(ShiftRight(x, i).children[i + 1])
         == Flat(x.children[i]) + [x.items[i]] + Flat(x.children[i + 1])
  {
    var y := x.children[i];
    var z := x.children[i + 1];
    var ny := |y.items|;
    if z.children != [] {
      UniformChildren(y);
      UniformChildren(z);
      BorrowLast(y, x.items[i], z, h - 1);
    } else {
      assert y.items == y.items[..ny - 1] + [y.items[ny - 1]];
    }
  }

  /** Internal siblings `y`, `z` around `k`: `z` takes `k` and the last child
      of `y`, the last item of `y` goes up. */
  lemma BorrowLast(y: Tree, k: int, z: Tree, h: nat)
    requires |y.children| == |y.items| + 1 && |z.children| == |z.items| + 1 && |y.items| >= 1
    requires Uniform(y.children, h) && Uniform(z.children, h)
    ensures var y' := Node(y.items[..|y.items| - 1], y.children[..|y.children| - 1]);
            WellFormed(y') && Balanced(y') && Height(y') == h + 1
    ensures var z' := Node([k] + z.items, [y.children[|y.children| - 1]] + z.children);
            WellFormed(z') && Balanced(z') && Height(z') == h + 1
    ensures Flat(Node(y.items[..|y.items| - 1], y.children[..|y.children| - 1])) + [y.items[|y.items| - 1]]
            + Flat(Node([k] + z.items, [y.children[|y.children| - 1]] + z.children))
         == Flat(y) + [k] + Flat(z)
  {
    var cy := |y.children|;
    var y' := Node(y.items[..|y.items| - 1], y.children[..cy - 1]);
    var z' := Node([k] + z.items, [y.children[cy - 1]] + z.children);
    UniformSlice(y.children, 0, cy - 1, h);
    UniformSlice(y.children, cy - 1, cy, h);
    assert y.children[cy - 1..cy] == [y.children[cy - 1]];
    UniformAppend([y.children[cy - 1]], z.children, h);
    NodeOver(y'.items, y'.children, h);
    NodeOver(z'.items, z'.children, h);
    BorrowLastFlat(y, k, z);
  }

  /** Moving the separator down to the right and the left node's last
      item up keeps the in-order sequence. */
  lemma BorrowLastFlat(y: Tree, k: int, z: Tree)
    requires |y.children| == |y.items| + 1 && |z.children| == |z.items| + 1 && |y.items| >= 1
    ensures Flat(Node(y.items[..|y.items| - 1], y.children[..|y.children| - 1])) + [y.items[|y.items| - 1]]
            + Flat(Node([k] + z.items, [y.children[|y.children| - 1]] + z.children))
         == Flat(y) + [k] + Flat(z)
  {
    var ny := |y.items|;
    var cy := |y.children|;
    var last := y.children[cy - 1];
    var y' := Node(y.items[..ny - 1], y.children[..cy - 1]);
    var z' := Node([k] + z.items, [last] + z.children);
    FlatCut(y, ny - 1, ny);
    assert Node(y.items[..ny - 1], y.children[..ny]) == y';
    assert Node(y.items[ny - 1 + 1..], y.children[ny..]) == Node([], [last]);
    FlatSingle(last);
    assert Flat(y) == Flat(y') + [y.items[ny - 1]] + Flat(last);
    FlatJoin([], k, z.items, [last], z.children);
    assert [] + [k] + z.items == z'.items && [last] + z.children == z'.children;
    assert Flat(z') == Flat(last) + [k] + Flat(z);
    RegroupShift(Flat(y), Flat(y'), [y.items[ny - 1]], Flat(last), Flat(z'), [k], Flat(z));
  }

  /** Borrowing from the right sibling keeps the in-order sequence of the
      parent's subtree, its well-formedness, balance and height. */
  lemma ShiftLeftKeeps(x: Tree, i: nat)
    requires WellFormed(x) && Balanced(x) && i < |x.items| && i + 1 < |x.children|
    requires |x.children[i + 1].items| >= 1
    ensures WellFormed(ShiftLeft(x, i)) && Balanced(ShiftLeft(x, i))
    ensures Height(ShiftLeft(x, i)) == Height(x)
    ensures Flat(ShiftLeft(x, i)) == Flat(x)
  {
    UniformChildren(x);
    SiblingsAlike(x, i, i + 1);
    ShiftLeftPair(x, i, Height(x) - 1);
    RotatedParent(x, ShiftLeft(x, i), i, Height(x) - 1);
  }

  /** Borrowing from the left sibling keeps the in-order sequence of the
      parent's subtree, its well-formedness, balance and height. */
  lemma ShiftRightKeeps(x: Tree, i: nat)
    requires WellFormed(x) && Balanced(x) && i < |x.items| && i + 1 < |x.children|
    requires |x.children[i].items| >= 1
    ensures x.children[i + 1].children != [] ==> |x.children[i].children| >= 1
    ensures WellFormed(ShiftRight(x, i)) && Balanced(ShiftRight(x, i))
    ensures Height(ShiftRight(x, i)) == Height(x)
    ensures Flat(ShiftRight(x, i)) == Flat(x)
  {
    UniformChildren(x);
    SiblingsAlike(x, i, i + 1);
    ShiftRightPair(x, i, Height(x) - 1);
    RotatedParent(x, ShiftRight(x, i), i, Height(x) - 1);
  }

  /** A parent whose children `i` and `i+1` and the item between them were
      replaced as by a rotation. */
  lemma RotatedParent(x: Tree, x': Tree, i: nat, h: nat)
    requires |x.children| == |x.items| + 1 && i < |x.items| && Uniform(x.children, h)
    requires |x'.items| == |x.items| && |x'.children| == |x.children|
    requires x'.items == x.items[i := x'.items[i]]
    requires x'.children == x.children[i := x'.children[i]][i + 1 := x'.children[i + 1]]
    requires WellFormed(x'.children[i]) && Balanced(x'.children[i]) && Height(x'.children[i]) == h
    requires WellFormed(x'.children[i + 1]) && Balanced(x'.children[i + 1]) && Height(x'.children[i + 1]) == h
    requires Flat(x'.children[i]) + [x'.items[i]] + Flat(x'.children[i + 1])
          == Flat(x.children[i]) + [x.items[i]] + Flat(x.children[i + 1])
    ensures WellFormed(x') && Balanced(x') && Height(x') == h + 1
    ensures Flat(x') == Flat(x)
  {
    UniformUpdate(x.children, i, x'.children[i], h);
    UniformUpdate(x.children[i := x'.children[i]], i + 1, x'.children[i + 1], h);
    NodeOver(x'.items, x'.children, h);
    assert x'.children[..i] == x.children[..i] && x'.items[..i] == x.items[..i];
    assert x'.children[i + 2..] == x.children[i + 2..] && x'.items[i + 1..] == x.items[i + 1..];
    FlatRotate(x, x', i);
  }

  // ---------------------------------------------------------------------
  // Node sizes
  // ---------------------------------------------------------------------

  /** Splitting a full child leaves two halves of `t-1` items each and one
      more item in the parent; every child stays within the bounds. */
  lemma SplitChildSizes(x: Tree, i: nat, t: nat)
    requires i < |x.children| && i <= |x.items| && t >= 1
    requires |x.children[i].items| == 2 * t - 1
    requires x.children[i].children == [] || |x.children[i].children| == 2 * t
    requires AllFull(x.children, t)
    ensures |SplitChild(x, i, t).items| == |x.items| + 1
    ensures |SplitChild(x, i, t).children[i].items| == t - 1
    ensures |SplitChild(x, i, t).children[i + 1].items| == t - 1
    ensures AllFull(SplitChild(x, i, t).children, t)
  {
    var y := x.children[i];
    var x' := SplitChild(x, i, t);
    assert Full(y, t);
    if y.children != [] {
      AllFullSlice(y.children, 0, t, t);
      AllFullSlice(y.children, t, |y.children|, t);
    }
    assert Full(x'.children[i], t) && Full(x'.children[i + 1], t);
    AllFullFission(x.children, i, x'.children[i], x'.children[i + 1], t);
  }

  /** Merging two children whose items and the item between them fit in one
      node: the merged child holds them all, the parent one item fewer. */
  lemma MergeSizes(x: Tree, i: nat, t: int)
    requires i < |x.items| && i + 1 < |x.children| && AllFull(x.children, t)
    requires |x.children[i].items| + 1 + |x.children[i + 1].items| <= 2 * t - 1
    ensures |Merge(x, i).items| == |x.items| - 1
    ensures |Merge(x, i).children[i].items| == |x.children[i].items| + 1 + |x.children[i + 1].items|
    ensures AllFull(Merge(x, i).children, t)
  {
    var y := x.children[i];
    var z := x.children[i + 1];
    assert Full(y, t) && Full(z, t);
    AllFullAppend(y.children, z.children, t);
    assert Full(Merge(x, i).children[i], t);
    AllFullFuse(x.children, i, Merge(x, i).children[i], t);
  }

  /** Borrowing from a right sibling with at least `t` items into a child
      with room for one more. */
  lemma ShiftLeftSizes(x: Tree, i: nat, t: int)
    requires i < |x.items| && i + 1 < |x.children| && AllFull(x.children, t)
    requires |x.children[i].items| < 2 * t - 1 && |x.children[i + 1].items| >= t && t >= 1
    ensures |ShiftLeft(x, i).items| == |x.items|
    ensures |ShiftLeft(x, i).children[i].items| == |x.children[i].items| + 1
    ensures |ShiftLeft(x, i).children[i + 1].items| == |x.children[i + 1].items| - 1
    ensures AllFull(ShiftLeft(x, i).children, t)
  {
    var y := x.children[i];
    var z := x.children[i + 1];
    var x' := ShiftLeft(x, i);
    assert Full(y, t) && Full(z, t);
    if z.children != [] {
      AllFullSlice(z.children, 0, 1, t);
      assert z.children[0..1] == [z.children[0]];
      AllFullAppend(y.children, [z.children[0]], t);
      AllFullSlice(z.children, 1, |z.children|, t);
    }
    assert Full(x'.children[i], t) && Full(x'.children[i + 1], t);
    AllFullUpdate(x.children, i, x'.children[i], t);
    AllFullUpdate(x.children[i := x'.children[i]], i + 1, x'.children[i + 1], t);
  }

  /** Borrowing from a left sibling with at least `t` items into a child
      with room for one more. */
  lemma ShiftRightSizes(x: Tree, i: nat, t: int)
    requires i < |x.items| && i + 1 < |x.children| && AllFull(x.children, t)
    requires |x.children[i].items| >= t && |x.children[i + 1].items| < 2 * t - 1 && t >= 1
    requires x.children[i + 1].children != [] ==> |x.children[i].children| >= 1
    ensures |ShiftRight(x, i).items| == |x.items|
    ensures |ShiftRight(x, i).children[i].items| == |x.children[i].items| - 1
    ensures |ShiftRight(x, i).children[i + 1].items| == |x.children[i + 1].items| + 1
    ensures AllFull(ShiftRight(x, i).children, t)
  {
    var y := x.children[i];
    var z := x.children[i + 1];
    var x' := ShiftRight(x, i);
    assert Full(y, t) && Full(z, t);
    if z.children != [] {
      var cy := |y.children|;
      AllFullSlice(y.children, 0, cy - 1, t);
      AllFullSlice(y.children, cy - 1, cy, t);
      assert y.children[cy - 1..cy] == [y.children[cy - 1]];
      AllFullAppend([y.children[cy - 1]], z.children, t);
    }
    assert Full(x'.children[i], t) && Full(x'.children[i + 1], t);
    AllFullUpdate(x.children, i, x'.children[i], t);
    AllFullUpdate(x.children[i := x'.children[i]], i + 1, x'.children[i + 1], t);
  }
}
