/**
 * Insertion as functions on node values: `node_insert_nonfull` (descend,
 * splitting every full child on the way, and put the element into a leaf)
 * and `node_insert` (split a full root under a new one first), with the
 * lemmas that the in-order sequence gets the element inserted in order and
 * that the result is again a B-tree.
 */
module Growth {
  import opened Model
  import Primitives

  // ---------------------------------------------------------------------
  // Where an element goes among the items of one node
  // ---------------------------------------------------------------------

  /** The slot of `k` among `ks`, as the scan from the right of
      src/btree.c finds it: one past the last item that `k` is not less than,
      so every item from the slot on is greater than `k`. */
  function Slot(ks: seq<int>, k: int): (r: nat)
    ensures r <= |ks|
    ensures forall j :: r <= j < |ks| ==> k < ks[j]
    ensures r > 0 ==> ks[r - 1] <= k
  {
    if ks == [] then 0
    else if k < ks[|ks| - 1] then Slot(ks[..|ks| - 1], k)
    else |ks|
  }

  /** `ks` with `k` put into its slot. */
  function Insort(ks: seq<int>, k: int): seq<int>
  {
    ks[..Slot(ks, k)] + [k] + ks[Slot(ks, k)..]
  }

  /** The two properties of `Slot` determine it. */
  lemma SlotUnique(ks: seq<int>, k: int, r: int)
    requires 0 <= r <= |ks|
    requires forall j :: r <= j < |ks| ==> k < ks[j]
    requires r > 0 ==> ks[r - 1] <= k
    ensures r == Slot(ks, k)
  {
  }

  /** Inserting keeps the elements, adding one `k`. */
  lemma InsortElements(ks: seq<int>, k: int)
    ensures |Insort(ks, k)| == |ks| + 1
    ensures multiset(Insort(ks, k)) == multiset(ks) + multiset{k}
  {
    var p := Slot(ks, k);
    assert ks == ks[..p] + ks[p..];
  }

  /** Inserting into a sorted sequence keeps it sorted. */
  lemma InsortSorted(ks: seq<int>, k: int)
    requires Sorted(ks)
    ensures Sorted(Insort(ks, k))
  {
    var p := Slot(ks, k);
    var s := Insort(ks, k);
    forall a, b | 0 <= a < b < |s| ensures s[a] <= s[b] {
      if b < p || a > p {
        assert s[a] == ks[if a < p then a else a - 1];
      } else if a == p {
        assert s[b] == ks[b - 1];
      } else {
        assert s[a] == ks[a];
        if b > p { assert s[b] == ks[b - 1]; }
      }
    }
  }

  /** A sorted sequence cut where everything before is at most `k` and
      everything after is at least `k`: putting `k` at the cut is inserting
      it in order. */
  lemma InsortCut(A: seq<int>, B: seq<int>, k: int)
    requires Sorted(A + B)
    requires forall a :: 0 <= a < |A| ==> A[a] <= k
    requires forall b :: 0 <= b < |B| ==> k <= B[b]
    ensures Insort(A + B, k) == A + [k] + B
  {
    var s := A + B;
    var p := Slot(s, k);
    SlotPast(A, B, k);
    var R := s[|A|..p];
    EqualRun(A, B, k);
    Commute(R, k);
    RunSwap(A, B, p, k);
  }

  /** Moving `k` in front of the run `R` that it commutes with. */
  lemma RunSwap(A: seq<int>, B: seq<int>, p: int, k: int)
    requires |A| <= p <= |A + B|
    requires (A + B)[|A|..p] + [k] == [k] + (A + B)[|A|..p]
    ensures (A + B)[..p] + [k] + (A + B)[p..] == A + [k] + B
  {
    var s := A + B;
    var R := s[|A|..p];
    assert s[..p] == A + R;
    assert B == R + s[p..];
    calc {
      s[..p] + [k] + s[p..];
      A + (R + [k]) + s[p..];
      A + ([k] + R) + s[p..];
      A + [k] + (R + s[p..]);
    }
  }

  /** The slot of `k` is past every element at most `k` at the front. */
  lemma SlotPast(A: seq<int>, B: seq<int>, k: int)
    requires forall a :: 0 <= a < |A| ==> A[a] <= k
    ensures Slot(A + B, k) >= |A|
  {
    var s := A + B;
    if |A| > 0 {
      assert s[|A| - 1] == A[|A| - 1];
    }
  }

  /** Between the cut and the slot, a sorted sequence holds only `k`s. */
  lemma EqualRun(A: seq<int>, B: seq<int>, k: int)
    requires Sorted(A + B) && Slot(A + B, k) >= |A|
    requires forall b :: 0 <= b < |B| ==> k <= B[b]
    ensures forall q :: 0 <= q < Slot(A + B, k) - |A| ==> (A + B)[|A|..Slot(A + B, k)][q] == k
  {
    var s := A + B;
    var p := Slot(s, k);
    forall q | 0 <= q < p - |A| ensures s[|A|..p][q] == k {
      assert s[|A| + q] <= s[p - 1];
      assert s[|A| + q] == B[q];
    }
  }

  /** A run of `k`s and one more `k` commute. */
  lemma Commute(R: seq<int>, k: int)
    requires forall q :: 0 <= q < |R| ==> R[q] == k
    ensures R + [k] == [k] + R
  {
  }

  /** Inserting into a piece `Y` of a sorted sequence that the neighbouring
      elements bracket: the same as inserting into the whole. */
  lemma InsortPiece(P: seq<int>, Y: seq<int>, Q: seq<int>, k: int)
    requires Sorted(P + Y + Q)
    requires |P| > 0 ==> P[|P| - 1] <= k
    requires |Q| > 0 ==> k <= Q[0]
    ensures Insort(P + Y + Q, k) == P + Insort(Y, k) + Q
  {
    var p := Slot(Y, k);
    var Y0, Y1 := Y[..p], Y[p..];
    var F := P + Y + Q;
    assert Y == Y0 + Y1;
    Cut(P, Y, Q, Y0, Y1);
    LowerPart(P, Y0, Y1 + Q, k);
    UpperPart(P + Y0, Y1, Q, k);
    InsortCut(P + Y0, Y1 + Q, k);
    assert Insort(Y, k) == Y0 + [k] + Y1;
    Regroup(P, Y0, [k], Y1, Q);
  }

  lemma Cut(P: seq<int>, Y: seq<int>, Q: seq<int>, A: seq<int>, B: seq<int>)
    requires Y == A + B
    ensures P + Y + Q == (P + A) + (B + Q) && P + Y + Q == (P + A) + B + Q
  {
  }

  lemma Regroup(P: seq<int>, A: seq<int>, K: seq<int>, B: seq<int>, Q: seq<int>)
    ensures (P + A) + K + (B + Q) == P + (A + K + B) + Q
  {
  }

  /** The elements before a sorted run's last element at most `k` are all
      at most `k`. */
  lemma LowerPart(P: seq<int>, Y: seq<int>, R: seq<int>, k: int)
    requires Sorted(P + Y + R)
    requires |P| > 0 ==> P[|P| - 1] <= k
    requires |Y| > 0 ==> Y[|Y| - 1] <= k
    ensures forall a :: 0 <= a < |P + Y| ==> (P + Y)[a] <= k
  {
    var F := P + Y + R;
    forall a | 0 <= a < |P + Y| ensures (P + Y)[a] <= k {
      var e := if |Y| > 0 then |P| + |Y| - 1 else |P| - 1;
      assert F[a] <= F[e];
    }
  }

  /** The elements after a sorted run's first element at least `k` are all
      at least `k`. */
  lemma UpperPart(L: seq<int>, Y: seq<int>, Q: seq<int>, k: int)
    requires Sorted(L + Y + Q)
    requires forall b :: 0 <= b < |Y| ==> k < Y[b]
    requires |Q| > 0 ==> k <= Q[0]
    ensures forall b :: 0 <= b < |Y + Q| ==> k <= (Y + Q)[b]
  {
    var F := L + Y + Q;
    forall b | 0 <= b < |Y + Q| ensures k <= (Y + Q)[b] {
      if b >= |Y| {
        assert F[|L| + |Y|] <= F[|L| + b];
      }
    }
  }

  // ---------------------------------------------------------------------
  // node_insert_nonfull
  // ---------------------------------------------------------------------

  /** A subtree `node_insert_nonfull` may be called on: well formed,
      balanced, no node over `2t-1` items, and the node itself not full. */
  ghost predicate Roomy(m: Tree, t: int)
  {
    t >= 1 && WellFormed(m) && Balanced(m) && Capped(m, t) && |m.items| < 2 * t - 1
  }

  /** `node_insert_nonfull(m, k)`: a leaf takes `k` into its slot; an
      internal node descends into the child at the slot of `k`, first
      splitting that child if it is full and moving on to the new right half
      when `k` is greater than the median that came up. */
  ghost function InsertNonfull(m: Tree, k: int, t: int): (r: Tree)
    requires Roomy(m, t)
    decreases Height(m)
    ensures r.children == [] <==> m.children == []
    ensures |m.items| <= |r.items| <= |m.items| + 1
    ensures m.children != [] ==> |r.children| - |r.items| == |m.children| - |m.items|
  {
    if m.children == [] then Node(Insort(m.items, k), [])
    else
      var i := Slot(m.items, k);
      if |m.children[i].items| >= 2 * t - 1 then
        SplitRoomy(m, i, t);
        var s := Primitives.SplitChild(m, i, t);
        var j := if k > s.items[i] then i + 1 else i;
        Node(s.items, s.children[j := InsertNonfull(s.children[j], k, t)])
      else
        ChildRoomy(m, i, t);
        Node(m.items, m.children[i := InsertNonfull(m.children[i], k, t)])
  }

  /** A child that is not full of a node `node_insert_nonfull` may be called
      on is one too, one level lower. */
  lemma ChildRoomy(m: Tree, i: int, t: int)
    requires Roomy(m, t) && 0 <= i < |m.children| && |m.children[i].items| < 2 * t - 1
    ensures Roomy(m.children[i], t) && Height(m.children[i]) == Height(m) - 1
  {
    UniformChildren(m);
  }

  /** Splitting the full child `i` of such a node leaves two halves that
      `node_insert_nonfull` may be called on, one level lower. */
  lemma SplitRoomy(m: Tree, i: int, t: int)
    requires Roomy(m, t) && m.children != [] && 0 <= i <= |m.items|
    requires |m.children[i].items| >= 2 * t - 1
    ensures |m.children[i].items| == 2 * t - 1
    ensures m.children[i].children == [] || |m.children[i].children| == 2 * t
    ensures Roomy(Primitives.SplitChild(m, i, t).children[i], t)
    ensures Roomy(Primitives.SplitChild(m, i, t).children[i + 1], t)
    ensures Height(Primitives.SplitChild(m, i, t).children[i]) == Height(m) - 1
    ensures Height(Primitives.SplitChild(m, i, t).children[i + 1]) == Height(m) - 1
  {
    UniformChildren(m);
    var y := m.children[i];
    SplitHalvesCapped(y, t);
    Primitives.SplitHalves(y, t, Height(m) - 1);
  }

  /** Both halves of a split node keep the cap. */
  lemma SplitHalvesCapped(y: Tree, t: int)
    requires Capped(y, t) && WellFormed(y) && t >= 1 && |y.items| == 2 * t - 1
    ensures y.children == [] || |y.children| == 2 * t
    ensures Capped(Node(y.items[..t - 1], if y.children == [] then [] else y.children[..t]), t)
    ensures Capped(Node(y.items[t..], if y.children == [] then [] else y.children[t..]), t)
  {
    if y.children != [] {
      var l := Node(y.items[..t - 1], y.children[..t]);
      var r := Node(y.items[t..], y.children[t..]);
      forall q | 0 <= q < |l.children| ensures Capped(l.children[q], t) {
        assert l.children[q] == y.children[q];
      }
      forall q | 0 <= q < |r.children| ensures Capped(r.children[q], t) {
        assert r.children[q] == y.children[t + q];
      }
    }
  }

  /** The result of `node_insert_nonfull` keeps the shape: well formed,
      balanced at the same height, capped, a leaf exactly when the node was,
      with at most one item more, and with every child between `t-1` and
      `2t-1` items if every child was. */
  lemma {:induction false} InsertNonfullShape(m: Tree, k: int, t: int)
    requires Roomy(m, t)
    ensures WellFormed(InsertNonfull(m, k, t)) && Balanced(InsertNonfull(m, k, t))
    ensures Height(InsertNonfull(m, k, t)) == Height(m)
    ensures Capped(InsertNonfull(m, k, t), t)
    ensures (InsertNonfull(m, k, t).children == []) == (m.children == [])
    ensures |m.items| <= |InsertNonfull(m, k, t).items| <= |m.items| + 1
    ensures AllFull(m.children, t) ==> AllFull(InsertNonfull(m, k, t).children, t)
    decreases Height(m)
  {
    if m.children == [] {
      InsortElements(m.items, k);
    } else {
      var i := Slot(m.items, k);
      var s := m;
      var j := i;
      if |m.children[i].items| >= 2 * t - 1 {
        SplitRoomy(m, i, t);
        s := Primitives.SplitChild(m, i, t);
        j := if k > s.items[i] then i + 1 else i;
        SplitKeepsShape(m, i, t);
      } else {
        ChildRoomy(m, i, t);
      }
      var c := s.children[j];
      InsertNonfullShape(c, k, t);
      if AllFull(m.children, t) {
        assert Full(c, t) && AllFull(c.children, t);
      }
      Replaced(s, j, InsertNonfull(c, k, t), t);
    }
  }

  /** The split in `node_insert_nonfull` keeps the node well formed,
      balanced and capped, and its children within the bounds if they
      were. */
  lemma SplitKeepsShape(m: Tree, i: int, t: int)
    requires Roomy(m, t) && m.children != [] && 0 <= i <= |m.items| && |m.children[i].items| == 2 * t - 1
    requires m.children[i].children == [] || |m.children[i].children| == 2 * t
    ensures WellFormed(Primitives.SplitChild(m, i, t)) && Balanced(Primitives.SplitChild(m, i, t))
    ensures Height(Primitives.SplitChild(m, i, t)) == Height(m)
    ensures Capped(Primitives.SplitChild(m, i, t), t)
    ensures |Primitives.SplitChild(m, i, t).items| == |m.items| + 1
    ensures AllFull(m.children, t) ==> AllFull(Primitives.SplitChild(m, i, t).children, t)
  {
    var s := Primitives.SplitChild(m, i, t);
    Primitives.SplitChildShape(m, i, t);
    SplitHalvesCapped(m.children[i], t);
    forall q | 0 <= q < |s.children| ensures Capped(s.children[q], t) {
      if q < i {
        assert s.children[q] == m.children[q];
      } else if q > i + 1 {
        assert s.children[q] == m.children[q - 1];
      }
    }
    if AllFull(m.children, t) {
      Primitives.SplitChildSizes(m, i, t);
    }
  }

  /** A child of a well-formed, balanced, capped node replaced by one of
      the same kind. */
  lemma Replaced(s: Tree, j: int, c': Tree, t: int)
    requires WellFormed(s) && Balanced(s) && Capped(s, t) && s.children != [] && 0 <= j < |s.children|
    requires WellFormed(c') && Balanced(c') && Height(c') == Height(s) - 1 && Capped(c', t)
    requires (c'.children == []) == (s.children[j].children == [])
    requires |s.children[j].items| <= |c'.items|
    ensures WellFormed(Node(s.items, s.children[j := c'])) && Balanced(Node(s.items, s.children[j := c']))
    ensures Height(Node(s.items, s.children[j := c'])) == Height(s)
    ensures Capped(Node(s.items, s.children[j := c']), t)
    ensures AllFull(s.children, t) && AllFull(c'.children, t) ==> AllFull(s.children[j := c'], t)
  {
    var r := Node(s.items, s.children[j := c']);
    UniformChildren(s);
    UniformUpdate(s.children, j, c', Height(s) - 1);
    NodeOver(r.items, r.children, Height(s) - 1);
    forall q | 0 <= q < |r.children| ensures Capped(r.children[q], t) {
      if q != j { assert r.children[q] == s.children[q]; }
    }
    if AllFull(s.children, t) && AllFull(c'.children, t) {
      assert Full(s.children[j], t);
      AllFullUpdate(s.children, j, c', t);
    }
  }

  /** What precedes the last item-separated child: the sequence ends with
      the last item. */
  lemma {:induction false} FrontLast(cs: seq<Tree>, ks: seq<int>)
    requires |cs| == |ks| > 0
    ensures |Front(cs, ks)| > 0 && Front(cs, ks)[|Front(cs, ks)| - 1] == ks[|ks| - 1]
    decreases |cs|
  {
    if |cs| > 1 {
      FrontLast(cs[1..], ks[1..]);
    }
  }

  /** In a sorted sequence everything up to a position is at most its value,
      and everything from it on at least. */
  lemma SortedAround(s: seq<int>, p: int)
    requires Sorted(s) && 0 <= p < |s|
    ensures forall a :: 0 <= a <= p ==> s[a] <= s[p]
    ensures forall b :: p <= b < |s| ==> s[p] <= s[b]
  {
  }

  /** Putting `k` in order into child `j` of a node whose items around that
      child bracket `k` puts it in order into the whole in-order sequence. */
  lemma FlatSlotted(s: Tree, j: int, k: int, c': Tree)
    requires |s.children| == |s.items| + 1 && 0 <= j < |s.children| && Sorted(Flat(s))
    requires j > 0 ==> s.items[j - 1] <= k
    requires j < |s.items| ==> k <= s.items[j]
    requires Flat(c') == Insort(Flat(s.children[j]), k)
    ensures Flat(Node(s.items, s.children[j := c'])) == Insort(Flat(s), k)
  {
    var r := Node(s.items, s.children[j := c']);
    var P := Front(s.children[..j], s.items[..j]);
    var Q := Back(s.children[j + 1..], s.items[j..]);
    FlatAt(s, j);
    FlatAt(r, j);
    assert r.children[..j] == s.children[..j] && r.children[j + 1..] == s.children[j + 1..];
    if j > 0 {
      FrontLast(s.children[..j], s.items[..j]);
    }
    InsortPiece(P, Flat(s.children[j]), Q, k);
  }

  /** Sorted sequences have sorted pieces. */
  lemma SortedPiece(P: seq<int>, Y: seq<int>, Q: seq<int>)
    requires Sorted(P + Y + Q)
    ensures Sorted(Y)
  {
    forall a, b | 0 <= a < b < |Y| ensures Y[a] <= Y[b] {
      assert Y[a] == (P + Y + Q)[|P| + a] && Y[b] == (P + Y + Q)[|P| + b];
    }
  }

  /** `node_insert_nonfull` on a subtree with a sorted in-order sequence
      inserts `k` into that sequence in order. */
  lemma {:induction false} InsertNonfullFlat(m: Tree, k: int, t: int)
    requires Roomy(m, t) && Sorted(Flat(m))
    ensures Flat(InsertNonfull(m, k, t)) == Insort(Flat(m), k)
    decreases Height(m)
  {
    if m.children != [] {
      var s, j := Descent(m, k, t);
      var c := s.children[j];
      InsertNonfullFlat(c, k, t);
      FlatSlotted(s, j, k, InsertNonfull(c, k, t));
    }
  }

  /** The internal case of `node_insert_nonfull`: after the split of a full
      child (if any), `k` belongs between the items around child `j`, into
      which the call descends. */
  lemma Descent(m: Tree, k: int, t: int) returns (s: Tree, j: int)
    requires Roomy(m, t) && Sorted(Flat(m)) && m.children != []
    ensures |s.children| == |s.items| + 1 && 0 <= j < |s.children| && Flat(s) == Flat(m) && Sorted(Flat(s))
    ensures j > 0 ==> s.items[j - 1] <= k
    ensures j < |s.items| ==> k <= s.items[j]
    ensures Roomy(s.children[j], t) && Height(s.children[j]) < Height(m) && Sorted(Flat(s.children[j]))
    ensures InsertNonfull(m, k, t) == Node(s.items, s.children[j := InsertNonfull(s.children[j], k, t)])
  {
    var i := Slot(m.items, k);
    if |m.children[i].items| >= 2 * t - 1 {
      s, j := SplitDescent(m, k, t, i);
    } else {
      ChildRoomy(m, i, t);
      s, j := m, i;
    }
    FlatAt(s, j);
    SortedPiece(Front(s.children[..j], s.items[..j]), Flat(s.children[j]), Back(s.children[j + 1..], s.items[j..]));
  }

  /** The split of the full child `i` at the slot of `k`: `k` belongs
      next to the median that came up, on the side the code descends. */
  lemma SplitDescent(m: Tree, k: int, t: int, i: int) returns (s: Tree, j: int)
    requires Roomy(m, t) && m.children != [] && i == Slot(m.items, k) && |m.children[i].items| >= 2 * t - 1
    ensures |s.children| == |s.items| + 1 && 0 <= j < |s.children| && Flat(s) == Flat(m)
    ensures j > 0 ==> s.items[j - 1] <= k
    ensures j < |s.items| ==> k <= s.items[j]
    ensures Roomy(s.children[j], t) && Height(s.children[j]) < Height(m)
    ensures InsertNonfull(m, k, t) == Node(s.items, s.children[j := InsertNonfull(s.children[j], k, t)])
  {
    SplitRoomy(m, i, t);
    s := Primitives.SplitChild(m, i, t);
    j := if k > s.items[i] then i + 1 else i;
    Primitives.SplitChildFlat(m, i, t);
  }

  // ---------------------------------------------------------------------
  // node_insert
  // ---------------------------------------------------------------------

  /** The root a full root is split under: a new node with no items whose
      only child is the old root, after `node_tree_split_child(s, 0)`. */
  ghost function RootSplit(m: Tree, t: int): (r: Tree)
    requires t >= 1 && |m.items| == 2 * t - 1 && (m.children == [] || |m.children| == 2 * t)
    ensures r.items == [m.items[t - 1]] && |r.children| == 2
    ensures r.children[0].items == m.items[..t - 1] && r.children[1].items == m.items[t..]
  {
    Primitives.SplitChild(Node([], [m]), 0, t)
  }

  /** A root split leaves the old median alone in a new root over the two
      halves, of `t-1` items each, one level higher, and keeps the in-order
      sequence. */
  lemma RootSplitShape(m: Tree, t: int)
    requires Shaped(m, t) && |m.items| == 2 * t - 1
    ensures m.children == [] || |m.children| == 2 * t
    ensures RootSplit(m, t).items == [m.items[t - 1]]
    ensures |RootSplit(m, t).children| == 2
    ensures |RootSplit(m, t).children[0].items| == t - 1 && |RootSplit(m, t).children[1].items| == t - 1
    ensures Shaped(RootSplit(m, t), t) && Height(RootSplit(m, t)) == Height(m) + 1
    ensures Flat(RootSplit(m, t)) == Flat(m)
  {
    var s := Node([], [m]);
    assert Full(m, t);
    assert WellFormed(s) && Balanced(s) && AllFull(s.children, t);
    Primitives.SplitChildShape(s, 0, t);
    Primitives.SplitChildSizes(s, 0, t);
    Primitives.SplitChildFlat(s, 0, t);
    FlatSingle(m);
  }

  /** A capped, well-formed, balanced subtree: what `node_insert` may be
      called on. */
  ghost predicate Insertable(m: Tree, t: int)
  {
    t >= 2 && WellFormed(m) && Balanced(m) && Capped(m, t)
  }

  /** `node_insert(m, k)`: the tree after inserting `k`, whose root is a new
      node over the split old root when that root was full. */
  ghost function Insert(m: Tree, k: int, t: int): (r: Tree)
    requires Insertable(m, t)
    ensures |m.items| < 2 * t - 1 ==> |m.items| <= |r.items| <= |m.items| + 1
    ensures |m.items| >= 2 * t - 1 ==> 1 <= |r.items| <= 2 && |r.children| == |r.items| + 1
  {
    if |m.items| >= 2 * t - 1 then
      RootRoomy(m, t);
      InsertNonfull(RootSplit(m, t), k, t)
    else
      InsertNonfull(m, k, t)
  }

  /** A full root split under a new root leaves a tree that
      `node_insert_nonfull` may be called on. */
  lemma RootRoomy(m: Tree, t: int)
    requires Insertable(m, t) && |m.items| >= 2 * t - 1
    ensures |m.items| == 2 * t - 1 && (m.children == [] || |m.children| == 2 * t)
    ensures Roomy(RootSplit(m, t), t) && Height(RootSplit(m, t)) == Height(m) + 1
    ensures Flat(RootSplit(m, t)) == Flat(m)
  {
    var s := Node([], [m]);
    assert WellFormed(s) && Balanced(s);
    Primitives.SplitChildShape(s, 0, t);
    Primitives.SplitChildFlat(s, 0, t);
    FlatSingle(m);
    SplitHalvesCapped(m, t);
  }

  /** Inserting into a B-tree gives a B-tree whose in-order sequence is the
      old one with `k` inserted in order; the tree grows one level exactly
      when the root was full. */
  lemma InsertBTree(m: Tree, k: int, t: int)
    requires IsBTree(m, t)
    ensures Insertable(m, t)
    ensures IsBTree(Insert(m, k, t), t)
    ensures Flat(Insert(m, k, t)) == Insort(Flat(m), k)
    ensures Height(Insert(m, k, t)) == Height(m) + (if |m.items| == 2 * t - 1 then 1 else 0)
  {
    CappedOf(m, t);
    var r := Insert(m, k, t);
    var s := m;
    if |m.items| >= 2 * t - 1 {
      RootRoomy(m, t);
      RootSplitShape(m, t);
      s := RootSplit(m, t);
    }
    assert Roomy(s, t) && RootSized(s, t) && Sorted(Flat(s)) && Flat(s) == Flat(m);
    InsertNonfullShape(s, k, t);
    InsertNonfullFlat(s, k, t);
    InsortSorted(Flat(m), k);
  }

  /** Every node of a subtree whose children are all within the bounds is
      capped. */
  lemma CappedOf(m: Tree, t: int)
    requires RootSized(m, t)
    ensures Capped(m, t)
  {
    forall q | 0 <= q < |m.children| ensures Capped(m.children[q], t) {
      FullCapped(m.children[q], t);
    }
  }

  /** Nodes within both bounds are within the upper one. */
  lemma {:induction false} FullCapped(m: Tree, t: int)
    requires Full(m, t)
    ensures Capped(m, t)
    decreases m
  {
    forall q | 0 <= q < |m.children| ensures Capped(m.children[q], t) {
      FullCapped(m.children[q], t);
    }
  }
}
