/**
 * The node primitives of src/btree.c on the memory of module Memory:
 * `node_tree_split_child`, `node_child_merge`, `node_shift_left` and
 * `node_shift_right`. Each rewrites the records of a parent `x` and of the
 * children it works on, in the order and with the loops of the C code, and is
 * proved to leave the subtree at `x` well formed with the value that the
 * function of the same name in module Primitives gives.
 */
module Nodes {
  import opened Model
  import opened Memory
  import opened Buffers
  import opened Surgery
  import opened Graft
  import opened Siblings
  import Primitives

  // ---------------------------------------------------------------------
  // Reading counts off the value
  // ---------------------------------------------------------------------

  /** The value of a well-formed node lists exactly its live items and, when
      internal, the values of its live children. */
  lemma Counts(mem: Mem, t: int, p: Ptr, h: nat)
    requires Wf(mem, t, p, h)
    ensures Abs(mem, p, h).items == Keys(mem[p]) && |Keys(mem[p])| == mem[p].n
    ensures |Kids(mem[p])| == mem[p].c
    ensures h == 0 ==> Abs(mem, p, h).children == [] && mem[p].children == []
    ensures h > 0 ==> Abs(mem, p, h).children == Abses(mem, Kids(mem[p]), h - 1)
    ensures h > 0 ==> |mem[p].children| == 2 * t + 1 && Kids(mem[p]) == mem[p].children[..mem[p].c]
  {
  }

  // ---------------------------------------------------------------------
  // node_tree_split_child
  // ---------------------------------------------------------------------

  /** What `node_tree_split_child(t, x, i)` needs of the node `x`: an internal
      node (one child more than items) with room for one more item, whose
      child `i` is full (`2t-1` items, and `2t` children if internal). */
  ghost predicate Splittable(a: Tree, i: int, t: int)
  {
    t >= 1 && |a.children| == |a.items| + 1 && |a.items| < 2 * t - 1 && 0 <= i < |a.children| &&
    |a.children[i].items| == 2 * t - 1 &&
    (a.children[i].children == [] || |a.children[i].children| == 2 * t)
  }

  /** Child `i` of the internal node at `x` is one
      `node_tree_split_child` may split. */
  ghost predicate SplitReady(mem: Mem, t: int, x: Ptr, i: int, h: nat)
  {
    h > 0 && Wf(mem, t, x, h) && Splittable(Abs(mem, x, h), i, t)
  }

  /** The record-level reading of `SplitReady`. */
  lemma SplitFacts(mem: Mem, t: int, x: Ptr, i: int, h: nat) returns (y: Ptr)
    requires SplitReady(mem, t, x, i, h)
    ensures mem[x].c == mem[x].n + 1 && mem[x].n < 2 * t - 1 && 0 <= i <= mem[x].n
    ensures |mem[x].children| == 2 * t + 1 && |mem[x].items| == 2 * t
    ensures |Kids(mem[x])| == mem[x].c && y == Kids(mem[x])[i] && y == mem[x].children[i]
    ensures y in mem && y != x && y != NULL && Wf(mem, t, y, h - 1)
    ensures mem[y].n == 2 * t - 1 && |mem[y].items| == 2 * t
    ensures (h > 1 <==> mem[y].children != []) && (h > 1 ==> mem[y].c == 2 * t && |mem[y].children| == 2 * t + 1)
    ensures |Keys(mem[y])| == 2 * t - 1 && |Kids(mem[y])| == (if h > 1 then 2 * t else 0)
    ensures Reach(mem, x, h) <= mem.Keys && y in Reach(mem, x, h)
  {
    Counts(mem, t, x, h);
    var ks := Kids(mem[x]);
    y := ks[i];
    Counts(mem, t, y, h - 1);
    ReachIn(mem, t, x, h);
    KidReach(mem, t, x, h, i);
    ReachIn(mem, t, y, h - 1);
    assert y in Reach(mem, y, h - 1) && Reach(mem, y, h - 1) <= Reach(mem, x, h);
    forall q | q in Reach(mem, x, h) ensures q in mem.Keys {
    }
  }

  /** The records after the split: `y` keeps its first half, the fresh `z`
      holds the second, `x` holds the median at `i` and `z` at `i+1`, and every
      other record is unchanged. */
  ghost predicate SplitRecs(mem: Mem, mem': Mem, t: int, x: Ptr, i: int, h: nat, y: Ptr, z: Ptr)
  {
    SplitReady(mem, t, x, i, h) &&
    x in mem && 0 <= i < |Kids(mem[x])| && y == Kids(mem[x])[i] && y in mem && y != x &&
    |Keys(mem[y])| == 2 * t - 1 && |Kids(mem[y])| == (if h > 1 then 2 * t else 0) &&
    z != NULL && z !in mem && mem'.Keys == mem.Keys + {z} && Agree(mem, mem', mem.Keys - {x, y}) &&
    y in mem' && z in mem' && x in mem' &&
    Fits(mem'[y], t, h - 1) && Keys(mem'[y]) == Keys(mem[y])[..t - 1] &&
    (h > 1 ==> Kids(mem'[y]) == Kids(mem[y])[..t]) &&
    Fits(mem'[z], t, h - 1) && Keys(mem'[z]) == Keys(mem[y])[t..] &&
    (h > 1 ==> Kids(mem'[z]) == Kids(mem[y])[t..]) &&
    Fits(mem'[x], t, h) && Kids(mem'[x]) == Kids(mem[x])[..i] + [y, z] + Kids(mem[x])[i + 1..] &&
    Keys(mem'[x]) == Keys(mem[x])[..i] + [Keys(mem[y])[t - 1]] + Keys(mem[x])[i..]
  }

  /** `node_tree_split_child(t, x, i)`: splits the full child `y` of `x` at
      its median; the new right half `z` is a fresh node. */
  method SplitChild(heap: Heap, t: int, x: Ptr, i: int, ghost h: nat)
    requires heap.Valid() && SplitReady(heap.mem, t, x, i, h)
    modifies heap
    ensures heap.Valid() && heap.next == old(heap.next) + 1
    ensures heap.mem.Keys == old(heap.mem).Keys + {old(heap.next)}
    ensures Agree(old(heap.mem), heap.mem, old(heap.mem).Keys - old(Reach(heap.mem, x, h)))
    ensures Wf(heap.mem, t, x, h)
    ensures Abs(heap.mem, x, h) == Primitives.SplitChild(old(Abs(heap.mem, x, h)), i, t)
    ensures Reach(heap.mem, x, h) == old(Reach(heap.mem, x, h)) + {old(heap.next)}
    ensures i < |heap.mem[x].children| && heap.mem[x].children[i] == old(heap.mem[x].children[i])
  {
    ghost var mem := heap.mem;
    assert x in mem && 0 <= i < |mem[x].children| && mem[x].children[i] in mem && mem[x].children[i] != x &&
           Fits(mem[x], t, h) && mem[x].c == mem[x].n + 1 && mem[x].n < 2 * t - 1 && i <= mem[x].n && t >= 1 &&
           Fits(mem[mem[x].children[i]], t, h - 1) && mem[mem[x].children[i]].n == 2 * t - 1 &&
           (h - 1 > 0 ==> mem[mem[x].children[i]].c == 2 * t) by {
      var y0 := SplitFacts(mem, t, x, i, h);
    }
    var z := NodeNew(heap, t);
    var y := heap.mem[x].children[i];
    if heap.mem[y].children != [] {
      var _ := Transition(heap, z, t);
    }
    ghost var m := heap.mem;
    var yr, zr := MoveUpperHalf(heap.mem[y], heap.mem[z], t, h - 1);
    var xr := InsertMedian(heap.mem[x], i, z, yr.items[t - 1], t, h);
    Store(heap, z, zr);
    Store(heap, y, yr);
    Store(heap, x, xr);
    assert heap.mem[x].children[i] == m[x].children[i] == mem[x].children[i];
    SplitStore(mem, m, t, x, i, h, y, z, yr, zr, xr);
  }

  /** The first part of the split (btree.c, the moves into `z`): `z`, fresh,
      takes the upper `t-1` items of the full `y` and, when `y` is internal,
      its upper children; `y` keeps the lower halves. The median stays in
      `y`'s buffer, past its live items. */
  method MoveUpperHalf(yr: NodeRec, zr: NodeRec, t: int, ghost h: nat) returns (yr': NodeRec, zr': NodeRec)
    requires t >= 1 && Fits(yr, t, h) && yr.n == 2 * t - 1 && (h > 0 ==> yr.c == 2 * t)
    requires zr.n == 0 && zr.c == 0 && |zr.items| == 2 * t && (h == 0 <==> zr.children == [])
    requires zr.children != [] ==> |zr.children| == 2 * t + 1
    ensures Halved(yr, yr', zr', t, h)
  {
    zr' := zr.(n := t - 1);
    var its := Copy(zr'.items, 0, yr.items, t, t - 1);
    zr' := zr'.(items := its);
    yr' := yr;
    if yr.children != [] {
      var cs := Copy(zr'.children, 0, yr.children, t, t + 1);
      zr' := zr'.(children := cs);
      yr' := yr'.(c := t);
      zr' := zr'.(c := t);
    }
    yr' := yr'.(n := t - 1);
  }

  /** The second part of the split: the children of `x` after `i` and its
      items from `i` on move up one slot, `z` becomes child `i+1` and the
      median `v` item `i`. */
  method InsertMedian(xr: NodeRec, i: int, z: Ptr, v: int, t: int, ghost h: nat) returns (xr': NodeRec)
    requires h > 0 && Fits(xr, t, h) && xr.c == xr.n + 1 && xr.n < 2 * t - 1 && 0 <= i <= xr.n
    ensures Widened(xr, xr', i, z, v, t, h)
    ensures i < |xr'.children| && xr'.children[i] == xr.children[i]
  {
    var cs := ShiftUp(xr.children, i + 1, xr.n);
    xr' := xr.(children := cs[i + 1 := z], c := xr.c + 1);
    var its := ShiftUp(xr'.items, i, xr'.n);
    xr' := xr'.(items := its[i := v], n := xr'.n + 1);
    Opened(xr.children, i + 1, xr.n, z, xr.c);
    Opened(xr.items, i, xr.n, v, xr.n);
  }

  /** A buffer after `ShiftUp(a, lo, hi)` and a store at `lo`: its first `k+1`
      slots are the first `k` old ones with `v` inserted at `lo`. */
  lemma Opened<T>(a: seq<T>, lo: int, hi: int, v: T, k: int)
    requires 0 <= lo <= hi + 1 && hi + 1 < |a| && lo < k + 1 <= hi + 2
    ensures (a[..lo + 1] + a[lo..hi + 1] + a[hi + 2..])[lo := v][..k + 1] == a[..k][..lo] + [v] + a[..k][lo..]
  {
  }

  /** What `MoveUpperHalf` computes from the record `r` of `y`. */
  ghost predicate Halved(r: NodeRec, yr: NodeRec, zr: NodeRec, t: int, h: nat)
  {
    1 <= t <= r.n <= |r.items| && (h > 0 ==> t <= r.c <= |r.children|) &&
    Fits(yr, t, h) && Keys(yr) == Keys(r)[..t - 1] && yr.items == r.items &&
    Fits(zr, t, h) && Keys(zr) == Keys(r)[t..] &&
    (h > 0 ==> Kids(yr) == Kids(r)[..t] && Kids(zr) == Kids(r)[t..])
  }

  /** What `InsertMedian` computes from the record `r` of `x`. */
  ghost predicate Widened(r: NodeRec, xr: NodeRec, i: int, z: Ptr, v: int, t: int, h: nat)
  {
    Fits(xr, t, h) && 0 <= i <= |Keys(r)| && i + 1 <= |Kids(r)| &&
    Keys(xr) == Keys(r)[..i] + [v] + Keys(r)[i..] &&
    Kids(xr) == Kids(r)[..i + 1] + [z] + Kids(r)[i + 1..]
  }

  /** The state the split method reaches: `m` is `mem` with the fresh `z`, and
      the new records of `y`, `z` and `x` are computed from those of `m`. */
  ghost predicate SplitStored(mem: Mem, m: Mem, t: int, x: Ptr, i: int, h: nat, y: Ptr, z: Ptr,
                              yr: NodeRec, zr: NodeRec, xr: NodeRec)
  {
    SplitReady(mem, t, x, i, h) && y == mem[x].children[i] &&
    z != NULL && z !in mem && z in m && m == mem[z := m[z]] && y in m && x in m &&
    Halved(m[y], yr, zr, t, h - 1) && Widened(m[x], xr, i, z, yr.items[t - 1], t, h)
  }

  /** Storing the two halves and the widened parent rebuilds the subtree
      at `x` as the split of its value. */
  lemma SplitStore(mem: Mem, m: Mem, t: int, x: Ptr, i: int, h: nat, y: Ptr, z: Ptr,
                   yr: NodeRec, zr: NodeRec, xr: NodeRec)
    requires SplitStored(mem, m, t, x, i, h, y, z, yr, zr, xr)
    ensures m[z := zr][y := yr][x := xr].Keys == mem.Keys + {z}
    ensures Agree(mem, m[z := zr][y := yr][x := xr], mem.Keys - Reach(mem, x, h))
    ensures Wf(m[z := zr][y := yr][x := xr], t, x, h)
    ensures Abs(m[z := zr][y := yr][x := xr], x, h) == Primitives.SplitChild(Abs(mem, x, h), i, t)
    ensures Reach(m[z := zr][y := yr][x := xr], x, h) == Reach(mem, x, h) + {z}
  {
    var mem' := m[z := zr][y := yr][x := xr];
    var y0 := SplitFacts(mem, t, x, i, h);
    SplitStoreRecs(mem, m, t, x, i, h, y, z, yr, zr, xr);
    SplitDone(mem, mem', t, x, i, h, y, z);
  }

  /** The three records stored by the split, read field by field. */
  lemma SplitStoreRecs(mem: Mem, m: Mem, t: int, x: Ptr, i: int, h: nat, y: Ptr, z: Ptr,
                       yr: NodeRec, zr: NodeRec, xr: NodeRec)
    requires SplitStored(mem, m, t, x, i, h, y, z, yr, zr, xr)
    ensures SplitRecs(mem, m[z := zr][y := yr][x := xr], t, x, i, h, y, z)
  {
    var y0 := SplitFacts(mem, t, x, i, h);
    SplitStoreHalves(mem, m, t, x, i, h, y, z, yr, zr, xr);
    SplitStoreParent(mem, m, t, x, i, h, y, z, yr, zr, xr);
  }

  /** The two halves of the split child as stored. */
  lemma SplitStoreHalves(mem: Mem, m: Mem, t: int, x: Ptr, i: int, h: nat, y: Ptr, z: Ptr,
                         yr: NodeRec, zr: NodeRec, xr: NodeRec)
    requires SplitStored(mem, m, t, x, i, h, y, z, yr, zr, xr) && y != x && z != x && y in mem
    ensures Fits(m[z := zr][y := yr][x := xr][y], t, h - 1)
    ensures Keys(m[z := zr][y := yr][x := xr][y]) == Keys(mem[y])[..t - 1]
    ensures h > 1 ==> Kids(m[z := zr][y := yr][x := xr][y]) == Kids(mem[y])[..t]
    ensures Fits(m[z := zr][y := yr][x := xr][z], t, h - 1)
    ensures Keys(m[z := zr][y := yr][x := xr][z]) == Keys(mem[y])[t..]
    ensures h > 1 ==> Kids(m[z := zr][y := yr][x := xr][z]) == Kids(mem[y])[t..]
  {
    assert m[y] == mem[y];
  }

  /** The parent of the split child as stored. */
  lemma SplitStoreParent(mem: Mem, m: Mem, t: int, x: Ptr, i: int, h: nat, y: Ptr, z: Ptr,
                         yr: NodeRec, zr: NodeRec, xr: NodeRec)
    requires SplitStored(mem, m, t, x, i, h, y, z, yr, zr, xr) && x in mem
    requires 0 <= i < |Kids(mem[x])| && y == Kids(mem[x])[i] && y in mem && |Keys(mem[y])| == 2 * t - 1
    ensures Fits(m[z := zr][y := yr][x := xr][x], t, h)
    ensures Kids(m[z := zr][y := yr][x := xr][x]) == Kids(mem[x])[..i] + [y, z] + Kids(mem[x])[i + 1..]
    ensures Keys(m[z := zr][y := yr][x := xr][x]) == Keys(mem[x])[..i] + [Keys(mem[y])[t - 1]] + Keys(mem[x])[i..]
  {
    assert m[y] == mem[y] && m[x] == mem[x];
    Spliced(Kids(mem[x]), i, z);
  }

  /** Inserting after position `i` is inserting a pair in place of `s[i]`. */
  lemma Spliced<T>(s: seq<T>, i: int, v: T)
    requires 0 <= i < |s|
    ensures s[..i + 1] + [v] + s[i + 1..] == s[..i] + [s[i], v] + s[i + 1..]
  {
    assert s[..i + 1] == s[..i] + [s[i]];
  }

  /** Records shaped as after a split give the split of the value, with
      the new node added to the subtree's addresses. */
  lemma SplitDone(mem: Mem, mem': Mem, t: int, x: Ptr, i: int, h: nat, y: Ptr, z: Ptr)
    requires SplitRecs(mem, mem', t, x, i, h, y, z)
    ensures Wf(mem', t, x, h)
    ensures Abs(mem', x, h) == Primitives.SplitChild(Abs(mem, x, h), i, t)
    ensures Reach(mem', x, h) == Reach(mem, x, h) + {z}
  {
    var ks := Kids(mem[x]);
    var ss := Reaches(mem, ks, h - 1);
    var y0 := SplitFacts(mem, t, x, i, h);
    KidReach(mem, t, x, h, i);
    var G, k := SplitPair(mem, mem', t, x, h, y, z);
    SplitSwap(mem, mem', t, x, i, h, y, z);
    Rebuild(mem, mem', t, x, h, ks, ss, i, i + 1, [y, z], {z});
    SplitValue(mem, mem', t, x, i, h, y, z, G, k);
    AddOne(x, Union(ss[..i]), Union(ss[i..i + 1]), Union(ss[i + 1..]), Union(Reaches(mem', [y, z], h - 1)), z);
  }

  /** The two halves `y` and `z` of the split child, with their subtrees. */
  lemma SplitPair(mem: Mem, mem': Mem, t: int, x: Ptr, h: nat, y: Ptr, z: Ptr) returns (G: seq<Ptr>, k: int)
    requires h > 0 && t >= 1 && Wf(mem, t, y, h - 1) && x !in Reach(mem, y, h - 1)
    requires z !in mem && z != NULL && y in mem' && z in mem' && Agree(mem, mem', mem.Keys - {x, y})
    requires Fits(mem'[y], t, h - 1) && Fits(mem'[z], t, h - 1) && |Kids(mem[y])| == (if h > 1 then 2 * t else 0)
    requires h > 1 ==> Kids(mem'[y]) == Kids(mem[y])[..t] && Kids(mem'[z]) == Kids(mem[y])[t..]
    ensures G == (if h > 1 then Kids(mem[y]) else []) && k == (if h > 1 then t else 0)
    ensures Forest(mem', t, [y, z], h - 1)
    ensures Abses(mem', [y, z], h - 1) ==
            [Node(Keys(mem'[y]), if h - 1 == 0 then [] else Abses(mem, G, h - 2)[..k]),
             Node(Keys(mem'[z]), if h - 1 == 0 then [] else Abses(mem, G, h - 2)[k..])]
    ensures Union(Reaches(mem', [y, z], h - 1)) == Reach(mem, y, h - 1) + {z}
  {
    G, k := [], 0;
    if h > 1 {
      G, k := Kids(mem[y]), t;
      SplitSharing(mem, mem', t, x, h, y, z);
    } else {
      SplitSharingLeaf(mem, mem', t, y, z);
      assert Reach(mem, y, 0) == {y};
    }
    RegraftPair(mem, mem', t, h - 1, G, k, y, z);
  }

  /** The halves `y` and `z` of an internal node share out its old
      children. */
  lemma SplitSharing(mem: Mem, mem': Mem, t: int, x: Ptr, h: nat, y: Ptr, z: Ptr)
    requires h > 1 && t >= 0 && Wf(mem, t, y, h - 1) && x !in Reach(mem, y, h - 1)
    requires z !in mem && z != NULL && y in mem' && z in mem' && Agree(mem, mem', mem.Keys - {x, y})
    requires Fits(mem'[y], t, h - 1) && Fits(mem'[z], t, h - 1) && |Kids(mem[y])| == 2 * t
    requires Kids(mem'[y]) == Kids(mem[y])[..t] && Kids(mem'[z]) == Kids(mem[y])[t..]
    ensures Sharing(mem, mem', t, h - 1, Kids(mem[y]), t, y, z)
    ensures Reach(mem, y, h - 1) == {y} + Union(Reaches(mem, Kids(mem[y]), h - 2))
  {
    var U := Union(Reaches(mem, Kids(mem[y]), h - 2));
    WfForest(mem, t, y, h - 1);
    ReachOf(mem, t, y, h - 1);
    ReachKeys(mem, t, y, h - 1);
    Below(U, Reach(mem, y, h - 1), mem.Keys, x, y);
    AgreeSub(mem, mem', mem.Keys - {x, y}, U);
  }

  /** The halves `y` and `z` of a leaf. */
  lemma SplitSharingLeaf(mem: Mem, mem': Mem, t: int, y: Ptr, z: Ptr)
    requires y != z && y != NULL && z != NULL && y in mem' && z in mem'
    requires Fits(mem'[y], t, 0) && Fits(mem'[z], t, 0)
    ensures Sharing(mem, mem', t, 0, [], 0, y, z)
  {
  }

  /** The split's block `[y, z]` in place of `[y]` meets the hypotheses of
      `RebuildForest`. */
  lemma SplitSwap(mem: Mem, mem': Mem, t: int, x: Ptr, i: int, h: nat, y: Ptr, z: Ptr)
    requires h > 0 && Wf(mem, t, x, h) && 0 <= i < |Kids(mem[x])| && y == Kids(mem[x])[i]
    requires z !in mem && Agree(mem, mem', mem.Keys - {x, y})
    requires Forest(mem', t, [y, z], h - 1) && Union(Reaches(mem', [y, z], h - 1)) == Reach(mem, y, h - 1) + {z}
    ensures Swap(mem, mem', t, Kids(mem[x]), Reaches(mem, Kids(mem[x]), h - 1), h - 1, i, i + 1, [y, z], {z})
    ensures x !in Union(Reaches(mem, Kids(mem[x]), h - 1))
    ensures Union(Reaches(mem, Kids(mem[x]), h - 1)[i..i + 1]) == Reach(mem, y, h - 1)
  {
    var ks := Kids(mem[x]);
    var ss := Reaches(mem, ks, h - 1);
    WfForest(mem, t, x, h);
    ReachOf(mem, t, x, h);
    ReachKeys(mem, t, x, h);
    ReachKeys(mem, t, y, h - 1);
    SwapSets(ss, i, Reach(mem, x, h), mem.Keys, x, y, z);
    AgreeSub(mem, mem', mem.Keys - {x, y}, Union(ss[..i]) + Union(ss[i + 1..]));
  }

  /** The set algebra behind `SplitSwap`: `ss` are the disjoint subtrees below
      `x`, whose subtree `R` lies in `K`, and `y` lies in the block `i`. */
  lemma SwapSets(ss: seq<set<Ptr>>, i: int, R: set<Ptr>, K: set<Ptr>, x: Ptr, y: Ptr, z: Ptr)
    requires Apart(ss) && 0 <= i < |ss| && R == {x} + Union(ss) && R <= K && x !in Union(ss)
    requires y in ss[i] && z !in K
    ensures Union(ss[..i]) + Union(ss[i + 1..]) <= K - {x, y}
    ensures Union(ss[i..i + 1]) == ss[i]
    ensures {z} !! Union(ss)
  {
    UnionThree(ss, i, i + 1);
    assert ss[i..i + 1] == [ss[i]];
    UnionOne(ss[i]);
    BlockAlone(ss, i, i + 1);
    Outside(Union(ss[..i]), Union(ss[i..i + 1]), Union(ss[i + 1..]), R, K, x, y);
  }

  lemma Below(U: set<Ptr>, R: set<Ptr>, K: set<Ptr>, x: Ptr, y: Ptr)
    requires R == {y} + U && R <= K && x !in R && y !in U
    ensures U <= K - {x, y}
  {
  }

  lemma Outside(A: set<Ptr>, B: set<Ptr>, C: set<Ptr>, R: set<Ptr>, K: set<Ptr>, x: Ptr, y: Ptr)
    requires R == {x} + (A + B + C) && R <= K && x !in A + B + C && y in B && B !! A + C
    ensures A + C <= K - {x, y}
  {
  }

  lemma AddOne(x: Ptr, A: set<Ptr>, B: set<Ptr>, C: set<Ptr>, M: set<Ptr>, z: Ptr)
    requires M == B + {z}
    ensures {x} + (A + M + C) == {x} + (A + B + C) + {z}
  {
  }

  /** The value of `x` after the split is `Primitives.SplitChild` of its old
      value. */
  lemma SplitValue(mem: Mem, mem': Mem, t: int, x: Ptr, i: int, h: nat, y: Ptr, z: Ptr, G: seq<Ptr>, k: int)
    requires h > 0 && x in mem && y in mem && Splittable(Abs(mem, x, h), i, t)
    requires i < |Kids(mem[x])| && y == Kids(mem[x])[i]
    requires |Keys(mem[y])| == 2 * t - 1 && |Kids(mem[y])| == (if h > 1 then 2 * t else 0)
    requires x in mem' && y in mem' && z in mem'
    requires Keys(mem'[x]) == Keys(mem[x])[..i] + [Keys(mem[y])[t - 1]] + Keys(mem[x])[i..]
    requires Keys(mem'[y]) == Keys(mem[y])[..t - 1] && Keys(mem'[z]) == Keys(mem[y])[t..]
    requires G == (if h > 1 then Kids(mem[y]) else []) && k == (if h > 1 then t else 0)
    requires Abses(mem', [y, z], h - 1) ==
            [Node(Keys(mem'[y]), if h - 1 == 0 then [] else Abses(mem, G, h - 2)[..k]),
             Node(Keys(mem'[z]), if h - 1 == 0 then [] else Abses(mem, G, h - 2)[k..])]
    ensures Primitives.SplitChild(Abs(mem, x, h), i, t) ==
            Node(Keys(mem'[x]), Abses(mem, Kids(mem[x]), h - 1)[..i] + Abses(mem', [y, z], h - 1) + Abses(mem, Kids(mem[x]), h - 1)[i + 1..])
  {
    var a := Abs(mem, x, h);
    var ya := Abs(mem, y, h - 1);
    assert a.children == Abses(mem, Kids(mem[x]), h - 1);
    assert a.children[i] == ya;
    assert ya == Node(Keys(mem[y]), if h > 1 then Abses(mem, G, h - 2) else []);
    SplitChildOf(a, i, t, ya, Keys(mem'[x]), Abses(mem', [y, z], h - 1));
  }

  /** `Primitives.SplitChild` spelled out for a parent `a` whose child `i` is
      `ya`. */
  lemma SplitChildOf(a: Tree, i: int, t: int, ya: Tree, xs: seq<int>, pair: seq<Tree>)
    requires Splittable(a, i, t) && a.children[i] == ya
    requires xs == a.items[..i] + [ya.items[t - 1]] + a.items[i..]
    requires pair == [Node(ya.items[..t - 1], if ya.children == [] then [] else ya.children[..t]),
                      Node(ya.items[t..], if ya.children == [] then [] else ya.children[t..])]
    ensures Primitives.SplitChild(a, i, t) == Node(xs, a.children[..i] + pair + a.children[i + 1..])
  {
  }

  // ---------------------------------------------------------------------
  // node_child_merge
  // ---------------------------------------------------------------------

  /** A node whose buffers can take what is moved into it: at most `2t-1`
      items, and one child more than items if internal. */
  ghost predicate Snug(m: Tree, t: int)
  {
    |m.items| <= 2 * t - 1 && (m.children == [] || |m.children| == |m.items| + 1)
  }

  /** What `node_child_merge(x, i)` needs of `x`: an item `i` with a child on
      either side, and room in the left child for the item and the whole
      right child. */
  ghost predicate Mergeable(a: Tree, i: int, t: int)
  {
    0 <= i < |a.items| && |a.children| == |a.items| + 1 && |a.items| <= 2 * t - 1 &&
    Snug(a.children[i], t) && Snug(a.children[i + 1], t) &&
    |a.children[i].items| + 1 + |a.children[i + 1].items| <= 2 * t
  }

  /** The record-level reading of `Mergeable` and of `x` being well formed. */
  lemma MergeFacts(mem: Mem, t: int, x: Ptr, i: int, h: nat) returns (y: Ptr, z: Ptr)
    requires h > 0 && Wf(mem, t, x, h) && Mergeable(Abs(mem, x, h), i, t)
    ensures mem[x].c == mem[x].n + 1 && mem[x].n <= 2 * t - 1 && 0 <= i < mem[x].n
    ensures y == mem[x].children[i] && z == mem[x].children[i + 1]
    ensures i + 1 < |Kids(mem[x])| && y == Kids(mem[x])[i] && z == Kids(mem[x])[i + 1]
    ensures y in mem && z in mem && y != z && x != y && x != z
    ensures Fits(mem[y], t, h - 1) && Fits(mem[z], t, h - 1)
    ensures mem[y].n + 1 + mem[z].n <= 2 * t && mem[y].c + mem[z].c <= 2 * t + 1
  {
    MergeParent(mem, t, x, i, h);
    y := KidRecord(mem, t, x, h, i);
    z := KidRecord(mem, t, x, h, i + 1);
    var a := Abs(mem, x, h);
    SnugPair(a.children[i], a.children[i + 1], t);
    assert y != z && x != y && x != z by {
      var y0, z0 := SiblingFacts(mem, t, x, i, h);
    }
  }

  /** The record of the parent in a merge. */
  lemma MergeParent(mem: Mem, t: int, x: Ptr, i: int, h: nat)
    requires h > 0 && Wf(mem, t, x, h) && Mergeable(Abs(mem, x, h), i, t)
    ensures mem[x].c == mem[x].n + 1 && mem[x].n <= 2 * t - 1 && 0 <= i < mem[x].n
    ensures i + 1 < |Kids(mem[x])| && Kids(mem[x]) == mem[x].children[..mem[x].c]
  {
    Counts(mem, t, x, h);
  }

  /** The record of live child `j` of a well-formed node fits one level down,
      and its counts are the sizes of child `j` of the node's value. */
  lemma KidRecord(mem: Mem, t: int, x: Ptr, h: nat, j: int) returns (p: Ptr)
    requires h > 0 && Wf(mem, t, x, h) && 0 <= j < |Kids(mem[x])|
    ensures p == Kids(mem[x])[j] && p in mem && Fits(mem[p], t, h - 1)
    ensures |Abs(mem, x, h).children| == |Kids(mem[x])|
    ensures |Abs(mem, x, h).children[j].items| == mem[p].n
    ensures |Abs(mem, x, h).children[j].children| == mem[p].c
  {
    p := Kids(mem[x])[j];
    KidArity(mem, t, x, h, j);
  }

  /** The counts of a well-formed child record are the sizes of the
      matching child of its parent's value. */
  lemma KidArity(mem: Mem, t: int, x: Ptr, h: nat, j: int)
    requires x in mem && h > 0 && 0 <= j < |Kids(mem[x])| && Wf(mem, t, Kids(mem[x])[j], h - 1)
    ensures Kids(mem[x])[j] in mem && Fits(mem[Kids(mem[x])[j]], t, h - 1)
    ensures |Abs(mem, x, h).children| == |Kids(mem[x])|
    ensures |Abs(mem, x, h).children[j].items| == mem[Kids(mem[x])[j]].n
    ensures |Abs(mem, x, h).children[j].children| == mem[Kids(mem[x])[j]].c
  {
    ChildAbs(mem, x, h, j);
    Arity(mem, t, Kids(mem[x])[j], h - 1);
  }

  /** Child `j` of the value of a node is the value of its `j`-th live child. */
  lemma ChildAbs(mem: Mem, p: Ptr, h: nat, j: int)
    requires p in mem && h > 0 && 0 <= j < |Kids(mem[p])|
    ensures |Abs(mem, p, h).children| == |Kids(mem[p])|
    ensures Abs(mem, p, h).children[j] == Abs(mem, Kids(mem[p])[j], h - 1)
  {
  }

  /** Two snug siblings with room for each other and a separator have at most
      `2t+1` children together. */
  lemma SnugPair(ya: Tree, za: Tree, t: int)
    requires Snug(ya, t) && Snug(za, t) && |ya.items| + 1 + |za.items| <= 2 * t
    requires ya.children == [] <==> za.children == []
    ensures |ya.children| + |za.children| <= 2 * t + 1
  {
  }

  /** The value of a well-formed node has as many items and children as its
      record counts, and children exactly when it is internal. */
  lemma Arity(mem: Mem, t: int, p: Ptr, h: nat)
    requires Wf(mem, t, p, h)
    ensures |Abs(mem, p, h).items| == mem[p].n && |Abs(mem, p, h).children| == mem[p].c
    ensures Fits(mem[p], t, h) && (h == 0 <==> mem[p].c == 0)
  {
    Counts(mem, t, p, h);
  }

  /** `x` and its children `i` and `i+1` are among the addresses of `x`. */
  lemma PairIn(mem: Mem, t: int, x: Ptr, i: int, h: nat)
    requires h > 0 && Wf(mem, t, x, h) && 0 <= i && i + 1 < |Kids(mem[x])|
    ensures x in Reach(mem, x, h) && Kids(mem[x])[i] in Reach(mem, x, h) && Kids(mem[x])[i + 1] in Reach(mem, x, h)
    ensures Reach(mem, x, h) <= mem.Keys
  {
    ReachKeys(mem, t, x, h);
    KidReach(mem, t, x, h, i);
    KidReach(mem, t, x, h, i + 1);
    ReachSelf(mem, Kids(mem[x])[i], h - 1);
    ReachSelf(mem, Kids(mem[x])[i + 1], h - 1);
  }

  /** `node_child_merge(x, i)`: the item `i` of `x` and then all of the right
      child `z` are appended to the left child `y`; `z` leaves `x`, which
      closes the gaps in its children and items, and `z` is released. */
  method ChildMerge(heap: Heap, t: int, x: Ptr, i: int, ghost h: nat)
    requires heap.Valid() && h > 0 && Wf(heap.mem, t, x, h) && Mergeable(Abs(heap.mem, x, h), i, t)
    modifies heap
    ensures heap.Valid() && heap.next == old(heap.next)
    ensures heap.mem.Keys == old(heap.mem).Keys - {old(heap.mem[x].children[i + 1])}
    ensures Agree(old(heap.mem), heap.mem, old(heap.mem).Keys - old(Reach(heap.mem, x, h)))
    ensures Wf(heap.mem, t, x, h)
    ensures Abs(heap.mem, x, h) == Primitives.Merge(old(Abs(heap.mem, x, h)), i)
    ensures Reach(heap.mem, x, h) == old(Reach(heap.mem, x, h)) - {old(heap.mem[x].children[i + 1])}
    ensures i + 1 < |old(Kids(heap.mem[x]))|
    ensures Kids(heap.mem[x]) == old(Kids(heap.mem[x]))[..i + 1] + old(Kids(heap.mem[x]))[i + 2..]
  {
    ghost var mem := heap.mem;
    ghost var y0, z0 := MergeFacts(mem, t, x, i, h);
    var y := heap.mem[x].children[i];
    var z := heap.mem[x].children[i + 1];
    var xr, yr := Absorb(heap.mem[x], heap.mem[y], heap.mem[z], i, t, h);
    assert Absorbed(mem[x], mem[y], mem[z], xr, yr, i, t, h);
    Store(heap, y, yr);
    Store(heap, x, xr);
    Free(heap, z);
    MergeStore(mem, t, x, i, h, y, z, xr, yr);
  }

  /** The record moves of `node_child_merge`. */
  method Absorb(xr: NodeRec, yr: NodeRec, zr: NodeRec, i: int, t: int, ghost h: nat) returns (xr': NodeRec, yr': NodeRec)
    requires h > 0 && Fits(xr, t, h) && Fits(yr, t, h - 1) && Fits(zr, t, h - 1)
    requires xr.c == xr.n + 1 && xr.n <= 2 * t - 1 && 0 <= i < xr.n
    requires yr.n + 1 + zr.n <= 2 * t && yr.c + zr.c <= 2 * t + 1
    ensures Fits(xr', t, h) && Keys(xr') == Keys(xr)[..i] + Keys(xr)[i + 1..]
    ensures Kids(xr') == Kids(xr)[..i + 1] + Kids(xr)[i + 2..]
    ensures Fits(yr', t, h - 1) && Keys(yr') == Keys(yr) + [Keys(xr)[i]] + Keys(zr)
    ensures Kids(yr') == Kids(yr) + Kids(zr)
  {
    yr' := AppendSibling(yr, xr.items[i], zr, t, h - 1);
    xr' := CloseGap(xr, i, t, h);
  }

  /** `y` takes the item `k` and then the items and children of `z`. */
  method AppendSibling(yr: NodeRec, k: int, zr: NodeRec, t: int, ghost h: nat) returns (yr': NodeRec)
    requires Fits(yr, t, h) && Fits(zr, t, h) && yr.n + 1 + zr.n <= 2 * t && yr.c + zr.c <= 2 * t + 1
    ensures Fits(yr', t, h) && Keys(yr') == Keys(yr) + [k] + Keys(zr) && Kids(yr') == Kids(yr) + Kids(zr)
  {
    yr' := yr.(items := yr.items[yr.n := k], n := yr.n + 1);
    var its := Copy(yr'.items, yr'.n, zr.items, 0, zr.n);
    yr' := yr'.(items := its, n := yr'.n + zr.n);
    var cs := Copy(yr'.children, yr'.c, zr.children, 0, zr.c);
    yr' := yr'.(children := cs, c := yr'.c + zr.c);
    assert Keys(yr') == Keys(yr) + [k] + Keys(zr);
  }

  /** `x` loses its child `i+1` and its item `i`. */
  method CloseGap(xr: NodeRec, i: int, t: int, ghost h: nat) returns (xr': NodeRec)
    requires h > 0 && Fits(xr, t, h) && xr.c == xr.n + 1 && xr.n <= 2 * t - 1 && 0 <= i < xr.n
    ensures Fits(xr', t, h) && Keys(xr') == Keys(xr)[..i] + Keys(xr)[i + 1..]
    ensures Kids(xr') == Kids(xr)[..i + 1] + Kids(xr)[i + 2..]
  {
    var xc := ShiftDown(xr.children, i + 1, xr.c);
    xr' := xr.(children := xc, c := xr.c - 1);
    var xi := ShiftDown(xr.items, i, xr.n);
    xr' := xr'.(items := xi, n := xr.n - 1);
  }

  /** What `Absorb` computes from the records `rx`, `ry` and `rz`. */
  ghost predicate Absorbed(rx: NodeRec, ry: NodeRec, rz: NodeRec, xr: NodeRec, yr: NodeRec, i: int, t: int, h: nat)
  {
    h > 0 && 0 <= i < |Keys(rx)| && i + 1 < |Kids(rx)| &&
    Fits(xr, t, h) && Keys(xr) == Keys(rx)[..i] + Keys(rx)[i + 1..] && Kids(xr) == Kids(rx)[..i + 1] + Kids(rx)[i + 2..] &&
    Fits(yr, t, h - 1) && Keys(yr) == Keys(ry) + [Keys(rx)[i]] + Keys(rz) && Kids(yr) == Kids(ry) + Kids(rz)
  }

  /** The memory after the merge: the records of `y` and `x` rewritten and
      `z` released. */
  lemma MergeStore(mem: Mem, t: int, x: Ptr, i: int, h: nat, y: Ptr, z: Ptr, xr: NodeRec, yr: NodeRec)
    requires h > 0 && Wf(mem, t, x, h) && Mergeable(Abs(mem, x, h), i, t)
    requires x in mem && y == mem[x].children[i] && z == mem[x].children[i + 1] && y in mem && z in mem
    requires Absorbed(mem[x], mem[y], mem[z], xr, yr, i, t, h)
    ensures (mem[y := yr][x := xr] - {z}).Keys == mem.Keys - {z}
    ensures Agree(mem, mem[y := yr][x := xr] - {z}, mem.Keys - Reach(mem, x, h))
    ensures Wf(mem[y := yr][x := xr] - {z}, t, x, h)
    ensures Abs(mem[y := yr][x := xr] - {z}, x, h) == Primitives.Merge(Abs(mem, x, h), i)
    ensures Reach(mem[y := yr][x := xr] - {z}, x, h) == Reach(mem, x, h) - {z}
  {
    var m1 := mem[y := yr][x := xr];
    assert 0 <= i && i + 1 < |Kids(mem[x])| && y == Kids(mem[x])[i] && z == Kids(mem[x])[i + 1] by {
      var y0, z0 := MergeFacts(mem, t, x, i, h);
    }
    MergeRebuilt(mem, t, x, i, h, y, z, xr, yr);
    PairIn(mem, t, x, i, h);
    Released(m1, t, x, h, z);
    Rewritten(mem, yr, xr, x, y, z, Reach(mem, x, h));
  }

  /** Releasing an address outside a well-formed subtree keeps the subtree. */
  lemma Released(m: Mem, t: int, x: Ptr, h: nat, z: Ptr)
    requires Wf(m, t, x, h) && z !in Reach(m, x, h) && Reach(m, x, h) <= m.Keys
    ensures Wf(m - {z}, t, x, h) && Abs(m - {z}, x, h) == Abs(m, x, h) && Reach(m - {z}, x, h) == Reach(m, x, h)
  {
    Frame(m, m - {z}, t, x, h);
  }

  /** Rewriting `y` and `x` and releasing `z`, all three in `R`, keeps every
      record outside `R`. */
  lemma Rewritten(mem: Mem, yr: NodeRec, xr: NodeRec, x: Ptr, y: Ptr, z: Ptr, R: set<Ptr>)
    requires x in R && y in R && z in R && x in mem && y in mem
    ensures (mem[y := yr][x := xr] - {z}).Keys == mem.Keys - {z}
    ensures Agree(mem, mem[y := yr][x := xr] - {z}, mem.Keys - R)
  {
  }

  /** The memory after the merge, before `z` is released. */
  lemma MergeRebuilt(mem: Mem, t: int, x: Ptr, i: int, h: nat, y: Ptr, z: Ptr, xr: NodeRec, yr: NodeRec)
    requires h > 0 && Wf(mem, t, x, h) && Mergeable(Abs(mem, x, h), i, t)
    requires x in mem && y == mem[x].children[i] && z == mem[x].children[i + 1] && y in mem && z in mem
    requires Absorbed(mem[x], mem[y], mem[z], xr, yr, i, t, h)
    ensures Wf(mem[y := yr][x := xr], t, x, h)
    ensures Abs(mem[y := yr][x := xr], x, h) == Primitives.Merge(Abs(mem, x, h), i)
    ensures Reach(mem[y := yr][x := xr], x, h) == Reach(mem, x, h) - {z}
  {
    var m1 := mem[y := yr][x := xr];
    var ks := Kids(mem[x]);
    var y0, z0 := MergeFacts(mem, t, x, i, h);
    var C := Abs(mem, y, h - 1).children + Abs(mem, z, h - 1).children;
    Before(ks, i);
    FuseDone(mem, m1, t, x, i, h, y, z, C);
    MergeValue(mem, t, x, i, h, y, z, Keys(xr), Keys(yr));
  }

  /** A prefix of a sequence extended by one element. */
  lemma Before<T>(s: seq<T>, i: int)
    requires 0 <= i < |s|
    ensures s[..i + 1] == s[..i] + [s[i]]
  {
  }

  /** `Primitives.Merge` of the value of `x`, spelled out in its records. */
  lemma MergeValue(mem: Mem, t: int, x: Ptr, i: int, h: nat, y: Ptr, z: Ptr, xs: seq<int>, ys: seq<int>)
    requires h > 0 && x in mem && y in mem && z in mem && Mergeable(Abs(mem, x, h), i, t)
    requires i + 1 < |Kids(mem[x])| && y == Kids(mem[x])[i] && z == Kids(mem[x])[i + 1]
    requires xs == Keys(mem[x])[..i] + Keys(mem[x])[i + 1..] && ys == Keys(mem[y]) + [Keys(mem[x])[i]] + Keys(mem[z])
    ensures Primitives.Merge(Abs(mem, x, h), i) ==
            Node(xs, Abses(mem, Kids(mem[x]), h - 1)[..i] +
                     [Node(ys, Abs(mem, y, h - 1).children + Abs(mem, z, h - 1).children)] +
                     Abses(mem, Kids(mem[x]), h - 1)[i + 2..])
  {
    AbsOf(mem, x, h);
    var a := Abs(mem, x, h);
    assert a.children[i] == Abs(mem, y, h - 1) && a.children[i + 1] == Abs(mem, z, h - 1);
    assert Abs(mem, y, h - 1).items == Keys(mem[y]) && Abs(mem, z, h - 1).items == Keys(mem[z]);
  }
}
