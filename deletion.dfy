/**
 * `node_delete` of src/btree.c on the memory of module Memory: the scan for
 * the key, the removal from a leaf by moving the later items down one slot,
 * the walks of cases 2a and 2b, the merge of case 2c, the fix of case 3 and
 * the recursive call. It is proved to leave a well-formed subtree whose value
 * and return value are those of `Removal.Delete`, over the old addresses less
 * the ones it released.
 */
module Deletion {
  import opened Model
  import opened Memory
  import opened Surgery
  import opened Graft
  import opened Lookup
  import opened Removal
  import Insertion
  import Nodes
  import Rotations
  import Primitives

  // ---------------------------------------------------------------------
  // How a subtree's memory shrinks
  // ---------------------------------------------------------------------

  /** From `mem` to `mem'` only the addresses `R` of a subtree were
      rewritten or released, nothing was allocated, and the subtree's
      addresses are now `R'`: the old ones less the released ones. */
  ghost predicate Shrunk(mem: Mem, mem': Mem, R: set<Ptr>, R': set<Ptr>)
  {
    mem'.Keys <= mem.Keys && Agree(mem, mem', mem.Keys - R) &&
    mem.Keys - mem'.Keys <= R && R' == R - (mem.Keys - mem'.Keys)
  }

  /** Shrinking a subtree inside a bigger one shrinks the bigger one. */
  lemma ShrunkWithin(m1: Mem, m2: Mem, Rc: set<Ptr>, Rc': set<Ptr>, R: set<Ptr>)
    requires Shrunk(m1, m2, Rc, Rc') && Rc <= R
    ensures Shrunk(m1, m2, R, R - (m1.Keys - m2.Keys))
  {
    AgreeSub(m1, m2, m1.Keys - Rc, m1.Keys - R);
  }

  /** Two shrinkings one after the other. */
  lemma ShrunkTrans(m0: Mem, m1: Mem, m2: Mem, R0: set<Ptr>, R1: set<Ptr>, R2: set<Ptr>)
    requires Shrunk(m0, m1, R0, R1) && Shrunk(m1, m2, R1, R2)
    ensures Shrunk(m0, m2, R0, R2)
  {
    forall q | q in m0.Keys - R0 ensures q in m0 && q in m2 && m2[q] == m0[q] {
      assert q in m1.Keys - R1;
    }
  }

  /** The live child `j` of `x`, at `c`, has shrunk from `mem` to `mem'`
      and is well formed again. */
  ghost predicate Lifted(mem: Mem, mem': Mem, t: int, x: Ptr, h: nat, j: int, c: Ptr)
  {
    h > 0 && Wf(mem, t, x, h) && 0 <= j < |Kids(mem[x])| && c == Kids(mem[x])[j] &&
    Shrunk(mem, mem', Reach(mem, c, h - 1), Reach(mem', c, h - 1)) && Wf(mem', t, c, h - 1)
  }

  /** The node `x` after its live child `j`, at `c`, has shrunk: `x` is well
      formed again, with the new subtree as child `j`, and has shrunk by the
      same addresses. */
  lemma Ascent(mem: Mem, mem': Mem, t: int, x: Ptr, h: nat, j: int, c: Ptr)
    requires Lifted(mem, mem', t, x, h, j, c)
    ensures Wf(mem', t, x, h) && |Abs(mem, x, h).children| == |Kids(mem[x])|
    ensures Abs(mem', x, h) == Node(Abs(mem, x, h).items, Abs(mem, x, h).children[j := Abs(mem', c, h - 1)])
    ensures Shrunk(mem, mem', Reach(mem, x, h), Reach(mem', x, h))
  {
    AscentTree(mem, mem', t, x, h, j, c);
    AscentReach(mem, mem', t, x, h, j, c);
    KidReach(mem, t, x, h, j);
    ShrunkWithin(mem, mem', Reach(mem, c, h - 1), Reach(mem', c, h - 1), Reach(mem, x, h));
  }

  /** The value part of `Ascent`. */
  lemma AscentTree(mem: Mem, mem': Mem, t: int, x: Ptr, h: nat, j: int, c: Ptr)
    requires Lifted(mem, mem', t, x, h, j, c)
    ensures Wf(mem', t, x, h) && |Abs(mem, x, h).children| == |Kids(mem[x])|
    ensures Abs(mem', x, h) == Node(Abs(mem, x, h).items, Abs(mem, x, h).children[j := Abs(mem', c, h - 1)])
  {
    var ks := Kids(mem[x]);
    var ss := Reaches(mem, ks, h - 1);
    var cs := Abses(mem, ks, h - 1);
    var c' := Abs(mem', c, h - 1);
    assert Wf(mem', t, x, h) && Abs(mem', x, h) == Node(Keys(mem[x]), cs[..j] + [c'] + cs[j + 1..]) by {
      AscentSwap(mem, mem', t, x, h, j, c);
      Rebuild(mem, mem', t, x, h, ks, ss, j, j + 1, [c], {});
      assert Abses(mem', [c], h - 1) == [c'];
    }
    Insertion.Replace(cs, j, c');
    AbsOf(mem, x, h);
  }

  /** The address part of `Ascent`. */
  lemma AscentReach(mem: Mem, mem': Mem, t: int, x: Ptr, h: nat, j: int, c: Ptr)
    requires Lifted(mem, mem', t, x, h, j, c)
    ensures Reach(mem', x, h) == Reach(mem, x, h) - (mem.Keys - mem'.Keys)
  {
    var ks := Kids(mem[x]);
    var ss := Reaches(mem, ks, h - 1);
    var A := Union(ss[..j]);
    var B := Union(ss[j + 1..]);
    var S := ss[j];
    var S' := Reach(mem', c, h - 1);
    assert Reach(mem', x, h) == {x} + (A + S' + B) by {
      AscentSwap(mem, mem', t, x, h, j, c);
      Rebuild(mem, mem', t, x, h, ks, ss, j, j + 1, [c], {});
      assert Reaches(mem', [c], h - 1) == [S'];
      UnionOne(S');
    }
    assert Reach(mem, x, h) == {x} + (A + S + B) by {
      ReachOf(mem, t, x, h);
      UnionThree(ss, j, j + 1);
      assert ss[j..j + 1] == [S];
      UnionOne(S);
    }
    assert A + B !! S && x !in S by {
      ReachKeys(mem, t, x, h);
      Insertion.OneSets(ss, j, mem.Keys, {});
      KidReach(mem, t, x, h, j);
    }
    Sheds(x, A, S, S', mem.Keys - mem'.Keys, B, Reach(mem, x, h), Reach(mem', x, h));
  }

  /** The hypotheses of `Rebuild` for one shrunk child. */
  lemma AscentSwap(mem: Mem, mem': Mem, t: int, x: Ptr, h: nat, j: int, c: Ptr)
    requires h > 0 && Wf(mem, t, x, h) && 0 <= j < |Kids(mem[x])| && c == Kids(mem[x])[j]
    requires Shrunk(mem, mem', Reach(mem, c, h - 1), Reach(mem', c, h - 1)) && Wf(mem', t, c, h - 1)
    ensures Swap(mem, mem', t, Kids(mem[x]), Reaches(mem, Kids(mem[x]), h - 1), h - 1, j, j + 1, [c], {})
    ensures x !in Union(Reaches(mem, Kids(mem[x]), h - 1)) && x in mem' && mem'[x] == mem[x]
    ensures Rooted(mem', t, x, h, Kids(mem[x])[..j] + [c] + Kids(mem[x])[j + 1..])
  {
    var ks := Kids(mem[x]);
    var ss := Reaches(mem, ks, h - 1);
    WfForest(mem, t, x, h);
    ReachKeys(mem, t, x, h);
    ReachOf(mem, t, x, h);
    Insertion.OneSets(ss, j, mem.Keys, {});
    AgreeSub(mem, mem', mem.Keys - ss[j], Union(ss[..j]) + Union(ss[j + 1..]));
    Insertion.ForestOne(mem', t, c, h - 1);
    Insertion.KeptParent(mem, mem', t, x, h, j, c);
    Insertion.Whole(ks, j);
  }

  /** The set algebra behind `Ascent`: addresses released from the subtree
      of one child leave the parent's subtree by exactly those. */
  lemma Sheds(x: Ptr, A: set<Ptr>, S: set<Ptr>, S': set<Ptr>, D: set<Ptr>, B: set<Ptr>, R: set<Ptr>, R': set<Ptr>)
    requires R == {x} + (A + S + B) && R' == {x} + (A + S' + B)
    requires S' == S - D && D <= S && x !in S && A + B !! S
    ensures R' == R - D
  {
  }

  // ---------------------------------------------------------------------
  // The scans of one node
  // ---------------------------------------------------------------------

  /** The scan at the top of `node_delete`: `i` moves right while the key
      is greater than `items[i]`, and `last` keeps the last comparison. The
      node has an item, so at least one comparison is made. */
  method Scan(xr: NodeRec, k: int) returns (i: int, last: int)
    requires 1 <= xr.n <= |xr.items|
    ensures i == Seek(Keys(xr), k) && 0 <= i <= xr.n
    ensures i < xr.n ==> last == Cmp(k, xr.items[i]) && last <= 0
    ensures i == xr.n ==> last > 0
  {
    i := 0;
    last := Cmp(k, xr.items[0]);
    while i < xr.n && last > 0
      invariant 0 <= i <= xr.n
      invariant forall j :: 0 <= j < i ==> xr.items[j] < k
      invariant i < xr.n ==> last == Cmp(k, xr.items[i])
      invariant i == xr.n ==> last > 0
      decreases xr.n - i
    {
      i := i + 1;
      if i < xr.n {
        last := Cmp(k, xr.items[i]);
      }
    }
    ghost var ks := Keys(xr);
    assert forall j :: 0 <= j < i ==> ks[j] < k;
    assert i < |ks| ==> k <= ks[i];
  }

  /** The leaf case of `node_delete`: every item after slot `i` moves down
      one slot and the count drops by one. */
  method LeafDelete(xr: NodeRec, i: int) returns (xr': NodeRec)
    requires 0 <= i < xr.n <= |xr.items|
    ensures xr' == xr.(n := xr.n - 1, items := xr'.items) && |xr'.items| == |xr.items|
    ensures Keys(xr') == Cut(Keys(xr), i)
  {
    var items := xr.items;
    var j := i;
    while j + 1 < xr.n
      invariant i <= j < xr.n && |items| == |xr.items|
      invariant forall q :: 0 <= q < i ==> items[q] == xr.items[q]
      invariant forall q :: i <= q < j ==> items[q] == xr.items[q + 1]
      invariant forall q :: j <= q < |items| ==> items[q] == xr.items[q]
      decreases xr.n - j
    {
      items := items[j := items[j + 1]];
      j := j + 1;
    }
    xr' := xr.(n := xr.n - 1, items := items);
    assert Keys(xr') == Cut(Keys(xr), i) by {
      var a := Keys(xr');
      var b := Cut(Keys(xr), i);
      assert |a| == |b|;
      forall q | 0 <= q < |a| ensures a[q] == b[q] {
        if q < i {
          assert b[q] == xr.items[q];
        } else {
          assert b[q] == xr.items[q + 1];
        }
      }
    }
  }

  // ---------------------------------------------------------------------
  // The walks of cases 2a and 2b
  // ---------------------------------------------------------------------

  /** The walk of case 2a is at `p`, of height `g`, and ends where the
      walk from the child it started from does. */
  ghost predicate OnPath(mem: Mem, t: int, p: Ptr, g: nat, w: Outcome<int>)
  {
    Wf(mem, t, p, g) && WellFormed(Abs(mem, p, g)) && PredecessorWalk(Abs(mem, p, g)) == w && w.Ok?
  }

  /** The walk down the left spine is at `p`, of height `g`, and ends where
      the walk of case 2b does. */
  ghost predicate OnSpine(mem: Mem, t: int, p: Ptr, g: nat, w: Outcome<int>)
  {
    Wf(mem, t, p, g) && WellFormed(Abs(mem, p, g)) && LeftmostLast(Abs(mem, p, g)) == w && w.Ok?
  }

  /** The walk of case 2a: from `y`, follow `children[n-1]` down to a leaf
      and copy its last item. */
  method PredecessorLoop(mem: Mem, t: int, y: Ptr, ghost h: nat) returns (kk: int)
    requires Wf(mem, t, y, h) && WellFormed(Abs(mem, y, h)) && PredecessorWalk(Abs(mem, y, h)).Ok?
    ensures kk == PredecessorWalk(Abs(mem, y, h)).value
  {
    ghost var w := PredecessorWalk(Abs(mem, y, h));
    var tmp := y;
    ghost var g := h;
    while mem[tmp].children != []
      invariant OnPath(mem, t, tmp, g, w)
      decreases g
    {
      tmp, g := PredecessorStep(mem, t, tmp, g, w);
    }
    kk := WalkEnd(mem, t, tmp, g, w);
  }

  /** The walk of case 2b: from `z->children[0]`, follow `children[0]` down
      to a leaf and copy its last item. */
  method SuccessorLoop(mem: Mem, t: int, z: Ptr, ghost h: nat) returns (kk: int)
    requires Wf(mem, t, z, h) && WellFormed(Abs(mem, z, h)) && SuccessorWalk(Abs(mem, z, h)).Ok?
    ensures kk == SuccessorWalk(Abs(mem, z, h)).value
  {
    ghost var w := SuccessorWalk(Abs(mem, z, h));
    var tmp;
    ghost var g: nat;
    tmp, g := SpineEntry(mem, t, z, h, w);
    while mem[tmp].children != []
      invariant OnSpine(mem, t, tmp, g, w)
      decreases g
    {
      tmp, g := SpineStep(mem, t, tmp, g, w);
    }
    kk := SpineEnd(mem, t, tmp, g, w);
  }

  /** One step of case 2a's walk: child `n-1` is live, and the walk from it
      ends where the walk from its parent does. */
  method PredecessorStep(mem: Mem, t: int, p: Ptr, ghost g: nat, ghost w: Outcome<int>) returns (q: Ptr, ghost g': nat)
    requires OnPath(mem, t, p, g, w) && mem[p].children != []
    ensures 0 < mem[p].n < |mem[p].children| && q == mem[p].children[mem[p].n - 1]
    ensures OnPath(mem, t, q, g', w) && g' < g
  {
    Nodes.Arity(mem, t, p, g);
    Nodes.ChildAbs(mem, p, g, mem[p].n - 1);
    q := mem[p].children[mem[p].n - 1];
    g' := g - 1;
  }

  /** The walk down the left spine of case 2b enters `z`'s first child. */
  method SpineEntry(mem: Mem, t: int, z: Ptr, ghost h: nat, ghost w: Outcome<int>) returns (q: Ptr, ghost g': nat)
    requires Wf(mem, t, z, h) && WellFormed(Abs(mem, z, h)) && SuccessorWalk(Abs(mem, z, h)) == w && w.Ok?
    ensures 0 < |mem[z].children| && q == mem[z].children[0]
    ensures OnSpine(mem, t, q, g', w)
  {
    Nodes.Arity(mem, t, z, h);
    Nodes.ChildAbs(mem, z, h, 0);
    q := mem[z].children[0];
    g' := h - 1;
  }

  /** One step down `children[0]`. */
  method SpineStep(mem: Mem, t: int, p: Ptr, ghost g: nat, ghost w: Outcome<int>) returns (q: Ptr, ghost g': nat)
    requires OnSpine(mem, t, p, g, w) && mem[p].children != []
    ensures q == mem[p].children[0]
    ensures OnSpine(mem, t, q, g', w) && g' < g
  {
    Nodes.Arity(mem, t, p, g);
    Nodes.ChildAbs(mem, p, g, 0);
    q := mem[p].children[0];
    g' := g - 1;
  }

  /** Case 2a's walk ends at a leaf and copies its last live item. */
  method WalkEnd(mem: Mem, t: int, p: Ptr, ghost g: nat, ghost w: Outcome<int>) returns (kk: int)
    requires OnPath(mem, t, p, g, w) && mem[p].children == []
    ensures w == Ok(kk)
  {
    Nodes.Arity(mem, t, p, g);
    kk := mem[p].items[mem[p].n - 1];
  }

  /** The left spine ends at a leaf; its last live item is copied. */
  method SpineEnd(mem: Mem, t: int, p: Ptr, ghost g: nat, ghost w: Outcome<int>) returns (kk: int)
    requires OnSpine(mem, t, p, g, w) && mem[p].children == []
    ensures w == Ok(kk)
  {
    Nodes.Arity(mem, t, p, g);
    kk := mem[p].items[mem[p].n - 1];
  }

  // ---------------------------------------------------------------------
  // node_delete
  // ---------------------------------------------------------------------

  /** The subtree at `x`, of height `h`, is well formed, its value is one
      `node_delete` may be called on, and deleting `k` from it is defined. */
  ghost predicate Doable(mem: Mem, t: int, x: Ptr, h: nat, k: int)
  {
    Wf(mem, t, x, h) && Deletable(Abs(mem, x, h), t) && Delete(Abs(mem, x, h), k, t).Ok?
  }

  /** From `mem` to `mem'` the subtree at `x` has become the deletion of `k`
      from it, `r` is what `node_delete` returns, and only the subtree's own
      memory was rewritten or released. */
  ghost predicate Deleted(mem: Mem, mem': Mem, t: int, x: Ptr, h: nat, k: int, r: int)
  {
    Doable(mem, t, x, h, k) &&
    Wf(mem', t, x, h) && Abs(mem', x, h) == Delete(Abs(mem, x, h), k, t).value.tree &&
    r == Delete(Abs(mem, x, h), k, t).value.res &&
    Shrunk(mem, mem', Reach(mem, x, h), Reach(mem', x, h))
  }

  /** The state `node_delete` reaches before it recurses: from `mem` the
      subtree at `x` has been rebalanced or merged into `m`, and deleting
      `key` from its live child `j`, at `y`, gives the result for the whole
      subtree. */
  ghost predicate Poised(mem: Mem, m: Mem, t: int, x: Ptr, h: nat, k: int, j: int, y: Ptr, key: int)
  {
    Doable(mem, t, x, h, k) && h > 0 &&
    Wf(m, t, x, h) && Deletable(Abs(m, x, h), t) && Abs(m, x, h).children != [] &&
    0 <= j < |Abs(m, x, h).children| && 0 <= j < |Kids(m[x])| && y == Kids(m[x])[j] &&
    Within(Abs(m, x, h), j, key, t) == Delete(Abs(mem, x, h), k, t) &&
    Shrunk(mem, m, Reach(mem, x, h), Reach(m, x, h)) &&
    Doable(m, t, y, h - 1, key)
  }

  /** `node_delete(x, k)` on the subtree at `x`, of height `h`: the scan;
      at a leaf, the removal of the key's slot; in an internal node, case
      2 when the key is there and case 3 when it is not, each ending in the
      recursive call on one child. */
  method NodeDelete(heap: Heap, t: int, x: Ptr, k: int, ghost h: nat) returns (r: int)
    requires heap.Valid() && Doable(heap.mem, t, x, h, k)
    modifies heap
    decreases h, 1
    ensures heap.Valid() && Deleted(old(heap.mem), heap.mem, t, x, h, k, r)
  {
    ghost var m0 := heap.mem;
    Top(m0, t, x, h, k);
    var i, last := Scan(heap.mem[x], k);
    if last == 0 {
      if heap.mem[x].children == [] {
        Drop(heap, t, x, k, i, h);
        return 1;
      }
      assert AtKey(m0, t, x, h, k, i);
      var j, y, key := Found(heap, t, x, k, i, h);
      r := Descend(heap, t, x, k, j, y, key, h, m0);
    } else if heap.mem[x].children == [] {
      Missed(m0, t, x, h, k);
      return 0;
    } else {
      var ii := if last < 0 then i else if i < heap.mem[x].n then i + 1 else i;
      var j, y := Refill(heap, t, x, k, ii, h);
      r := Descend(heap, t, x, k, j, y, k, h, m0);
    }
  }

  /** The recursive call on child `j`, at `y`, with the key `key`; `mem`
      is the memory `node_delete(x, k)` started from. */
  method Descend(heap: Heap, t: int, x: Ptr, k: int, j: int, y: Ptr, key: int, ghost h: nat, ghost mem: Mem)
    returns (r: int)
    requires heap.Valid() && Poised(mem, heap.mem, t, x, h, k, j, y, key)
    modifies heap
    decreases h, 0
    ensures heap.Valid() && Deleted(mem, heap.mem, t, x, h, k, r)
  {
    ghost var m1 := heap.mem;
    r := NodeDelete(heap, t, y, key, h - 1);
    Settle(mem, m1, heap.mem, t, x, h, k, j, y, key, r);
  }

  /** The leaf case of `node_delete`: the items after the key move one
      slot left and `n` drops by one. */
  method Drop(heap: Heap, t: int, x: Ptr, k: int, i: int, ghost h: nat)
    requires heap.Valid() && Doable(heap.mem, t, x, h, k) && heap.mem[x].children == []
    requires i == Seek(Keys(heap.mem[x]), k) && 0 <= i < heap.mem[x].n <= |heap.mem[x].items|
    requires heap.mem[x].items[i] == k
    modifies heap
    ensures heap.Valid() && Deleted(old(heap.mem), heap.mem, t, x, h, k, 1)
  {
    ghost var m0 := heap.mem;
    var xr := LeafDelete(heap.mem[x], i);
    LeafGone(m0, t, x, h, k, i, xr);
    Store(heap, x, xr);
  }

  /** Case 3 up to the recursive call: the key is not in the internal node
      `x`; child `ii` is made to hold at least `t` items first. */
  method Refill(heap: Heap, t: int, x: Ptr, k: int, ii: int, ghost h: nat) returns (j: int, y: Ptr)
    requires heap.Valid() && Doable(heap.mem, t, x, h, k) && heap.mem[x].children != []
    requires ii == Seek(Keys(heap.mem[x]), k) && 0 <= heap.mem[x].n <= |heap.mem[x].items|
    requires !(ii < heap.mem[x].n && heap.mem[x].items[ii] == k)
    modifies heap
    ensures heap.Valid() && Poised(old(heap.mem), heap.mem, t, x, h, k, j, y, k)
  {
    ghost var m0 := heap.mem;
    Top(m0, t, x, h, k);
    Branch3(Abs(m0, x, h), k, t, ii);
    j, y := Rebalance(heap, t, x, ii, h);
    Moved(m0, heap.mem, t, x, h, k, j, y, k);
  }


  /** The key `k` is item `i` of the internal node `x`. */
  ghost predicate AtKey(mem: Mem, t: int, x: Ptr, h: nat, k: int, i: int)
  {
    Doable(mem, t, x, h, k) && mem[x].children != [] &&
    i == Seek(Keys(mem[x]), k) && 0 <= i < mem[x].n <= |mem[x].items| && mem[x].items[i] == k
  }

  /** Case 2 up to the recursive call, the key being item `i` of the
      internal node `x`: 2a and 2b copy the item their walk reaches and go
      on to delete it from child `i` or `i+1`; 2c merges the two children
      around the key and goes on into the merged child. */
  method Found(heap: Heap, t: int, x: Ptr, k: int, i: int, ghost h: nat) returns (j: int, y: Ptr, key: int)
    requires heap.Valid() && AtKey(heap.mem, t, x, h, k, i)
    modifies heap
    ensures heap.Valid() && Poised(old(heap.mem), heap.mem, t, x, h, k, j, y, key)
  {
    ghost var m0 := heap.mem;
    Top(m0, t, x, h, k);
    Kid(m0, t, x, h, i);
    Kid(m0, t, x, h, i + 1);
    var y0 := heap.mem[x].children[i];
    if heap.mem[y0].n >= t {
      key := Predecessor(heap.mem, t, x, k, i, y0, h);
      return i, y0, key;
    }
    var z := heap.mem[x].children[i + 1];
    if heap.mem[z].n >= t {
      key := Successor(heap.mem, t, x, k, i, z, h);
      return i + 1, z, key;
    }
    y := MergeAround(heap, t, x, k, i, h);
    return i, y, k;
  }

  /** Case 2a: the walk from child `i`, at `y`, down its last children. */
  method Predecessor(mem: Mem, t: int, x: Ptr, k: int, i: int, y: Ptr, ghost h: nat) returns (kk: int)
    requires AtKey(mem, t, x, h, k, i) && i < |Kids(mem[x])| && y == Kids(mem[x])[i]
    requires i < |Abs(mem, x, h).children| && |Abs(mem, x, h).children[i].items| >= t
    ensures Poised(mem, mem, t, x, h, k, i, y, kk)
  {
    PredecessorReady(mem, t, x, h, k, i, y);
    kk := PredecessorLoop(mem, t, y, h - 1);
    PredecessorPoised(mem, t, x, h, k, i, y, kk);
  }

  /** Case 2a may walk from child `i`. */
  lemma PredecessorReady(m: Mem, t: int, x: Ptr, h: nat, k: int, i: int, y: Ptr)
    requires AtKey(m, t, x, h, k, i) && i < |Kids(m[x])| && y == Kids(m[x])[i]
    requires i < |Abs(m, x, h).children| && |Abs(m, x, h).children[i].items| >= t
    ensures h > 0 && Wf(m, t, y, h - 1) && WellFormed(Abs(m, y, h - 1)) && PredecessorWalk(Abs(m, y, h - 1)).Ok?
  {
    Top(m, t, x, h, k);
    Kid(m, t, x, h, i);
    Branch2a(Abs(m, x, h), k, t, i);
  }

  /** Case 2a goes on with the item its walk reached. */
  lemma PredecessorPoised(m: Mem, t: int, x: Ptr, h: nat, k: int, i: int, y: Ptr, kk: int)
    requires AtKey(m, t, x, h, k, i) && i < |Kids(m[x])| && y == Kids(m[x])[i]
    requires i < |Abs(m, x, h).children| && |Abs(m, x, h).children[i].items| >= t
    requires h > 0 && WellFormed(Abs(m, y, h - 1)) && PredecessorWalk(Abs(m, y, h - 1)).Ok? && kk == PredecessorWalk(Abs(m, y, h - 1)).value
    ensures Poised(m, m, t, x, h, k, i, y, kk)
  {
    Top(m, t, x, h, k);
    Kid(m, t, x, h, i);
    Branch2a(Abs(m, x, h), k, t, i);
    Unmoved(m, Reach(m, x, h));
    Moved(m, m, t, x, h, k, i, y, kk);
  }

  /** Case 2b: the walk from child `i+1`, at `z`, down its first children. */
  method Successor(mem: Mem, t: int, x: Ptr, k: int, i: int, z: Ptr, ghost h: nat) returns (kk: int)
    requires AtKey(mem, t, x, h, k, i) && i + 1 < |Kids(mem[x])| && z == Kids(mem[x])[i + 1]
    requires i + 1 < |Abs(mem, x, h).children|
    requires |Abs(mem, x, h).children[i].items| < t && |Abs(mem, x, h).children[i + 1].items| >= t
    ensures Poised(mem, mem, t, x, h, k, i + 1, z, kk)
  {
    SuccessorReady(mem, t, x, h, k, i, z);
    kk := SuccessorLoop(mem, t, z, h - 1);
    SuccessorPoised(mem, t, x, h, k, i, z, kk);
  }

  /** Case 2b may walk from child `i+1`. */
  lemma SuccessorReady(m: Mem, t: int, x: Ptr, h: nat, k: int, i: int, z: Ptr)
    requires AtKey(m, t, x, h, k, i) && i + 1 < |Kids(m[x])| && z == Kids(m[x])[i + 1]
    requires i + 1 < |Abs(m, x, h).children|
    requires |Abs(m, x, h).children[i].items| < t && |Abs(m, x, h).children[i + 1].items| >= t
    ensures h > 0 && Wf(m, t, z, h - 1) && WellFormed(Abs(m, z, h - 1)) && SuccessorWalk(Abs(m, z, h - 1)).Ok?
  {
    Top(m, t, x, h, k);
    Kid(m, t, x, h, i + 1);
    Branch2b(Abs(m, x, h), k, t, i);
  }

  /** Case 2b goes on with the item its walk reached. */
  lemma SuccessorPoised(m: Mem, t: int, x: Ptr, h: nat, k: int, i: int, z: Ptr, kk: int)
    requires AtKey(m, t, x, h, k, i) && i + 1 < |Kids(m[x])| && z == Kids(m[x])[i + 1]
    requires i + 1 < |Abs(m, x, h).children|
    requires |Abs(m, x, h).children[i].items| < t && |Abs(m, x, h).children[i + 1].items| >= t
    requires h > 0 && WellFormed(Abs(m, z, h - 1)) && SuccessorWalk(Abs(m, z, h - 1)).Ok? && kk == SuccessorWalk(Abs(m, z, h - 1)).value
    ensures Poised(m, m, t, x, h, k, i + 1, z, kk)
  {
    Top(m, t, x, h, k);
    Kid(m, t, x, h, i + 1);
    Branch2b(Abs(m, x, h), k, t, i);
    Unmoved(m, Reach(m, x, h));
    Moved(m, m, t, x, h, k, i + 1, z, kk);
  }

  /** Case 2c: `node_child_merge(x, i)`, the descent going on into child
      `i`, read again from `x`. */
  method MergeAround(heap: Heap, t: int, x: Ptr, k: int, i: int, ghost h: nat) returns (y: Ptr)
    requires heap.Valid() && AtKey(heap.mem, t, x, h, k, i)
    requires i + 1 < |Abs(heap.mem, x, h).children|
    requires |Abs(heap.mem, x, h).children[i].items| < t && |Abs(heap.mem, x, h).children[i + 1].items| < t
    modifies heap
    ensures heap.Valid() && Poised(old(heap.mem), heap.mem, t, x, h, k, i, y, k)
  {
    ghost var m0 := heap.mem;
    Top(m0, t, x, h, k);
    Kid(m0, t, x, h, i + 1);
    Branch2c(Abs(m0, x, h), k, t, i);
    Nodes.PairIn(m0, t, x, i, h);
    Nodes.ChildMerge(heap, t, x, i, h);
    MergeShrunk(m0, heap.mem, Reach(m0, x, h), Reach(heap.mem, x, h), m0[x].children[i + 1]);
    Kid(heap.mem, t, x, h, i);
    y := heap.mem[x].children[i];
    Moved(m0, heap.mem, t, x, h, k, i, y, k);
  }

  /** Case 3's fix before the descent into child `ii`: when that child has
      fewer than `t` items, borrow from the left sibling, else from the
      right one, else merge with the left sibling, else with the right one;
      a node with a single child is left as it is. */
  method Rebalance(heap: Heap, t: int, x: Ptr, ii: int, ghost h: nat) returns (j: int, y: Ptr)
    requires heap.Valid() && Wf(heap.mem, t, x, h) && Deletable(Abs(heap.mem, x, h), t)
    requires heap.mem[x].children != [] && 0 <= ii <= |Abs(heap.mem, x, h).items|
    modifies heap
    ensures heap.Valid() && Refitted(old(heap.mem), heap.mem, t, x, h, ii, j, y)
  {
    ghost var m0 := heap.mem;
    ghost var a := Abs(m0, x, h);
    Shape(m0, t, x, h);
    Kid(m0, t, x, h, ii);
    y := heap.mem[x].children[ii];
    j := ii;
    if heap.mem[y].n >= t {
      Unfixed(m0, t, x, h, ii, y);
      return;
    }
    if ii > 0 {
      Kid(m0, t, x, h, ii - 1);
    }
    if ii < heap.mem[x].c - 1 {
      Kid(m0, t, x, h, ii + 1);
    }
    if ii > 0 && heap.mem[heap.mem[x].children[ii - 1]].n >= t {
      TakeLeft(heap, t, x, ii, y, h);
    } else if ii < heap.mem[x].c - 1 && heap.mem[heap.mem[x].children[ii + 1]].n >= t {
      TakeRight(heap, t, x, ii, y, h);
    } else if ii > 0 {
      j, y := JoinLeft(heap, t, x, ii, y, h);
    } else if ii < heap.mem[x].c - 1 {
      JoinRight(heap, t, x, ii, y, h);
    } else {
      // "Cannot merge!" is reported and nothing changes.
      Unfixed(m0, t, x, h, ii, y);
    }
  }

  /** Child `ii` of `x` has fewer than `t` items and is at `y`. */
  ghost predicate Short(mem: Mem, t: int, x: Ptr, h: nat, ii: int, y: Ptr)
  {
    Wf(mem, t, x, h) && Deletable(Abs(mem, x, h), t) && Abs(mem, x, h).children != [] &&
    0 <= ii <= |Abs(mem, x, h).items| && ii < |Kids(mem[x])| && y == Kids(mem[x])[ii] &&
    |Abs(mem, x, h).children[ii].items| < t
  }

  /** `node_shift_right(x, ii-1)`: the left sibling lends its last item. */
  method TakeLeft(heap: Heap, t: int, x: Ptr, ii: int, y: Ptr, ghost h: nat)
    requires heap.Valid() && Short(heap.mem, t, x, h, ii, y)
    requires ii > 0 && |Abs(heap.mem, x, h).children[ii - 1].items| >= t
    modifies heap
    ensures heap.Valid() && Refitted(old(heap.mem), heap.mem, t, x, h, ii, ii, y)
  {
    ghost var m0 := heap.mem;
    ghost var a := Abs(m0, x, h);
    BorrowLeft(a, ii, t);
    Adjacent(a, ii - 1, t);
    Kid(m0, t, x, h, ii);
    Rotations.ShiftRight(heap, t, x, ii - 1, h);
    FromLeft(m0, heap.mem, t, x, h, ii, y);
  }

  /** `node_shift_left(x, ii)`: the right sibling lends its first item. */
  method TakeRight(heap: Heap, t: int, x: Ptr, ii: int, y: Ptr, ghost h: nat)
    requires heap.Valid() && Short(heap.mem, t, x, h, ii, y)
    requires ii < |Abs(heap.mem, x, h).items| && |Abs(heap.mem, x, h).children[ii + 1].items| >= t
    requires !(ii > 0 && |Abs(heap.mem, x, h).children[ii - 1].items| >= t)
    modifies heap
    ensures heap.Valid() && Refitted(old(heap.mem), heap.mem, t, x, h, ii, ii, y)
  {
    ghost var m0 := heap.mem;
    ghost var a := Abs(m0, x, h);
    Adjacent(a, ii, t);
    Kid(m0, t, x, h, ii);
    Rotations.ShiftLeft(heap, t, x, ii, h);
    FromRight(m0, heap.mem, t, x, h, ii, y);
  }

  /** `node_child_merge(x, ii-1)`, the descent going on into the merged
      left sibling, read again from `x`. */
  method JoinLeft(heap: Heap, t: int, x: Ptr, ii: int, y0: Ptr, ghost h: nat) returns (j: int, y: Ptr)
    requires heap.Valid() && Short(heap.mem, t, x, h, ii, y0)
    requires ii > 0 && |Abs(heap.mem, x, h).children[ii - 1].items| < t
    requires !(ii < |Abs(heap.mem, x, h).items| && |Abs(heap.mem, x, h).children[ii + 1].items| >= t)
    modifies heap
    ensures heap.Valid() && Refitted(old(heap.mem), heap.mem, t, x, h, ii, j, y)
  {
    ghost var m0 := heap.mem;
    Adjacent(Abs(m0, x, h), ii - 1, t);
    Nodes.PairIn(m0, t, x, ii - 1, h);
    Kid(m0, t, x, h, ii);
    Nodes.ChildMerge(heap, t, x, ii - 1, h);
    MergeShrunk(m0, heap.mem, Reach(m0, x, h), Reach(heap.mem, x, h), m0[x].children[ii]);
    Kid(heap.mem, t, x, h, ii - 1);
    j := ii - 1;
    y := heap.mem[x].children[ii - 1];
    MergedLeft(m0, heap.mem, t, x, h, ii, y);
  }

  /** `node_child_merge(x, ii)`: the right sibling merged into child `ii`,
      which stays at `y`. */
  method JoinRight(heap: Heap, t: int, x: Ptr, ii: int, y: Ptr, ghost h: nat)
    requires heap.Valid() && Short(heap.mem, t, x, h, ii, y)
    requires ii == 0 < |Abs(heap.mem, x, h).items| && |Abs(heap.mem, x, h).children[ii + 1].items| < t
    modifies heap
    ensures heap.Valid() && Refitted(old(heap.mem), heap.mem, t, x, h, ii, ii, y)
  {
    ghost var m0 := heap.mem;
    Adjacent(Abs(m0, x, h), ii, t);
    Nodes.PairIn(m0, t, x, ii, h);
    Kid(m0, t, x, h, ii + 1);
    Nodes.ChildMerge(heap, t, x, ii, h);
    MergeShrunk(m0, heap.mem, Reach(m0, x, h), Reach(heap.mem, x, h), m0[x].children[ii + 1]);
    MergedRight(m0, heap.mem, t, x, h, ii, y);
  }

  // ---------------------------------------------------------------------
  // Facts for node_delete
  // ---------------------------------------------------------------------

  /** The case 3 fix as it acts on the memory: `x` now holds the fixed
      node, `j` is the child the fix names and `y` its address, and only
      the subtree's own memory was rewritten or released. */
  ghost predicate Refitted(mem: Mem, m: Mem, t: int, x: Ptr, h: nat, ii: int, j: int, y: Ptr)
  {
    Wf(mem, t, x, h) && Deletable(Abs(mem, x, h), t) && Abs(mem, x, h).children != [] &&
    0 <= ii <= |Abs(mem, x, h).items| &&
    Wf(m, t, x, h) && Abs(m, x, h) == Fix(Abs(mem, x, h), ii, t).0 && j == Fix(Abs(mem, x, h), ii, t).1 &&
    0 <= j < |Kids(m[x])| && y == Kids(m[x])[j] &&
    Shrunk(mem, m, Reach(mem, x, h), Reach(m, x, h))
  }

  /** The record of a well-formed node read the way its value is. */
  lemma Shape(mem: Mem, t: int, x: Ptr, h: nat)
    requires Wf(mem, t, x, h) && WellFormed(Abs(mem, x, h))
    ensures x in mem && 0 <= mem[x].n <= |mem[x].items| && Keys(mem[x]) == Abs(mem, x, h).items
    ensures |Kids(mem[x])| == mem[x].c == |Abs(mem, x, h).children|
    ensures (mem[x].children == []) == (h == 0) && (h == 0) == (Abs(mem, x, h).children == [])
    ensures mem[x].children != [] ==> mem[x].c == mem[x].n + 1 <= |mem[x].children|
  {
    Nodes.Arity(mem, t, x, h);
  }

  /** A node `node_delete` is defined on has an item to scan. */
  lemma Top(mem: Mem, t: int, x: Ptr, h: nat, k: int)
    requires Doable(mem, t, x, h, k)
    ensures 1 <= mem[x].n <= |mem[x].items| && Keys(mem[x]) == Abs(mem, x, h).items
    ensures |Kids(mem[x])| == mem[x].c == |Abs(mem, x, h).children|
    ensures (mem[x].children == []) == (h == 0) && (h == 0) == (Abs(mem, x, h).children == [])
    ensures mem[x].children != [] ==> mem[x].c == mem[x].n + 1 <= |mem[x].children|
  {
    Shape(mem, t, x, h);
  }

  /** The live child `j` of `x` read through the record. */
  lemma Kid(mem: Mem, t: int, x: Ptr, h: nat, j: int)
    requires Wf(mem, t, x, h) && 0 <= j < |Kids(mem[x])|
    ensures h > 0 && j < |mem[x].children| && mem[x].children[j] == Kids(mem[x])[j]
    ensures Wf(mem, t, mem[x].children[j], h - 1) && mem[x].children[j] in mem
    ensures j < |Abs(mem, x, h).children| && Abs(mem, mem[x].children[j], h - 1) == Abs(mem, x, h).children[j]
    ensures mem[mem[x].children[j]].n == |Abs(mem, x, h).children[j].items|
  {
    Nodes.Arity(mem, t, x, h);
    var p := Nodes.KidRecord(mem, t, x, h, j);
    assert Wf(mem, t, p, h - 1);
    Nodes.ChildAbs(mem, x, h, j);
  }

  /** Two neighbouring children of a node `node_delete` may be called on
      can lend to each other, and be merged when both are short. */
  lemma Adjacent(a: Tree, i: int, t: int)
    requires Deletable(a, t) && a.children != [] && 0 <= i < |a.items|
    ensures Rotations.Rotatable(a, i, t)
    ensures |a.children[i].items| < t && |a.children[i + 1].items| < t ==> Nodes.Mergeable(a, i, t)
  {
    Primitives.SiblingsAlike(a, i, i + 1);
    assert WellFormed(a.children[i]) && WellFormed(a.children[i + 1]);
    assert Capped(a.children[i], t) && Capped(a.children[i + 1], t);
  }

  /** Nothing released. */
  lemma Unmoved(mem: Mem, R: set<Ptr>)
    ensures Shrunk(mem, mem, R, R)
  {
  }

  /** A merge releases one address of the subtree. */
  lemma MergeShrunk(mem: Mem, m: Mem, R: set<Ptr>, R': set<Ptr>, z: Ptr)
    requires z in R && z in mem && m.Keys == mem.Keys - {z}
    requires Agree(mem, m, mem.Keys - R) && R' == R - {z}
    ensures Shrunk(mem, m, R, R')
  {
    assert mem.Keys - m.Keys == {z};
  }

  /** The leaf case: the item's slot closed up. */
  lemma LeafGone(mem: Mem, t: int, x: Ptr, h: nat, k: int, i: int, xr: NodeRec)
    requires Doable(mem, t, x, h, k) && mem[x].children == []
    requires i == Seek(Keys(mem[x]), k) && 0 <= i < mem[x].n <= |mem[x].items| && mem[x].items[i] == k
    requires xr == mem[x].(n := mem[x].n - 1, items := xr.items) && |xr.items| == |mem[x].items|
    requires Keys(xr) == Cut(Keys(mem[x]), i)
    ensures Deleted(mem, mem[x := xr], t, x, h, k, 1)
  {
    Shape(mem, t, x, h);
  }

  /** A key absent from a leaf: nothing changes and 0 is returned. */
  lemma Missed(mem: Mem, t: int, x: Ptr, h: nat, k: int)
    requires Doable(mem, t, x, h, k) && mem[x].children == []
    requires !(Seek(Keys(mem[x]), k) < mem[x].n && mem[x].items[Seek(Keys(mem[x]), k)] == k)
    ensures Deleted(mem, mem, t, x, h, k, 0)
  {
    Shape(mem, t, x, h);
  }

  /** Case 2a: the walk from child `i` is defined and the deletion goes on
      with the item it reaches in that child. */
  lemma Branch2a(a: Tree, k: int, t: int, i: int)
    requires Deletable(a, t) && Delete(a, k, t).Ok? && a.children != []
    requires i == Seek(a.items, k) && i < |a.items| && a.items[i] == k
    requires |a.children[i].items| >= t
    ensures WellFormed(a.children[i]) && PredecessorWalk(a.children[i]).Ok?
    ensures Within(a, i, PredecessorWalk(a.children[i]).value, t) == Delete(a, k, t)
  {
    ChildDeletable(a, i, t);
  }

  /** Case 2b: the same with the walk from child `i+1`. */
  lemma Branch2b(a: Tree, k: int, t: int, i: int)
    requires Deletable(a, t) && Delete(a, k, t).Ok? && a.children != []
    requires i == Seek(a.items, k) && i < |a.items| && a.items[i] == k
    requires |a.children[i].items| < t && |a.children[i + 1].items| >= t
    ensures WellFormed(a.children[i + 1]) && SuccessorWalk(a.children[i + 1]).Ok?
    ensures Within(a, i + 1, SuccessorWalk(a.children[i + 1]).value, t) == Delete(a, k, t)
  {
    ChildDeletable(a, i + 1, t);
  }

  /** Case 2c: the two children around the key can be merged and the
      deletion goes on in the merged child. */
  lemma Branch2c(a: Tree, k: int, t: int, i: int)
    requires Deletable(a, t) && Delete(a, k, t).Ok? && a.children != []
    requires i == Seek(a.items, k) && i < |a.items| && a.items[i] == k
    requires |a.children[i].items| < t && |a.children[i + 1].items| < t
    ensures Nodes.Mergeable(a, i, t)
    ensures Deletable(Primitives.Merge(a, i), t) && Primitives.Merge(a, i).children != []
    ensures i < |Primitives.Merge(a, i).children|
    ensures Within(Primitives.Merge(a, i), i, k, t) == Delete(a, k, t)
  {
    Adjacent(a, i, t);
    MergeDeletable(a, i, t);
  }

  /** Case 3: the deletion goes on in the child the fix names. */
  lemma Branch3(a: Tree, k: int, t: int, ii: int)
    requires Deletable(a, t) && Delete(a, k, t).Ok? && a.children != []
    requires ii == Seek(a.items, k) && !(ii < |a.items| && a.items[ii] == k)
    ensures 0 <= ii <= |a.items| && Refit(a, Fix(a, ii, t).0, Fix(a, ii, t).1, t)
    ensures Within(Fix(a, ii, t).0, Fix(a, ii, t).1, k, t) == Delete(a, k, t)
  {
    FixDeletable(a, ii, t);
  }

  /** The state before the recursive call, from what each branch set up. */
  lemma Moved(mem: Mem, m: Mem, t: int, x: Ptr, h: nat, k: int, j: int, y: Ptr, key: int)
    requires Doable(mem, t, x, h, k) && h > 0
    requires Wf(m, t, x, h) && Deletable(Abs(m, x, h), t) && Abs(m, x, h).children != []
    requires 0 <= j < |Abs(m, x, h).children|
    requires Within(Abs(m, x, h), j, key, t) == Delete(Abs(mem, x, h), k, t)
    requires Shrunk(mem, m, Reach(mem, x, h), Reach(m, x, h))
    requires j < |Kids(m[x])| && y == Kids(m[x])[j]
    ensures Poised(mem, m, t, x, h, k, j, y, key)
  {
    Nodes.ChildAbs(m, x, h, j);
    ChildDeletable(Abs(m, x, h), j, t);
    assert Wf(m, t, Kids(m[x])[j], h - 1);
  }

  /** The recursive call's result put back: the whole subtree is the
      deletion from it. */
  lemma Settle(mem: Mem, m1: Mem, m2: Mem, t: int, x: Ptr, h: nat, k: int, j: int, y: Ptr, key: int, r: int)
    requires Poised(mem, m1, t, x, h, k, j, y, key) && Deleted(m1, m2, t, y, h - 1, key, r)
    ensures Deleted(mem, m2, t, x, h, k, r)
  {
    Nodes.ChildAbs(m1, x, h, j);
    Ascent(m1, m2, t, x, h, j, y);
    ShrunkTrans(mem, m1, m2, Reach(mem, x, h), Reach(m1, x, h), Reach(m2, x, h));
  }

  /** No fix: the child has enough items, or it has no sibling. */
  lemma Unfixed(mem: Mem, t: int, x: Ptr, h: nat, ii: int, y: Ptr)
    requires Wf(mem, t, x, h) && Deletable(Abs(mem, x, h), t) && Abs(mem, x, h).children != []
    requires 0 <= ii <= |Abs(mem, x, h).items|
    requires |Abs(mem, x, h).children[ii].items| >= t || |Abs(mem, x, h).children| == 1
    requires ii < |Kids(mem[x])| && y == Kids(mem[x])[ii]
    ensures Refitted(mem, mem, t, x, h, ii, ii, y)
  {
  }

  /** The fix borrowed from the left sibling. */
  lemma FromLeft(mem: Mem, m: Mem, t: int, x: Ptr, h: nat, ii: int, y: Ptr)
    requires Wf(mem, t, x, h) && Deletable(Abs(mem, x, h), t) && Abs(mem, x, h).children != []
    requires 0 < ii <= |Abs(mem, x, h).items|
    requires |Abs(mem, x, h).children[ii].items| < t && |Abs(mem, x, h).children[ii - 1].items| >= t
    requires Wf(m, t, x, h) && Abs(m, x, h) == Primitives.ShiftRight(Abs(mem, x, h), ii - 1)
    requires m.Keys == mem.Keys && Agree(mem, m, mem.Keys - Reach(mem, x, h)) && Reach(m, x, h) == Reach(mem, x, h)
    requires Kids(m[x]) == Kids(mem[x]) && ii < |Kids(mem[x])| && y == Kids(mem[x])[ii]
    ensures Refitted(mem, m, t, x, h, ii, ii, y)
  {
  }

  /** The fix borrowed from the right sibling. */
  lemma FromRight(mem: Mem, m: Mem, t: int, x: Ptr, h: nat, ii: int, y: Ptr)
    requires Wf(mem, t, x, h) && Deletable(Abs(mem, x, h), t) && Abs(mem, x, h).children != []
    requires 0 <= ii < |Abs(mem, x, h).items|
    requires |Abs(mem, x, h).children[ii].items| < t && |Abs(mem, x, h).children[ii + 1].items| >= t
    requires !(ii > 0 && |Abs(mem, x, h).children[ii - 1].items| >= t)
    requires Wf(m, t, x, h) && Abs(m, x, h) == Primitives.ShiftLeft(Abs(mem, x, h), ii)
    requires m.Keys == mem.Keys && Agree(mem, m, mem.Keys - Reach(mem, x, h)) && Reach(m, x, h) == Reach(mem, x, h)
    requires Kids(m[x]) == Kids(mem[x]) && ii < |Kids(mem[x])| && y == Kids(mem[x])[ii]
    ensures Refitted(mem, m, t, x, h, ii, ii, y)
  {
  }

  /** The fix merged the child into its left sibling. */
  lemma MergedLeft(mem: Mem, m: Mem, t: int, x: Ptr, h: nat, ii: int, y: Ptr)
    requires Wf(mem, t, x, h) && Deletable(Abs(mem, x, h), t) && Abs(mem, x, h).children != []
    requires 0 < ii <= |Abs(mem, x, h).items|
    requires |Abs(mem, x, h).children[ii].items| < t && |Abs(mem, x, h).children[ii - 1].items| < t
    requires !(ii < |Abs(mem, x, h).items| && |Abs(mem, x, h).children[ii + 1].items| >= t)
    requires Wf(m, t, x, h) && Abs(m, x, h) == Primitives.Merge(Abs(mem, x, h), ii - 1)
    requires Shrunk(mem, m, Reach(mem, x, h), Reach(m, x, h))
    requires ii - 1 < |Kids(m[x])| && y == Kids(m[x])[ii - 1]
    ensures Refitted(mem, m, t, x, h, ii, ii - 1, y)
  {
  }

  /** The fix merged the right sibling into the child. */
  lemma MergedRight(mem: Mem, m: Mem, t: int, x: Ptr, h: nat, ii: int, y: Ptr)
    requires Wf(mem, t, x, h) && Deletable(Abs(mem, x, h), t) && Abs(mem, x, h).children != []
    requires ii == 0 < |Abs(mem, x, h).items|
    requires |Abs(mem, x, h).children[ii].items| < t && |Abs(mem, x, h).children[ii + 1].items| < t
    requires Wf(m, t, x, h) && Abs(m, x, h) == Primitives.Merge(Abs(mem, x, h), ii)
    requires Shrunk(mem, m, Reach(mem, x, h), Reach(m, x, h))
    requires ii < |Kids(m[x])| && y == Kids(m[x])[ii]
    ensures Refitted(mem, m, t, x, h, ii, ii, y)
  {
  }
}
