/**
 * `node_insert_nonfull` and `node_insert` of src/btree.c on the memory of
 * module Memory: the two scans of a node's items from the right, the descent
 * that splits full children on the way down, and the root split. Each is
 * proved to leave a well-formed subtree whose value is the function of the
 * same name in module Growth.
 */
module Insertion {
  import opened Model
  import opened Memory
  import opened Surgery
  import opened Graft
  import opened Growth
  import Nodes
  import Siblings
  import Primitives

  // ---------------------------------------------------------------------
  // How a subtree's memory grows
  // ---------------------------------------------------------------------

  /** From `mem` to `mem'` only the addresses `R` of a subtree were
      rewritten, no address was released, and the subtree's addresses are
      now `R'`: the old ones and the newly allocated ones. */
  ghost predicate Grown(mem: Mem, mem': Mem, R: set<Ptr>, R': set<Ptr>)
  {
    mem.Keys <= mem'.Keys && Agree(mem, mem', mem.Keys - R) && R' == R + (mem'.Keys - mem.Keys)
  }

  /** Growing a subtree inside a bigger one grows the bigger one. */
  lemma GrownWithin(m1: Mem, m2: Mem, Rc: set<Ptr>, Rc': set<Ptr>, R: set<Ptr>)
    requires Grown(m1, m2, Rc, Rc') && Rc <= R
    ensures Grown(m1, m2, R, R + (m2.Keys - m1.Keys))
  {
    AgreeSub(m1, m2, m1.Keys - Rc, m1.Keys - R);
  }

  /** Two growths one after the other. */
  lemma GrownTrans(m0: Mem, m1: Mem, m2: Mem, R0: set<Ptr>, R1: set<Ptr>, R2: set<Ptr>)
    requires Grown(m0, m1, R0, R1) && Grown(m1, m2, R1, R2)
    ensures Grown(m0, m2, R0, R2)
  {
    forall q | q in m0.Keys - R0 ensures q in m0 && q in m2 && m2[q] == m0[q] {
      assert q in m1.Keys - R1;
    }
  }

  /** A split under `x` grows the subtree at `x` by the fresh right half. */
  lemma SplitGrown(mem: Mem, mem': Mem, R: set<Ptr>, R': set<Ptr>, z: Ptr)
    requires z !in mem && mem'.Keys == mem.Keys + {z} && R' == R + {z}
    requires Agree(mem, mem', mem.Keys - R)
    ensures Grown(mem, mem', R, R')
  {
    assert mem'.Keys - mem.Keys == {z};
  }

  // ---------------------------------------------------------------------
  // A child rewritten below its parent
  // ---------------------------------------------------------------------

  /** The node `x` after its live child `j`, at `c`, has grown: `x` is well
      formed again, with the new subtree as child `j`, and has grown by the
      same addresses. */
  lemma Descent(mem: Mem, mem': Mem, t: int, x: Ptr, h: nat, j: int, c: Ptr)
    requires h > 0 && Wf(mem, t, x, h) && 0 <= j < |Kids(mem[x])| && c == Kids(mem[x])[j]
    requires Grown(mem, mem', Reach(mem, c, h - 1), Reach(mem', c, h - 1)) && Wf(mem', t, c, h - 1)
    ensures Wf(mem', t, x, h) && |Abs(mem, x, h).children| == |Kids(mem[x])|
    ensures Abs(mem', x, h) == Node(Abs(mem, x, h).items, Abs(mem, x, h).children[j := Abs(mem', c, h - 1)])
    ensures Reach(mem', x, h) == Reach(mem, x, h) + (mem'.Keys - mem.Keys)
    ensures Reach(mem, c, h - 1) <= Reach(mem, x, h)
  {
    var ks := Kids(mem[x]);
    var ss := Reaches(mem, ks, h - 1);
    var extra := mem'.Keys - mem.Keys;
    DescentSwap(mem, mem', t, x, h, j, c);
    Rebuild(mem, mem', t, x, h, ks, ss, j, j + 1, [c], extra);
    assert ss[j..j + 1] == [ss[j]] && Reaches(mem', [c], h - 1) == [Reach(mem', c, h - 1)];
    UnionOne(ss[j]);
    UnionOne(Reach(mem', c, h - 1));
    ReachOf(mem, t, x, h);
    Grows(x, Union(ss[..j]), ss[j], extra, Union(ss[j + 1..]));
    assert Abses(mem', [c], h - 1) == [Abs(mem', c, h - 1)];
    Replace(Abses(mem, ks, h - 1), j, Abs(mem', c, h - 1));
    KidReach(mem, t, x, h, j);
  }

  /** The hypotheses of `Rebuild` for one grown child. */
  lemma DescentSwap(mem: Mem, mem': Mem, t: int, x: Ptr, h: nat, j: int, c: Ptr)
    requires h > 0 && Wf(mem, t, x, h) && 0 <= j < |Kids(mem[x])| && c == Kids(mem[x])[j]
    requires Grown(mem, mem', Reach(mem, c, h - 1), Reach(mem', c, h - 1)) && Wf(mem', t, c, h - 1)
    ensures Swap(mem, mem', t, Kids(mem[x]), Reaches(mem, Kids(mem[x]), h - 1), h - 1, j, j + 1, [c], mem'.Keys - mem.Keys)
    ensures x !in Union(Reaches(mem, Kids(mem[x]), h - 1)) && x !in mem'.Keys - mem.Keys
    ensures Rooted(mem', t, x, h, Kids(mem[x])[..j] + [c] + Kids(mem[x])[j + 1..])
  {
    var ks := Kids(mem[x]);
    var ss := Reaches(mem, ks, h - 1);
    WfForest(mem, t, x, h);
    ReachKeys(mem, t, x, h);
    ReachOf(mem, t, x, h);
    SwapOne(mem, mem', t, ks, ss, h - 1, j, c, mem'.Keys - mem.Keys);
    KeptParent(mem, mem', t, x, h, j, c);
    Whole(ks, j);
  }

  /** The record of the parent is kept while a child grows. */
  lemma KeptParent(mem: Mem, mem': Mem, t: int, x: Ptr, h: nat, j: int, c: Ptr)
    requires h > 0 && Wf(mem, t, x, h) && 0 <= j < |Kids(mem[x])| && c == Kids(mem[x])[j]
    requires Agree(mem, mem', mem.Keys - Reach(mem, c, h - 1))
    ensures x in mem' && mem'[x] == mem[x]
  {
    KidReach(mem, t, x, h, j);
    assert x in mem.Keys - Reach(mem, c, h - 1);
  }

  /** `Swap` for one child `ks[j]` that has grown by `extra`. */
  lemma SwapOne(mem: Mem, mem': Mem, t: int, ks: seq<Ptr>, ss: seq<set<Ptr>>, h: nat, j: int, c: Ptr, extra: set<Ptr>)
    requires Forest(mem, t, ks, h) && ss == Reaches(mem, ks, h) && 0 <= j < |ks| && c == ks[j]
    requires Union(ss) <= mem.Keys && Agree(mem, mem', mem.Keys - ss[j])
    requires Wf(mem', t, c, h) && Reach(mem', c, h) == ss[j] + extra && extra !! mem.Keys
    ensures Swap(mem, mem', t, ks, ss, h, j, j + 1, [c], extra)
  {
    OneSets(ss, j, mem.Keys, extra);
    AgreeSub(mem, mem', mem.Keys - ss[j], Union(ss[..j]) + Union(ss[j + 1..]));
    ForestOne(mem', t, c, h);
  }

  /** One subtree is a forest. */
  lemma ForestOne(mem: Mem, t: int, c: Ptr, h: nat)
    requires Wf(mem, t, c, h)
    ensures Forest(mem, t, [c], h) && Union(Reaches(mem, [c], h)) == Reach(mem, c, h)
  {
    assert Reaches(mem, [c], h) == [Reach(mem, c, h)];
    UnionOne(Reach(mem, c, h));
  }

  /** The set algebra behind `SwapOne`. */
  lemma OneSets(ss: seq<set<Ptr>>, j: int, K: set<Ptr>, E: set<Ptr>)
    requires Apart(ss) && 0 <= j < |ss| && Union(ss) <= K && E !! K
    ensures Union(ss[..j]) + Union(ss[j + 1..]) <= K - ss[j]
    ensures Union(ss[j..j + 1]) == ss[j]
    ensures E !! Union(ss)
  {
    UnionThree(ss, j, j + 1);
    assert ss[j..j + 1] == [ss[j]];
    UnionOne(ss[j]);
    Siblings.BlockAlone(ss, j, j + 1);
  }

  lemma Whole<T>(s: seq<T>, j: int)
    requires 0 <= j < |s|
    ensures s[..j] + [s[j]] + s[j + 1..] == s
  {
  }

  lemma Grows(x: Ptr, A: set<Ptr>, S: set<Ptr>, E: set<Ptr>, B: set<Ptr>)
    ensures {x} + (A + (S + E) + B) == {x} + (A + S + B) + E
  {
  }

  lemma Replace<T>(s: seq<T>, j: int, v: T)
    requires 0 <= j < |s|
    ensures s[..j] + [v] + s[j + 1..] == s[j := v]
  {
  }

  // ---------------------------------------------------------------------
  // The scans of node_insert_nonfull
  // ---------------------------------------------------------------------

  /** The leaf case of `node_insert_nonfull`: from the last live item down,
      every item greater than `k` moves up one slot, and `k` is stored in
      the slot left free. */
  method LeafInsert(xr: NodeRec, k: int) returns (xr': NodeRec)
    requires 0 <= xr.n < |xr.items|
    ensures xr' == xr.(n := xr.n + 1, items := xr'.items) && |xr'.items| == |xr.items|
    ensures Keys(xr') == Insort(Keys(xr), k)
  {
    var items := xr.items;
    var i := xr.n - 1;
    while i >= 0 && k < items[i]
      invariant -1 <= i < xr.n && |items| == |xr.items|
      invariant items[..i + 1] == xr.items[..i + 1]
      invariant items[i + 2..xr.n + 1] == xr.items[i + 1..xr.n]
      invariant forall j :: i < j < xr.n ==> k < xr.items[j]
      decreases i
    {
      items := items[i + 1 := items[i]];
      i := i - 1;
    }
    i := i + 1;
    assert i > 0 ==> xr.items[i - 1] <= k;
    ghost var shifted := items;
    items := items[i := k];
    xr' := xr.(n := xr.n + 1, items := items);
    SlotUnique(Keys(xr), k, i);
    Placed(xr.items, shifted, xr.n, i, k);
  }

  /** The live items after the shift and the store of `k` at `i`. */
  lemma Placed(a: seq<int>, b: seq<int>, n: int, i: int, k: int)
    requires 0 <= i <= n < |a| == |b|
    requires b[..i] == a[..i] && b[i + 1..n + 1] == a[i..n]
    ensures b[i := k][..n + 1] == a[..n][..i] + [k] + a[..n][i..]
  {
    assert b[i := k][..n + 1] == b[..i] + [k] + b[i + 1..n + 1];
  }

  /** The internal case's scan in `node_insert_nonfull`: the index of the
      child to descend into, one past the last item that `k` is not less
      than. */
  method ChildIndex(xr: NodeRec, k: int) returns (i: int)
    requires 0 <= xr.n <= |xr.items|
    ensures i == Slot(Keys(xr), k)
  {
    i := xr.n - 1;
    while i >= 0 && k < xr.items[i]
      invariant -1 <= i < xr.n
      invariant forall j :: i < j < xr.n ==> k < xr.items[j]
      decreases i
    {
      i := i - 1;
    }
    i := i + 1;
    SlotUnique(Keys(xr), k, i);
  }

  // ---------------------------------------------------------------------
  // node_insert_nonfull
  // ---------------------------------------------------------------------

  /** `node_insert_nonfull(x, k)` on the subtree at `x`, of height `h`,
      whose root is not full: the leaf scan shifts and stores `k`; an
      internal node scans for the child, splits it first if it is full,
      and goes on into the half that `k` belongs to. */
  method InsertNonfull(heap: Heap, t: int, x: Ptr, k: int, ghost h: nat)
    requires heap.Valid() && NonfullAt(heap.mem, t, x, h)
    modifies heap
    decreases h
    ensures heap.Valid() && Inserted(old(heap.mem), heap.mem, t, x, h, k)
  {
    if heap.mem[x].children == [] {
      LeafStep(heap, t, x, k, h);
      return;
    }
    ghost var m0 := heap.mem;
    var i, y := Descend(heap, t, x, k, h);
    ghost var m1 := heap.mem;
    InsertNonfull(heap, t, y, k, h - 1);
    Finish(m0, m1, heap.mem, t, x, h, k, i, y);
  }

  /** The leaf case of `node_insert_nonfull`. */
  method LeafStep(heap: Heap, t: int, x: Ptr, k: int, ghost h: nat)
    requires heap.Valid() && NonfullAt(heap.mem, t, x, h)
    requires heap.mem[x].children == []
    modifies heap
    ensures heap.Valid() && Inserted(old(heap.mem), heap.mem, t, x, h, k)
  {
    ghost var m0 := heap.mem;
    Nodes.Arity(m0, t, x, h);
    var r := LeafInsert(heap.mem[x], k);
    Store(heap, x, r);
    LeafDone(m0, t, x, h, k, r);
  }

  /** The internal case of `node_insert_nonfull` up to the recursive call:
      the scan for the child, and the split of that child when it is full,
      after which the descent goes on into the half that `k` belongs to. */
  method Descend(heap: Heap, t: int, x: Ptr, k: int, ghost h: nat) returns (i: int, y: Ptr)
    requires heap.Valid() && NonfullAt(heap.mem, t, x, h)
    requires heap.mem[x].children != []
    modifies heap
    ensures heap.Valid() && Ready(old(heap.mem), heap.mem, t, x, h, k, i, y)
  {
    ghost var m0 := heap.mem;
    ghost var a := Abs(m0, x, h);
    i := ChildIndex(heap.mem[x], k);
    Entry(m0, t, x, h, k, i);
    y := heap.mem[x].children[i];
    if heap.mem[y].n >= 2 * t - 1 {
      SplitRoomy(a, i, t);
      Nodes.SplitChild(heap, t, x, i, h);
      ghost var i0 := i;
      Median(heap.mem, t, x, h, i);
      if k > heap.mem[x].items[i] {
        i := i + 1;
        y := heap.mem[x].children[i];
      }
      SplitBranch(m0, heap.mem, t, x, h, k, i0, heap.mem[x].items[i0], i, y, heap.next - 1);
    } else {
      KeepBranch(m0, t, x, h, k, i, y);
    }
  }

  /** The state `node_insert_nonfull` reaches before it recurses: from
      `mem` the subtree at `x` has grown to `m` (by the split, if any), and
      going on into its live child `i`, at `y`, gives the result for the
      whole subtree. */
  ghost predicate Ready(mem: Mem, m: Mem, t: int, x: Ptr, h: nat, k: int, i: int, y: Ptr)
  {
    h > 0 && Wf(mem, t, x, h) && Roomy(Abs(mem, x, h), t) &&
    Wf(m, t, x, h) && 0 <= i < |Kids(m[x])| && y == Kids(m[x])[i] &&
    NonfullAt(m, t, y, h - 1) &&
    Grown(mem, m, Reach(mem, x, h), Reach(m, x, h)) &&
    |Abs(m, x, h).children| == |Kids(m[x])| &&
    Growth.InsertNonfull(Abs(mem, x, h), k, t) ==
      Node(Abs(m, x, h).items, Abs(m, x, h).children[i := Growth.InsertNonfull(Abs(m, y, h - 1), k, t)])
  }

  /** The split branch: the child was full and has been split, and the
      descent goes on into the half `k` belongs to. */
  lemma SplitBranch(mem: Mem, m: Mem, t: int, x: Ptr, h: nat, k: int, i0: int, v: int, i: int, y: Ptr, z: Ptr)
    requires Wf(mem, t, x, h) && Roomy(Abs(mem, x, h), t) && Abs(mem, x, h).children != []
    requires i0 == Slot(Abs(mem, x, h).items, k) && |Abs(mem, x, h).children[i0].items| == 2 * t - 1
    requires Abs(mem, x, h).children[i0].children == [] || |Abs(mem, x, h).children[i0].children| == 2 * t
    requires h > 0 && Wf(m, t, x, h) && Abs(m, x, h) == Primitives.SplitChild(Abs(mem, x, h), i0, t)
    requires z !in mem && m.Keys == mem.Keys + {z} && Reach(m, x, h) == Reach(mem, x, h) + {z}
    requires Agree(mem, m, mem.Keys - Reach(mem, x, h))
    requires v == Abs(m, x, h).items[i0] && i == (if k > v then i0 + 1 else i0)
    requires i < |m[x].children| && y == m[x].children[i]
    ensures Ready(mem, m, t, x, h, k, i, y)
  {
    SplitNext(Abs(mem, x, h), k, t, i0, i);
    SplitGrown(mem, m, Reach(mem, x, h), Reach(m, x, h), z);
    Below(m, t, x, h, i, y);
    Nodes.Counts(m, t, x, h);
  }

  /** One step of `InsertNonfull` at a node whose child `i0`, where `k`
      belongs, is full: the child is split and the insertion goes on into
      the half `i` that `k` belongs to. */
  lemma SplitNext(a: Tree, k: int, t: int, i0: int, i: int)
    requires Roomy(a, t) && a.children != [] && i0 == Slot(a.items, k) && |a.children[i0].items| == 2 * t - 1
    requires a.children[i0].children == [] || |a.children[i0].children| == 2 * t
    requires i == (if k > Primitives.SplitChild(a, i0, t).items[i0] then i0 + 1 else i0)
    ensures Roomy(Primitives.SplitChild(a, i0, t).children[i], t)
    ensures Growth.InsertNonfull(a, k, t) ==
              Node(Primitives.SplitChild(a, i0, t).items,
                   Primitives.SplitChild(a, i0, t).children[i := Growth.InsertNonfull(Primitives.SplitChild(a, i0, t).children[i], k, t)])
  {
    SplitRoomy(a, i0, t);
  }

  /** The child was not full: the descent goes on into it. */
  lemma KeepBranch(mem: Mem, t: int, x: Ptr, h: nat, k: int, i: int, y: Ptr)
    requires Wf(mem, t, x, h) && Roomy(Abs(mem, x, h), t) && h > 0 && Abs(mem, x, h).children != []
    requires i == Slot(Abs(mem, x, h).items, k) && |Abs(mem, x, h).children[i].items| < 2 * t - 1
    requires i < |mem[x].children| && y == mem[x].children[i]
    ensures Ready(mem, mem, t, x, h, k, i, y)
  {
    ChildRoomy(Abs(mem, x, h), i, t);
    Below(mem, t, x, h, i, y);
    Nodes.Counts(mem, t, x, h);
  }

  /** After the recursive call the whole subtree holds the result. */
  lemma Finish(mem: Mem, m1: Mem, m2: Mem, t: int, x: Ptr, h: nat, k: int, i: int, y: Ptr)
    requires Ready(mem, m1, t, x, h, k, i, y)
    requires Inserted(m1, m2, t, y, h - 1, k)
    ensures Inserted(mem, m2, t, x, h, k)
  {
    Descent(m1, m2, t, x, h, i, y);
    GrownWithin(m1, m2, Reach(m1, y, h - 1), Reach(m2, y, h - 1), Reach(m1, x, h));
    GrownTrans(mem, m1, m2, Reach(mem, x, h), Reach(m1, x, h), Reach(m2, x, h));
  }

  /** The subtree at `x` of height `h` is well formed and its root is
      not full: what `node_insert_nonfull` asks of its caller. */
  ghost predicate NonfullAt(mem: Mem, t: int, x: Ptr, h: nat)
  {
    Wf(mem, t, x, h) && Roomy(Abs(mem, x, h), t)
  }

  /** From `mem` to `mem'` the subtree at `x` has become the insertion of
      `k` into it, and only its own memory was rewritten or allocated. */
  ghost predicate Inserted(mem: Mem, mem': Mem, t: int, x: Ptr, h: nat, k: int)
  {
    NonfullAt(mem, t, x, h) &&
    Wf(mem', t, x, h) && Abs(mem', x, h) == Growth.InsertNonfull(Abs(mem, x, h), k, t) &&
    Grown(mem, mem', Reach(mem, x, h), Reach(mem', x, h))
  }

  /** The leaf case leaves a leaf with `k` in its slot. */
  lemma LeafDone(mem: Mem, t: int, x: Ptr, h: nat, k: int, r: NodeRec)
    requires Wf(mem, t, x, h) && Roomy(Abs(mem, x, h), t) && mem[x].children == []
    requires r == mem[x].(n := mem[x].n + 1, items := r.items) && |r.items| == |mem[x].items|
    requires Keys(r) == Insort(Keys(mem[x]), k)
    ensures Inserted(mem, mem[x := r], t, x, h, k)
  {
    Nodes.Arity(mem, t, x, h);
  }

  /** What the scan of an internal node finds: the slot of `k` among the
      node's items and a live child there, whose count is that child's
      size. */
  lemma Entry(mem: Mem, t: int, x: Ptr, h: nat, k: int, i: int)
    requires Wf(mem, t, x, h) && Roomy(Abs(mem, x, h), t) && mem[x].children != []
    requires i == Slot(Keys(mem[x]), k)
    ensures h > 0 && Abs(mem, x, h).children != [] && i == Slot(Abs(mem, x, h).items, k)
    ensures 0 <= i < mem[x].c <= |mem[x].children| && mem[x].children[i] in mem
    ensures i < |Abs(mem, x, h).children| && mem[mem[x].children[i]].n == |Abs(mem, x, h).children[i].items|
  {
    Nodes.Counts(mem, t, x, h);
    var p := Nodes.KidRecord(mem, t, x, h, i);
  }

  /** The item the split moved up into `x` at `i`, and room for the child
      right of it. */
  lemma Median(mem: Mem, t: int, x: Ptr, h: nat, i: int)
    requires h > 0 && Wf(mem, t, x, h) && 0 <= i < |Abs(mem, x, h).items|
    ensures i < mem[x].n <= |mem[x].items| && mem[x].items[i] == Abs(mem, x, h).items[i]
    ensures |Abs(mem, x, h).children| == mem[x].c <= |mem[x].children|
  {
    Nodes.Counts(mem, t, x, h);
  }

  /** The child the descent goes on into. */
  lemma Below(mem: Mem, t: int, x: Ptr, h: nat, i: int, y: Ptr)
    requires h > 0 && Wf(mem, t, x, h) && 0 <= i < |Abs(mem, x, h).children|
    requires i < |mem[x].children| && y == mem[x].children[i]
    ensures 0 <= i < |Kids(mem[x])| && y == Kids(mem[x])[i]
    ensures Wf(mem, t, y, h - 1) && Abs(mem, y, h - 1) == Abs(mem, x, h).children[i]
  {
    Nodes.Counts(mem, t, x, h);
    ChildWf(mem, t, x, h, i);
  }

  /** A live child of a well-formed node is well formed one level
      lower. */
  lemma ChildWf(mem: Mem, t: int, x: Ptr, h: nat, i: int)
    requires h > 0 && Wf(mem, t, x, h) && 0 <= i < |Kids(mem[x])|
    ensures Wf(mem, t, Kids(mem[x])[i], h - 1)
  {
  }

  // ---------------------------------------------------------------------
  // node_insert
  // ---------------------------------------------------------------------

  /** From `mem` to `mem'` the tree at `root`, of height `h`, has become the
      insertion of `k` into it, now rooted at `s` with height `h'`, and only
      its own memory was rewritten or allocated. */
  ghost predicate InsertedAt(mem: Mem, mem': Mem, t: int, root: Ptr, h: nat, k: int, s: Ptr, h': nat)
  {
    Wf(mem, t, root, h) && Growth.Insertable(Abs(mem, root, h), t) &&
    Wf(mem', t, s, h') && Abs(mem', s, h') == Growth.Insert(Abs(mem, root, h), k, t) &&
    Grown(mem, mem', Reach(mem, root, h), Reach(mem', s, h'))
  }

  /** `node_insert(root, k)`: a full root is put under a new empty node,
      which gets a children buffer and the old root as its only child and
      then splits it; `k` goes in by `node_insert_nonfull` from the root
      that results, which is returned. */
  method Insert(heap: Heap, t: int, root: Ptr, k: int, ghost h: nat) returns (s: Ptr, ghost h': nat)
    requires heap.Valid() && Wf(heap.mem, t, root, h) && Growth.Insertable(Abs(heap.mem, root, h), t)
    modifies heap
    ensures heap.Valid() && InsertedAt(old(heap.mem), heap.mem, t, root, h, k, s, h')
    ensures old(heap.mem[root].n) < 2 * t - 1 ==> s == root && h' == h
    ensures old(heap.mem[root].n) >= 2 * t - 1 ==> s == old(heap.next) && h' == h + 1
  {
    ghost var m0 := heap.mem;
    Nodes.Arity(m0, t, root, h);
    if heap.mem[root].n >= 2 * t - 1 {
      s := NodeNew(heap, t);
      var ok := Transition(heap, s, t);
      var r := heap.mem[s];
      Store(heap, s, r.(c := r.c + 1, children := r.children[r.c := root]));
      ghost var m1 := heap.mem;
      NewRoot(m0, m1, t, root, h, s);
      Nodes.SplitChild(heap, t, s, 0, h + 1);
      RootReady(m0, m1, heap.mem, t, root, h, s, heap.next - 1);
      ghost var m2 := heap.mem;
      InsertNonfull(heap, t, s, k, h + 1);
      RootDone(m0, m2, heap.mem, t, root, h, k, s);
      h' := h + 1;
    } else {
      InsertNonfull(heap, t, root, k, h);
      s, h' := root, h;
    }
  }

  /** The new root over the full old root: a node with no items whose only
      live child is the old root, ready to be split, one level higher. */
  lemma NewRoot(m0: Mem, m1: Mem, t: int, root: Ptr, h: nat, s: Ptr)
    requires Wf(m0, t, root, h) && Growth.Insertable(Abs(m0, root, h), t)
    requires |Abs(m0, root, h).items| >= 2 * t - 1
    requires s != NULL && s !in m0
    requires m1 == m0[s := NodeRec(0, 1, seq(2 * t, _ => 0), seq(2 * t + 1, _ => NULL)[0 := root])]
    ensures Nodes.SplitReady(m1, t, s, 0, h + 1)
    ensures Abs(m1, s, h + 1) == Node([], [Abs(m0, root, h)])
    ensures Grown(m0, m1, Reach(m0, root, h), Reach(m1, s, h + 1))
  {
    RootRecord(m0, m1, t, root, h, s);
    var a := Abs(m0, root, h);
    assert |a.items| == 2 * t - 1 && (a.children == [] || |a.children| == 2 * t);
  }

  /** The new root's record reads as a node with no items over the old
      root, and its addresses are the old root's and its own. */
  lemma RootRecord(m0: Mem, m1: Mem, t: int, root: Ptr, h: nat, s: Ptr)
    requires Wf(m0, t, root, h) && t >= 1
    requires s != NULL && s !in m0
    requires m1 == m0[s := NodeRec(0, 1, seq(2 * t, _ => 0), seq(2 * t + 1, _ => NULL)[0 := root])]
    ensures Wf(m1, t, s, h + 1)
    ensures Abs(m1, s, h + 1) == Node([], [Abs(m0, root, h)])
    ensures Grown(m0, m1, Reach(m0, root, h), Reach(m1, s, h + 1))
  {
    var a := Abs(m0, root, h);
    ReachKeys(m0, t, root, h);
    Frame(m0, m1, t, root, h);
    assert Kids(m1[s]) == [root];
    ForestOne(m1, t, root, h);
    Assemble(m1, t, s, h + 1);
    assert Abses(m1, [root], h) == [a];
    assert m1.Keys - m0.Keys == {s};
  }

  /** The state `node_insert` reaches before it calls `node_insert_nonfull`
      on a new root: the split old root under it. */
  ghost predicate Planted(m0: Mem, m: Mem, t: int, root: Ptr, h: nat, s: Ptr)
  {
    Wf(m0, t, root, h) && Growth.Insertable(Abs(m0, root, h), t) && |Abs(m0, root, h).items| >= 2 * t - 1 &&
    NonfullAt(m, t, s, h + 1) && Abs(m, s, h + 1) == RootSplit(Abs(m0, root, h), t) &&
    Grown(m0, m, Reach(m0, root, h), Reach(m, s, h + 1))
  }

  /** After the split of the old root under the new one. */
  lemma RootReady(m0: Mem, m1: Mem, m2: Mem, t: int, root: Ptr, h: nat, s: Ptr, z: Ptr)
    requires Wf(m0, t, root, h) && Growth.Insertable(Abs(m0, root, h), t) && |Abs(m0, root, h).items| >= 2 * t - 1
    requires Abs(m1, s, h + 1) == Node([], [Abs(m0, root, h)])
    requires Grown(m0, m1, Reach(m0, root, h), Reach(m1, s, h + 1))
    requires Nodes.SplitReady(m1, t, s, 0, h + 1) && Wf(m2, t, s, h + 1)
    requires Abs(m2, s, h + 1) == Primitives.SplitChild(Abs(m1, s, h + 1), 0, t)
    requires z !in m1 && m2.Keys == m1.Keys + {z} && Reach(m2, s, h + 1) == Reach(m1, s, h + 1) + {z}
    requires Agree(m1, m2, m1.Keys - Reach(m1, s, h + 1))
    ensures Planted(m0, m2, t, root, h, s)
  {
    RootRoomy(Abs(m0, root, h), t);
    SplitGrown(m1, m2, Reach(m1, s, h + 1), Reach(m2, s, h + 1), z);
    GrownTrans(m0, m1, m2, Reach(m0, root, h), Reach(m1, s, h + 1), Reach(m2, s, h + 1));
  }

  /** After `node_insert_nonfull` from the new root. */
  lemma RootDone(m0: Mem, m2: Mem, m3: Mem, t: int, root: Ptr, h: nat, k: int, s: Ptr)
    requires Planted(m0, m2, t, root, h, s) && Inserted(m2, m3, t, s, h + 1, k)
    ensures InsertedAt(m0, m3, t, root, h, k, s, h + 1)
  {
    GrownTrans(m0, m2, m3, Reach(m0, root, h), Reach(m2, s, h + 1), Reach(m3, s, h + 1));
  }
}
