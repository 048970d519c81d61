/**
 * `struct btree` of src/btree.c and its public operations: `btree_new`,
 * `btree_insert`, `btree_search`, `btree_delete`, `btree_first`,
 * `btree_last`, `btree_height`, `u32_pow` and `btree_size`, and the
 * iterator started on the tree. A tree owns a root (NULL when empty) and
 * its minimum degree; the nodes live in the `Heap`.
 */
module Engine {
  import opened Model
  import opened Memory
  import Nodes
  import Growth
  import Insertion
  import Lookup
  import Removal
  import Deletion
  import Iteration

  // ---------------------------------------------------------------------
  // Powers and the capacity of a tree
  // ---------------------------------------------------------------------

  /** `b` to the power `e`. */
  function Power(b: nat, e: nat): nat
  {
    if e == 0 then 1 else b * Power(b, e - 1)
  }

  /** `u32_pow(base, exponent)`: `res` starts at 1 and is multiplied by
      `base` while `exponent` counts down to 0. */
  method Pow(base: nat, exponent: nat) returns (res: nat)
    ensures res == Power(base, exponent)
  {
    res := 1;
    var e := exponent;
    while e > 0
      invariant 0 <= e <= exponent && res * Power(base, e) == Power(base, exponent)
    {
      assert Power(base, e) == base * Power(base, e - 1);
      res := res * base;
      e := e - 1;
    }
  }

  /** A subtree of height `h` with no node over `2t-1` items holds at most
      `(2t)^(h+1) - 1` elements. */
  lemma {:induction false} Capacity(m: Tree, t: int)
    requires t >= 1 && WellFormed(m) && Balanced(m) && Capped(m, t)
    ensures |Flat(m)| <= Power(2 * t, Model.Height(m) + 1) - 1
    decreases m
  {
    var P: int := Power(2 * t, Model.Height(m));
    assert Power(2 * t, Model.Height(m) + 1) == 2 * t * P;
    if m.children != [] {
      forall i | 0 <= i < |m.children| ensures |Flat(m.children[i])| <= P - 1 {
        assert Model.Height(m.children[i]) == Model.Height(m) - 1;
        Capacity(m.children[i], t);
      }
      WeaveBound(m.children, m.items, P - 1);
      Fill(|m.items|, P, t);
    }
  }

  /** `n+1` children of at most `P-1` elements and `n` items between them
      fit in `2t` times `P`, less one, when `n+1 <= 2t`. */
  lemma Fill(n: nat, P: int, t: int)
    requires n + 1 <= 2 * t && P >= 0
    ensures (n + 1) * (P - 1) + n <= 2 * t * P - 1
  {
    assert (n + 1) * (P - 1) + n == (n + 1) * P - 1;
    assert (n + 1) * P <= 2 * t * P;
  }

  /** Children of at most `B` elements each, interleaved with the items
      between them. */
  lemma {:induction false} WeaveBound(cs: seq<Tree>, ks: seq<int>, B: int)
    requires |cs| == |ks| + 1
    requires forall i :: 0 <= i < |cs| ==> |Flat(cs[i])| <= B
    ensures |Weave(cs, ks)| <= |cs| * B + |ks|
    decreases cs
  {
    if |cs| > 1 {
      WeaveBound(cs[1..], ks[1..], B);
    }
  }

  // ---------------------------------------------------------------------
  // Facts about B-trees in memory
  // ---------------------------------------------------------------------

  /** The nodes below the root of a B-tree all hold an item. */
  lemma ShapedStocked(m: Tree, t: int)
    requires Shaped(m, t)
    ensures Iteration.Stocked(m)
  {
    forall i | 0 <= i < |m.children| ensures m.children[i].items != [] && Iteration.Stocked(m.children[i]) {
      FullStocked(m.children[i], t);
    }
  }

  /** Every node of a subtree within the bounds holds an item. */
  lemma {:induction false} FullStocked(m: Tree, t: int)
    requires t >= 2 && Full(m, t)
    ensures m.items != [] && Iteration.Stocked(m)
    decreases m
  {
    forall i | 0 <= i < |m.children| ensures m.children[i].items != [] && Iteration.Stocked(m.children[i]) {
      assert Full(m.children[i], t);
      FullStocked(m.children[i], t);
    }
  }

  /** The memory height of a well-formed subtree is the height of its
      value. */
  lemma {:induction false} HeightOf(mem: Mem, t: int, p: Ptr, h: nat)
    requires Wf(mem, t, p, h)
    ensures Model.Height(Abs(mem, p, h)) == h
    decreases h
  {
    Nodes.Arity(mem, t, p, h);
    if h > 0 {
      Deletion.Kid(mem, t, p, h, 0);
      HeightOf(mem, t, mem[p].children[0], h - 1);
    }
  }

  /** A record fresh from `node_new` is an empty leaf, a B-tree. */
  lemma FreshLeaf(mem: Mem, t: int, p: Ptr)
    requires t >= 2 && p != NULL && p in mem && mem[p] == NodeRec(0, 0, seq(2 * t, _ => 0), [])
    ensures Wf(mem, t, p, 0) && Abs(mem, p, 0) == Node([], []) && IsBTree(Node([], []), t)
  {
    assert Keys(mem[p]) == [];
  }

  /** A step from an internal node of a B-tree to its first child: the
      in-order sequence of both starts with the same element. */
  lemma DownFirst(mem: Mem, t: int, p: Ptr, g: nat)
    requires Wf(mem, t, p, g) && WellFormed(Abs(mem, p, g)) && Iteration.Stocked(Abs(mem, p, g))
    requires mem[p].children != []
    ensures g > 0 && 0 < |mem[p].children| && mem[p].children[0] in mem && 0 < |Abs(mem, p, g).children|
    ensures Wf(mem, t, mem[p].children[0], g - 1)
    ensures Abs(mem, mem[p].children[0], g - 1) == Abs(mem, p, g).children[0]
    ensures Flat(Abs(mem, p, g)) != [] && Flat(Abs(mem, mem[p].children[0], g - 1)) != []
    ensures Flat(Abs(mem, p, g))[0] == Flat(Abs(mem, mem[p].children[0], g - 1))[0]
  {
    var a := Abs(mem, p, g);
    Nodes.Arity(mem, t, p, g);
    Deletion.Kid(mem, t, p, g, 0);
    FlatAt(a, 0);
    assert Front(a.children[..0], a.items[..0]) == [];
    ItemInFlat(a.children[0], 0);
  }

  /** A step from an internal node of a B-tree to its last live child
      `c-1`: the in-order sequence of both ends with the same element. */
  lemma DownLast(mem: Mem, t: int, p: Ptr, g: nat)
    requires Wf(mem, t, p, g) && WellFormed(Abs(mem, p, g)) && Iteration.Stocked(Abs(mem, p, g))
    requires mem[p].children != []
    ensures g > 0 && 0 < mem[p].c <= |mem[p].children| && mem[p].children[mem[p].c - 1] in mem
    ensures mem[p].c == |Abs(mem, p, g).children|
    ensures Wf(mem, t, mem[p].children[mem[p].c - 1], g - 1)
    ensures Abs(mem, mem[p].children[mem[p].c - 1], g - 1) == Abs(mem, p, g).children[mem[p].c - 1]
    ensures Flat(Abs(mem, p, g)) != [] && Flat(Abs(mem, mem[p].children[mem[p].c - 1], g - 1)) != []
    ensures Flat(Abs(mem, p, g))[|Flat(Abs(mem, p, g))| - 1] ==
              Flat(Abs(mem, mem[p].children[mem[p].c - 1], g - 1))[|Flat(Abs(mem, mem[p].children[mem[p].c - 1], g - 1))| - 1]
  {
    var a := Abs(mem, p, g);
    var j := mem[p].c - 1;
    Nodes.Arity(mem, t, p, g);
    Deletion.Kid(mem, t, p, g, j);
    FlatAt(a, j);
    assert Back(a.children[j + 1..], a.items[j..]) == [];
    ItemInFlat(a.children[j], 0);
  }

  /** The only child of a root left without items, once the root is
      released, is a subtree of its own, one level lower. */
  lemma Promote(mem: Mem, t: int, x: Ptr, h: nat)
    requires Wf(mem, t, x, h) && WellFormed(Abs(mem, x, h)) && mem[x].n == 0 && mem[x].children != []
    ensures h > 0 && 0 < |mem[x].children| && Abs(mem, x, h).children != []
    ensures Wf(mem - {x}, t, mem[x].children[0], h - 1)
    ensures Abs(mem - {x}, mem[x].children[0], h - 1) == Abs(mem, x, h).children[0]
  {
    Nodes.Arity(mem, t, x, h);
    Deletion.Kid(mem, t, x, h, 0);
    KidReach(mem, t, x, h, 0);
    Without(mem, t, mem[x].children[0], h - 1, x);
  }

  /** Releasing a node outside a subtree leaves the subtree as it was. */
  lemma Without(mem: Mem, t: int, c: Ptr, h: nat, x: Ptr)
    requires Wf(mem, t, c, h) && x !in Reach(mem, c, h)
    ensures Wf(mem - {x}, t, c, h) && Abs(mem - {x}, c, h) == Abs(mem, c, h)
  {
    ReachIn(mem, t, c, h);
    assert Agree(mem, mem - {x}, Reach(mem, c, h));
    Frame(mem, mem - {x}, t, c, h);
  }

  /** The walk of `btree_first` at `p`, `g` levels above the leaves, in
      a tree whose elements are `E`: a subtree of the tree whose in-order
      sequence is `E` at the root (`top`) and starts with the first
      element of `E` below it. */
  ghost predicate LeftOf(mem: Mem, t: int, p: Ptr, g: nat, top: bool, E: seq<int>)
  {
    Wf(mem, t, p, g) && WellFormed(Abs(mem, p, g)) && Iteration.Stocked(Abs(mem, p, g)) &&
    (top ==> Flat(Abs(mem, p, g)) == E) &&
    (!top ==> E != [] && Flat(Abs(mem, p, g)) != [] && Flat(Abs(mem, p, g))[0] == E[0])
  }

  /** The walk of the last live children: as `LeftOf`, with the last
      element. */
  ghost predicate RightOf(mem: Mem, t: int, p: Ptr, g: nat, top: bool, E: seq<int>)
  {
    Wf(mem, t, p, g) && WellFormed(Abs(mem, p, g)) && Iteration.Stocked(Abs(mem, p, g)) &&
    (top ==> Flat(Abs(mem, p, g)) == E) &&
    (!top ==> E != [] && Flat(Abs(mem, p, g)) != [] &&
              Flat(Abs(mem, p, g))[|Flat(Abs(mem, p, g))| - 1] == E[|E| - 1])
  }

  /** Both walks start at the root of a B-tree. */
  lemma Rooted(mem: Mem, t: int, root: Ptr, h: nat, E: seq<int>)
    requires Wf(mem, t, root, h) && IsBTree(Abs(mem, root, h), t) && E == Flat(Abs(mem, root, h))
    ensures root in mem && LeftOf(mem, t, root, h, true, E) && RightOf(mem, t, root, h, true, E)
  {
    ShapedStocked(Abs(mem, root, h), t);
  }

  /** One step of `btree_first` down child 0. */
  lemma FirstStep(mem: Mem, t: int, p: Ptr, g: nat, top: bool, E: seq<int>)
    requires LeftOf(mem, t, p, g, top, E) && p in mem && mem[p].children != []
    ensures g > 0 && 0 < |mem[p].children| && mem[p].children[0] in mem
    ensures LeftOf(mem, t, mem[p].children[0], g - 1, false, E)
  {
    DownFirst(mem, t, p, g);
  }

  /** One step down the last live child `c-1`. */
  lemma LastStep(mem: Mem, t: int, p: Ptr, g: nat, top: bool, E: seq<int>)
    requires RightOf(mem, t, p, g, top, E) && p in mem && mem[p].children != []
    ensures g > 0 && 0 < mem[p].c <= |mem[p].children| && mem[p].children[mem[p].c - 1] in mem
    ensures RightOf(mem, t, mem[p].children[mem[p].c - 1], g - 1, false, E)
  {
    DownLast(mem, t, p, g);
  }

  /** At the leaf the walk of `btree_first` ends at: it is empty exactly
      when the tree is, and its first item is the first element. */
  lemma FirstEnd(mem: Mem, t: int, p: Ptr, g: nat, top: bool, E: seq<int>)
    requires LeftOf(mem, t, p, g, top, E) && p in mem && mem[p].children == []
    ensures 0 <= mem[p].n <= |mem[p].items|
    ensures mem[p].n == 0 <==> E == []
    ensures mem[p].n > 0 ==> mem[p].items[0] == E[0]
  {
    Nodes.Counts(mem, t, p, g);
  }

  /** At the leaf the walk of the last live children ends at: it is empty
      exactly when the tree is, and its last item is the last element. */
  lemma LastEnd(mem: Mem, t: int, p: Ptr, g: nat, top: bool, E: seq<int>)
    requires RightOf(mem, t, p, g, top, E) && p in mem && mem[p].children == []
    ensures 0 <= mem[p].n <= |mem[p].items|
    ensures mem[p].n == 0 <==> E == []
    ensures mem[p].n > 0 ==> mem[p].items[mem[p].n - 1] == E[|E| - 1]
  {
    Nodes.Counts(mem, t, p, g);
  }

  /** The walk of `btree_first` from the root of a B-tree: down the first
      children to a leaf, whose first item, if any, is the first element. */
  method FirstFrom(mem: Mem, t: int, root: Ptr, ghost h: nat) returns (r: Option<int>)
    requires Wf(mem, t, root, h) && IsBTree(Abs(mem, root, h), t)
    ensures r == if Flat(Abs(mem, root, h)) == [] then None else Some(Flat(Abs(mem, root, h))[0])
  {
    Rooted(mem, t, root, h, Flat(Abs(mem, root, h)));
    r := FirstWalk(mem, t, root, h, Flat(Abs(mem, root, h)));
  }

  /** The loop of `btree_first` from `root`, where the walk is already
      on course for the first element of `E`. */
  method FirstWalk(mem: Mem, t: int, root: Ptr, ghost h: nat, ghost E: seq<int>) returns (r: Option<int>)
    requires root in mem && LeftOf(mem, t, root, h, true, E)
    ensures r == if E == [] then None else Some(E[0])
  {
    var p := root;
    ghost var g, top := h, true;
    while mem[p].children != []
      invariant p in mem && LeftOf(mem, t, p, g, top, E)
      decreases g
    {
      FirstStep(mem, t, p, g, top, E);
      p := mem[p].children[0];
      g, top := g - 1, false;
    }
    FirstEnd(mem, t, p, g, top, E);
    if mem[p].n == 0 {
      return None;
    }
    return Some(mem[p].items[0]);
  }

  /** The walk of `btree_last` with the last live child, `children[c-1]`,
      at each level: the last item of the leaf it reaches, if any, is the
      last element. */
  method LastFrom(mem: Mem, t: int, root: Ptr, ghost h: nat) returns (r: Option<int>)
    requires Wf(mem, t, root, h) && IsBTree(Abs(mem, root, h), t)
    ensures r == if Flat(Abs(mem, root, h)) == [] then None
                 else Some(Flat(Abs(mem, root, h))[|Flat(Abs(mem, root, h))| - 1])
  {
    Rooted(mem, t, root, h, Flat(Abs(mem, root, h)));
    r := LastWalk(mem, t, root, h, Flat(Abs(mem, root, h)));
  }

  /** The loop of `btree_last` from `root`, where the walk is already
      on course for the last element of `E`. */
  method LastWalk(mem: Mem, t: int, root: Ptr, ghost h: nat, ghost E: seq<int>) returns (r: Option<int>)
    requires root in mem && RightOf(mem, t, root, h, true, E)
    ensures r == if E == [] then None else Some(E[|E| - 1])
  {
    var p := root;
    ghost var g, top := h, true;
    while mem[p].children != []
      invariant p in mem && RightOf(mem, t, p, g, top, E)
      decreases g
    {
      LastStep(mem, t, p, g, top, E);
      p := mem[p].children[mem[p].c - 1];
      g, top := g - 1, false;
    }
    LastEnd(mem, t, p, g, top, E);
    if mem[p].n == 0 {
      return None;
    }
    return Some(mem[p].items[mem[p].n - 1]);
  }

  /** The walk of `btree_height`: the number of steps down the first
      children from `root` to a leaf is the height the subtree was laid
      out with. */
  method HeightFrom(mem: Mem, t: int, root: Ptr, ghost h: nat) returns (r: nat)
    requires Wf(mem, t, root, h)
    ensures r == h
  {
    r := 0;
    var p := root;
    ghost var g := h;
    while mem[p].children != []
      invariant Wf(mem, t, p, g) && r + g == h
      decreases g
    {
      Nodes.Arity(mem, t, p, g);
      Deletion.Kid(mem, t, p, g, 0);
      p := mem[p].children[0];
      r := r + 1;
      g := g - 1;
    }
    Nodes.Arity(mem, t, p, g);
  }

  // ---------------------------------------------------------------------
  // btree_delete
  // ---------------------------------------------------------------------

  /** From the elements `E` to `E'`, `btree_delete(k)` returning `r`: 1
      exactly when `k` was there, and then one element is gone; nothing
      changes otherwise. */
  ghost predicate Dropped(E: seq<int>, E': seq<int>, r: int, k: int)
  {
    (r == 1 <==> k in E) && (r == 0 ==> E' == E) && (r == 1 ==> Removal.OneLess(E', E))
  }

  /** A B-tree on which deletion is defined is one `node_delete` may be
      called on. */
  lemma DeleteReady(mem: Mem, t: int, x: Ptr, h: nat, k: int)
    requires Wf(mem, t, x, h) && IsBTree(Abs(mem, x, h), t) && Removal.TreeDeleteFixed(Abs(mem, x, h), k, t).Ok?
    ensures Deletion.Doable(mem, t, x, h, k)
  {
    Growth.CappedOf(Abs(mem, x, h), t);
  }

  /** The root is still there after `node_delete`. */
  lemma DeletedRoot(m0: Mem, m1: Mem, t: int, x: Ptr, h: nat, k: int, r: int)
    requires Deletion.Deleted(m0, m1, t, x, h, k, r)
    ensures x in m1
  {
  }

  /** `node_delete` on the root, and the release of the root, touch no
      record outside the old tree and allocate none. */
  lemma Released(m0: Mem, m1: Mem, t: int, x: Ptr, h: nat, k: int, r: int)
    requires Deletion.Deleted(m0, m1, t, x, h, k, r)
    ensures m1.Keys <= m0.Keys && Agree(m0, m1, m0.Keys - Reach(m0, x, h))
    ensures x in m1 && Agree(m0, m1 - {x}, m0.Keys - Reach(m0, x, h))
  {
    ReachSelf(m0, x, h);
  }

  /** The root kept its items: it is the root of the B-tree left. */
  lemma KeptRoot(m0: Mem, m1: Mem, t: int, x: Ptr, h: nat, k: int, r: int)
    requires Deletion.Deleted(m0, m1, t, x, h, k, r) && IsBTree(Abs(m0, x, h), t)
    requires Removal.TreeDeleteFixed(Abs(m0, x, h), k, t).Ok? && x in m1 && m1[x].n != 0
    ensures Wf(m1, t, x, h) && IsBTree(Abs(m1, x, h), t)
    ensures Dropped(Flat(Abs(m0, x, h)), Flat(Abs(m1, x, h)), r, k)
    ensures Removal.TreeDeleteFixed(Abs(m0, x, h), k, t).value == Removal.Pruned(Some(Abs(m1, x, h)), r)
  {
    Removal.TreeDeleteBTree(Abs(m0, x, h), k, t);
    Nodes.Counts(m1, t, x, h);
  }

  /** A root leaf left without items: the tree is empty. */
  lemma EmptiedLeaf(m0: Mem, m1: Mem, t: int, x: Ptr, h: nat, k: int, r: int)
    requires Deletion.Deleted(m0, m1, t, x, h, k, r) && IsBTree(Abs(m0, x, h), t)
    requires Removal.TreeDeleteFixed(Abs(m0, x, h), k, t).Ok? && x in m1 && m1[x].n == 0 && m1[x].children == []
    ensures Dropped(Flat(Abs(m0, x, h)), [], r, k)
    ensures Removal.TreeDeleteFixed(Abs(m0, x, h), k, t).value == Removal.Pruned(None, r)
  {
    Removal.TreeDeleteBTree(Abs(m0, x, h), k, t);
    Nodes.Counts(m1, t, x, h);
  }

  /** An internal root left without items: once it is released, its only
      child is the root of the B-tree left, one level lower. */
  lemma EmptiedRoot(m0: Mem, m1: Mem, t: int, x: Ptr, h: nat, k: int, r: int)
    requires Deletion.Deleted(m0, m1, t, x, h, k, r) && IsBTree(Abs(m0, x, h), t)
    requires Removal.TreeDeleteFixed(Abs(m0, x, h), k, t).Ok? && x in m1 && m1[x].n == 0 && m1[x].children != []
    ensures h > 0 && 0 < |m1[x].children|
    ensures Wf(m1 - {x}, t, m1[x].children[0], h - 1) && IsBTree(Abs(m1 - {x}, m1[x].children[0], h - 1), t)
    ensures Dropped(Flat(Abs(m0, x, h)), Flat(Abs(m1 - {x}, m1[x].children[0], h - 1)), r, k)
    ensures Removal.TreeDeleteFixed(Abs(m0, x, h), k, t).value == Removal.Pruned(Some(Abs(m1 - {x}, m1[x].children[0], h - 1)), r)
  {
    var d := Removal.Delete(Abs(m0, x, h), k, t).value;
    Removal.DeleteShrinks(Abs(m0, x, h), k, t);
    Removal.TreeDeleteBTree(Abs(m0, x, h), k, t);
    Nodes.Counts(m1, t, x, h);
    Promote(m1, t, x, h);
    assert d.tree == Node([], [d.tree.children[0]]);
  }

  // ---------------------------------------------------------------------
  // btree_last
  // ---------------------------------------------------------------------

  /** `btree_last` as written, on the value of the tree: at an internal
      node it follows `children[c]`, the slot past the last live child,
      which holds no live subtree (NULL in a root made by a split), and
      the model stops there; on a leaf root it returns the last item. */
  ghost function LastAsWritten(m: Tree): (r: Outcome<Option<int>>)
    ensures m.children == [] ==> r == Ok(if Flat(m) == [] then None else Some(Flat(m)[|Flat(m)| - 1]))
  {
    if m.children != [] then Undefined
    else if m.items == [] then Ok(None)
    else Ok(Some(m.items[|m.items| - 1]))
  }

  /** A B-tree of two levels, on which `btree_last` as written fails while
      the tree has a last element. */
  lemma LastOffByOne()
    ensures IsBTree(Node([2], [Node([1], []), Node([3], [])]), 2)
    ensures Flat(Node([2], [Node([1], []), Node([3], [])])) == [1, 2, 3]
    ensures LastAsWritten(Node([2], [Node([1], []), Node([3], [])])) == Undefined
  {
    var m := Node([2], [Node([1], []), Node([3], [])]);
    assert Weave(m.children[1..], m.items[1..]) == [3];
    assert Flat(m) == [1, 2, 3];
    assert Full(Node([1], []), 2) && Full(Node([3], []), 2);
  }

  /** A record put at a fresh address `p` and then grown from there
      leaves every record of the memory before as it was. */
  lemma Planted(m0: Mem, m1: Mem, m2: Mem, p: Ptr, R: set<Ptr>)
    requires p !in m0 && m1.Keys == m0.Keys + {p} && Agree(m0, m1, m0.Keys) && R == {p}
    requires m1.Keys <= m2.Keys && Agree(m1, m2, m1.Keys - R)
    ensures m0.Keys <= m2.Keys && Agree(m0, m2, m0.Keys)
  {
  }

  // ---------------------------------------------------------------------
  // The tree
  // ---------------------------------------------------------------------

  /** `struct btree`: the root (NULL for an empty tree) and the minimum
      degree; the height of the tree is ghost. */
  class BTree {
    var root: Ptr
    const degree: int
    ghost var height: nat

    /** An empty tree, or a B-tree of minimum degree `degree` and height
        `height` at `root`. */
    ghost predicate Valid(heap: Heap)
      reads this, heap
    {
      heap.Valid() && degree >= 2 &&
      (root == NULL ==> height == 0) &&
      (root != NULL ==> Wf(heap.mem, degree, root, height) && IsBTree(Abs(heap.mem, root, height), degree))
    }

    /** The elements of the tree in order. */
    ghost function Elements(heap: Heap): seq<int>
      reads this, heap
    {
      if root == NULL then [] else Flat(Abs(heap.mem, root, height))
    }

    /** `btree_new(elem_size, t, cmp)`: an empty tree. */
    constructor (heap: Heap, t: int)
      requires heap.Valid() && t >= 2
      ensures Valid(heap) && degree == t && root == NULL && Elements(heap) == []
    {
      root := NULL;
      degree := t;
      height := 0;
    }

    /** `btree_insert(btree, elem)`: an empty tree gets a new leaf root,
        into which `node_insert` puts `k`; otherwise the root becomes what
        `node_insert` returns. The elements are the old ones with `k` in
        its place in order, and the tree grows one level exactly when the
        root was full. */
    method Insert(heap: Heap, k: int)
      requires Valid(heap)
      modifies this, heap
      ensures Valid(heap)
      ensures Elements(heap) == Growth.Insort(old(Elements(heap)), k)
      ensures height == old(height) + (if old(root != NULL && heap.mem[root].n == 2 * degree - 1) then 1 else 0)
      ensures old(heap.mem.Keys) <= heap.mem.Keys
      ensures Agree(old(heap.mem), heap.mem, old(heap.mem.Keys - (if root == NULL then {} else Reach(heap.mem, root, height))))
    {
      ghost var m0 := heap.mem;
      if root == NULL {
        var p := NodeNew(heap, degree);
        ghost var m1 := heap.mem;
        FreshLeaf(heap.mem, degree, p);
        Growth.InsertBTree(Node([], []), k, degree);
        var s, h' := Insertion.Insert(heap, degree, p, k, 0);
        Planted(m0, m1, heap.mem, p, Reach(m1, p, 0));
        root := p;
        height := 0;
      } else {
        Nodes.Arity(heap.mem, degree, root, height);
        Growth.InsertBTree(Abs(heap.mem, root, height), k, degree);
        var s, h' := Insertion.Insert(heap, degree, root, k, height);
        root := s;
        height := h';
      }
    }

    /** `btree_search(btree, key)`: `node_search` from the root, which
        dereferences NULL on an empty tree. It finds a slot exactly when
        `k` is among the elements, and the slot holds `k`. */
    ghost function Search(heap: Heap, k: int): (r: Outcome<Option<Lookup.Place>>)
      reads this, heap
      requires Valid(heap)
      ensures r.Ok? <==> root != NULL
      ensures r.Ok? ==> (r.value.Some? <==> k in Elements(heap))
      ensures r.Ok? && r.value.Some? ==>
                r.value.value.node in heap.mem && 0 <= r.value.value.index < heap.mem[r.value.value.node].n &&
                r.value.value.index < |heap.mem[r.value.value.node].items| &&
                heap.mem[r.value.value.node].items[r.value.value.index] == k
    {
      if root == NULL then Undefined
      else
        Lookup.SearchFinds(heap.mem, degree, root, k, height);
        Ok(Lookup.NodeSearch(heap.mem, degree, root, k, height))
    }

    /** `btree_delete(btree, key)` with the root shrink only for an
        internal root: `node_delete` on the root; a root left without
        items is released, and its only child becomes the root or, for a
        leaf, the tree becomes empty. It returns 1 exactly when `k` was
        among the elements, and then one element is gone; otherwise
        nothing changes. The elements left are those of the tree
        `Removal.TreeDeleteFixed` leaves, and no record outside the old
        tree is touched. */
    method Delete(heap: Heap, k: int) returns (r: int)
      requires Valid(heap) && root != NULL
      requires Removal.TreeDeleteFixed(Abs(heap.mem, root, height), k, degree).Ok?
      modifies this, heap
      ensures Valid(heap)
      ensures r == 1 <==> k in old(Elements(heap))
      ensures r == 0 ==> Elements(heap) == old(Elements(heap))
      ensures r == 1 ==> Removal.OneLess(Elements(heap), old(Elements(heap)))
      ensures var p := old(Removal.TreeDeleteFixed(Abs(heap.mem, root, height), k, degree)).value;
              r == p.res && Elements(heap) == Removal.Contents(p.root)
      ensures heap.mem.Keys <= old(heap.mem.Keys)
      ensures Agree(old(heap.mem), heap.mem, old(heap.mem.Keys - Reach(heap.mem, root, height)))
    {
      ghost var m0 := heap.mem;
      DeleteReady(m0, degree, root, height, k);
      var x := root;
      r := Deletion.NodeDelete(heap, degree, x, k, height);
      ghost var m1 := heap.mem;
      DeletedRoot(m0, m1, degree, x, height, k, r);
      Released(m0, m1, degree, x, height, k, r);
      if heap.mem[x].n == 0 {
        if heap.mem[x].children == [] {
          EmptiedLeaf(m0, m1, degree, x, height, k, r);
          Free(heap, x);
          root := NULL;
          height := 0;
        } else {
          var c := heap.mem[x].children[0];
          EmptiedRoot(m0, m1, degree, x, height, k, r);
          Free(heap, x);
          root := c;
          height := height - 1;
        }
      } else {
        KeptRoot(m0, m1, degree, x, height, k, r);
      }
    }

    /** `btree_first(btree)`: down the first children to a leaf; its first
        item, or nothing when that leaf is an empty root. It is the first
        element of the tree. */
    method First(heap: Heap) returns (r: Option<int>)
      requires Valid(heap)
      ensures r == if Elements(heap) == [] then None else Some(Elements(heap)[0])
    {
      if root == NULL {
        return None;
      }
      r := FirstFrom(heap.mem, degree, root, height);
    }

    /** `btree_last(btree)` following the last live child, `children[c-1]`,
        down to a leaf: its last item, or nothing when that leaf is an
        empty root. It is the last element of the tree. */
    method Last(heap: Heap) returns (r: Option<int>)
      requires Valid(heap)
      ensures r == if Elements(heap) == [] then None else Some(Elements(heap)[|Elements(heap)| - 1])
    {
      if root == NULL {
        return None;
      }
      r := LastFrom(heap.mem, degree, root, height);
    }

    /** `btree_height(btree)`: the number of steps down the first children
        from the root to a leaf, 0 for an empty tree; it is the height of
        the tree. */
    method Height(heap: Heap) returns (r: nat)
      requires Valid(heap)
      ensures r == height
      ensures root != NULL ==> r == Model.Height(Abs(heap.mem, root, height))
    {
      r := 0;
      if root == NULL {
        return;
      }
      HeightOf(heap.mem, degree, root, height);
      r := HeightFrom(heap.mem, degree, root, height);
    }

    /** `btree_size(btree)`: `(2t)^height - 1`, a bound computed from the
        height, not the number of elements. */
    method Size(heap: Heap) returns (r: int)
      requires Valid(heap)
      ensures r == Power(2 * degree, height) - 1
    {
      var b := 2 * degree;
      var h := Height(heap);
      var p: int := Pow(b, h);
      r := p - 1;
    }

    /** The tree holds at most `2t` times `btree_size + 1`, less one,
        elements. */
    lemma Bound(heap: Heap)
      requires Valid(heap)
      ensures |Elements(heap)| <= 2 * degree * Power(2 * degree, height) - 1
    {
      if root != NULL {
        var a := Abs(heap.mem, root, height);
        Growth.CappedOf(a, degree);
        HeightOf(heap.mem, degree, root, height);
        Capacity(a, degree);
      }
    }

    /** `btree_iter_t_new(tree)`: an iterator whose remaining elements are
        those of the tree, for a tree lower than the 512-frame stack. */
    method Iterate(heap: Heap) returns (it: Iteration.Iter)
      requires Valid(heap) && height < 511
      ensures fresh(it) && fresh(it.stack) && it.Valid(heap.mem, degree, root, height) && it.rest == Elements(heap)
    {
      if root != NULL {
        ShapedStocked(Abs(heap.mem, root, height), degree);
      }
      it := new Iteration.Iter(heap.mem, degree, root, height);
    }

    /** The first element the iterator returns is the one `btree_first`
        returns. */
    method FirstAgrees(heap: Heap) returns (a: Option<int>, b: Option<int>)
      requires Valid(heap) && height < 511
      ensures a == b
    {
      a := First(heap);
      var it := Iterate(heap);
      b := it.Next(heap.mem, degree, root, height);
    }
  }
}
