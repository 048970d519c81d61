/**
 * The memory that the nodes of src/btree.c live in.
 *
 * A `struct node` is a `NodeRec` stored at an address (`Ptr`) of the map
 * `Heap.mem`. Its `items` buffer (`2t` slots) and its `children` buffer
 * (`2t+1` slots) are fixed-length sequences inside the record; a leaf has no
 * children buffer (the C pointer is NULL), which is the empty sequence here.
 * Address 0 is NULL and is never allocated; `Heap.next` is the next fresh
 * address, so every allocation returns an address no node has used.
 *
 * `Wf(mem, t, p, h)` says that the nodes reachable from `p` form a tree of
 * height `h` (every leaf at depth `h`) in which no node is reachable twice,
 * `Abs(mem, p, h)` is the value (module Model) of that subtree, and
 * `Reach(mem, p, h)` is the set of its addresses.
 */
module Memory {
  import opened Model

  type Ptr = int

  const NULL: Ptr := 0

  /** `struct node`: item count, child count and the two buffers. */
  datatype NodeRec = NodeRec(n: int, c: int, items: seq<int>, children: seq<Ptr>)

  type Mem = map<Ptr, NodeRec>

  /** The live items `items[0..n)`. */
  ghost function Keys(r: NodeRec): seq<int>
  {
    if 0 <= r.n <= |r.items| then r.items[..r.n] else []
  }

  /** The live children `children[0..c)`. */
  ghost function Kids(r: NodeRec): seq<Ptr>
  {
    if 0 <= r.c <= |r.children| then r.children[..r.c] else []
  }

  /** The value of the subtree at `p`, read down to height `h`. */
  ghost function Abs(mem: Mem, p: Ptr, h: nat): Tree
    decreases h, 0
  {
    if p !in mem then Node([], [])
    else if h == 0 then Node(Keys(mem[p]), [])
    else Node(Keys(mem[p]), Abses(mem, Kids(mem[p]), h - 1))
  }

  ghost function Abses(mem: Mem, ks: seq<Ptr>, h: nat): seq<Tree>
    decreases h, 1
  {
    seq(|ks|, j requires 0 <= j < |ks| => Abs(mem, ks[j], h))
  }

  /** The addresses of the subtree at `p`, read down to height `h`. */
  ghost function Reach(mem: Mem, p: Ptr, h: nat): set<Ptr>
    decreases h, 0
  {
    if p !in mem || h == 0 then {p}
    else {p} + Union(Reaches(mem, Kids(mem[p]), h - 1))
  }

  ghost function Reaches(mem: Mem, ks: seq<Ptr>, h: nat): seq<set<Ptr>>
    decreases h, 1
  {
    seq(|ks|, j requires 0 <= j < |ks| => Reach(mem, ks[j], h))
  }

  ghost function Union(ss: seq<set<Ptr>>): set<Ptr>
  {
    if ss == [] then {} else Union(ss[..|ss| - 1]) + ss[|ss| - 1]
  }

  /** The sets of `ss` are pairwise disjoint. */
  ghost predicate Apart(ss: seq<set<Ptr>>)
  {
    forall j, k :: 0 <= j < k < |ss| ==> ss[j] !! ss[k]
  }

  /** The buffers and counts of one node of height `h` fit minimum degree `t`:
      a leaf (height 0) has no children buffer, an internal node has at least
      one live child. */
  ghost predicate Fits(r: NodeRec, t: int, h: nat)
  {
    |r.items| == 2 * t && 0 <= r.n <= 2 * t &&
    (h == 0 <==> r.children == []) &&
    (r.children == [] ==> r.c == 0) &&
    (r.children != [] ==> |r.children| == 2 * t + 1 && 1 <= r.c <= 2 * t + 1)
  }

  /** The subtree at `p` is laid out in `mem` with every leaf `h` levels
      down: each record has the buffers `node_new` and `node_transition`
      give it, and the subtrees of different live children, and the node
      itself, occupy different addresses. */
  ghost predicate Wf(mem: Mem, t: int, p: Ptr, h: nat)
    decreases h
  {
    p != NULL && p in mem && Fits(mem[p], t, h) &&
    (h > 0 ==>
       (forall j :: 0 <= j < |Kids(mem[p])| ==> Wf(mem, t, Kids(mem[p])[j], h - 1)) &&
       Apart(Reaches(mem, Kids(mem[p]), h - 1)) &&
       p !in Union(Reaches(mem, Kids(mem[p]), h - 1)))
  }

  /** `mem'` holds the same records as `mem` at the addresses of `s`. */
  ghost predicate Agree(mem: Mem, mem': Mem, s: set<Ptr>)
  {
    forall q :: q in s ==> q in mem && q in mem' && mem'[q] == mem[q]
  }

  // ---------------------------------------------------------------------
  // Unions of address sets

  lemma {:induction false} UnionHas(ss: seq<set<Ptr>>, j: int)
    requires 0 <= j < |ss|
    ensures ss[j] <= Union(ss)
    decreases |ss|
  {
    if j < |ss| - 1 {
      UnionHas(ss[..|ss| - 1], j);
    }
  }

  lemma {:induction false} UnionWitness(ss: seq<set<Ptr>>, q: Ptr) returns (j: int)
    requires q in Union(ss)
    ensures 0 <= j < |ss| && q in ss[j]
    decreases |ss|
  {
    if q in ss[|ss| - 1] {
      j := |ss| - 1;
    } else {
      j := UnionWitness(ss[..|ss| - 1], q);
    }
  }

  lemma {:induction false} UnionAppend(a: seq<set<Ptr>>, b: seq<set<Ptr>>)
    ensures Union(a + b) == Union(a) + Union(b)
    decreases |b|
  {
    if b == [] {
      assert a + b == a;
    } else {
      assert (a + b)[..|a + b| - 1] == a + b[..|b| - 1];
      UnionAppend(a, b[..|b| - 1]);
    }
  }

  lemma UnionPair(a: set<Ptr>, b: set<Ptr>)
    ensures Union([a, b]) == a + b
  {
    UnionAppend([a], [b]);
    UnionOne(a);
    UnionOne(b);
  }

  lemma UnionOne(a: set<Ptr>)
    ensures Union([a]) == a
  {
    assert [a][..0] == [];
  }

  /** Every member of `Union(ss)` is in some member of `ss`, so bounds on the
      members bound the union. */
  lemma UnionWithin(ss: seq<set<Ptr>>, s: set<Ptr>)
    requires forall j :: 0 <= j < |ss| ==> ss[j] <= s
    ensures Union(ss) <= s
  {
    forall q | q in Union(ss) ensures q in s {
      var j := UnionWitness(ss, q);
    }
  }

  lemma ApartSlice(ss: seq<set<Ptr>>, lo: int, hi: int)
    requires Apart(ss) && 0 <= lo <= hi <= |ss|
    ensures Apart(ss[lo..hi])
  {
    forall j, k | 0 <= j < k < hi - lo ensures ss[lo..hi][j] !! ss[lo..hi][k] {
      assert ss[lo..hi][j] == ss[lo + j] && ss[lo..hi][k] == ss[lo + k];
    }
  }

  lemma {:induction false} UnionApartFrom(ss: seq<set<Ptr>>, s: set<Ptr>)
    requires forall j :: 0 <= j < |ss| ==> ss[j] !! s
    ensures Union(ss) !! s
    decreases |ss|
  {
    if ss != [] {
      UnionApartFrom(ss[..|ss| - 1], s);
    }
  }

  /** In a disjoint family, a prefix and the rest have disjoint unions. */
  lemma ApartUnions(a: seq<set<Ptr>>, b: seq<set<Ptr>>)
    requires Apart(a + b)
    ensures Union(a) !! Union(b)
  {
    forall k | 0 <= k < |b| ensures b[k] !! Union(a) {
      forall j | 0 <= j < |a| ensures a[j] !! b[k] {
        assert (a + b)[j] == a[j] && (a + b)[|a| + k] == b[k];
      }
      UnionApartFrom(a, b[k]);
    }
    UnionApartFrom(b, Union(a));
  }

  lemma ApartConcat(a: seq<set<Ptr>>, b: seq<set<Ptr>>)
    requires Apart(a) && Apart(b) && Union(a) !! Union(b)
    ensures Apart(a + b)
  {
    forall j, k | 0 <= j < k < |a + b| ensures (a + b)[j] !! (a + b)[k] {
      if k < |a| {
        assert (a + b)[j] == a[j] && (a + b)[k] == a[k];
      } else if |a| <= j {
        assert (a + b)[j] == b[j - |a|] && (a + b)[k] == b[k - |a|];
      } else {
        UnionHas(a, j);
        UnionHas(b, k - |a|);
        assert (a + b)[j] == a[j] && (a + b)[k] == b[k - |a|];
      }
    }
  }

  /** Replacing the block `ss[lo..hi)` of pairwise disjoint sets by a block
      `mid` of pairwise disjoint sets drawn from the old block and from
      addresses `extra` outside all of `ss` keeps the sets pairwise disjoint. */
  lemma ApartSwap(ss: seq<set<Ptr>>, lo: int, hi: int, mid: seq<set<Ptr>>, extra: set<Ptr>)
    requires Apart(ss) && 0 <= lo <= hi <= |ss|
    requires Apart(mid) && Union(mid) <= Union(ss[lo..hi]) + extra && extra !! Union(ss)
    ensures Apart(ss[..lo] + mid + ss[hi..])
    ensures Union(ss[..lo] + mid + ss[hi..]) == Union(ss[..lo]) + Union(mid) + Union(ss[hi..])
  {
    var A, B, C := ss[..lo], ss[lo..hi], ss[hi..];
    assert ss == A + B + C;
    UnionAppend(A + B, C);
    UnionAppend(A, B);
    ApartUnions(A + B, C);
    assert A + B == ss[..hi];
    ApartSlice(ss, 0, hi);
    ApartUnions(A, B);
    ApartSlice(ss, 0, lo);
    ApartSlice(ss, hi, |ss|);
    ApartConcat(A, mid);
    UnionAppend(A, mid);
    ApartConcat(A + mid, C);
    UnionAppend(A + mid, C);
  }

  // ---------------------------------------------------------------------
  // Subtrees

  /** The addresses of a well-formed subtree are allocated nodes. */
  lemma {:induction false} ReachIn(mem: Mem, t: int, p: Ptr, h: nat)
    requires Wf(mem, t, p, h)
    ensures p in Reach(mem, p, h)
    ensures forall q :: q in Reach(mem, p, h) ==> q in mem && q != NULL
    decreases h
  {
    if h > 0 {
      var ks := Kids(mem[p]);
      forall q | q in Reach(mem, p, h) ensures q in mem && q != NULL {
        if q != p {
          var j := UnionWitness(Reaches(mem, ks, h - 1), q);
          ReachIn(mem, t, ks[j], h - 1);
        }
      }
    }
  }

  /** `ReachIn` as set inclusions. */
  lemma ReachKeys(mem: Mem, t: int, p: Ptr, h: nat)
    requires Wf(mem, t, p, h)
    ensures p in Reach(mem, p, h) && Reach(mem, p, h) <= mem.Keys && NULL !in Reach(mem, p, h)
  {
    ReachIn(mem, t, p, h);
    forall q | q in Reach(mem, p, h) ensures q in mem.Keys {
    }
  }

  /** The addresses of an internal node: itself and those of its children. */
  lemma ReachOf(mem: Mem, t: int, p: Ptr, h: nat)
    requires p in mem && h > 0
    ensures Reach(mem, p, h) == {p} + Union(Reaches(mem, Kids(mem[p]), h - 1))
  {
  }

  /** Every node is among its own addresses. */
  lemma ReachSelf(mem: Mem, p: Ptr, h: nat)
    ensures p in Reach(mem, p, h)
  {
  }

  /** The value of an internal node: its items over its children's values. */
  lemma AbsOf(mem: Mem, p: Ptr, h: nat)
    requires p in mem && h > 0
    ensures Abs(mem, p, h) == Node(Keys(mem[p]), Abses(mem, Kids(mem[p]), h - 1))
  {
  }

  lemma AgreeSub(mem: Mem, mem': Mem, s: set<Ptr>, s': set<Ptr>)
    requires Agree(mem, mem', s) && s' <= s
    ensures Agree(mem, mem', s')
  {
  }

  /** The subtree of a live child lies inside the subtree of its parent. */
  lemma KidReach(mem: Mem, t: int, p: Ptr, h: nat, j: int)
    requires Wf(mem, t, p, h) && h > 0 && 0 <= j < |Kids(mem[p])|
    ensures Reach(mem, Kids(mem[p])[j], h - 1) <= Reach(mem, p, h)
    ensures p !in Reach(mem, Kids(mem[p])[j], h - 1)
  {
    UnionHas(Reaches(mem, Kids(mem[p]), h - 1), j);
  }

  /** Two different live children have disjoint subtrees. */
  lemma KidsApart(mem: Mem, t: int, p: Ptr, h: nat, j: int, k: int)
    requires Wf(mem, t, p, h) && h > 0
    requires 0 <= j < |Kids(mem[p])| && 0 <= k < |Kids(mem[p])| && j != k
    ensures Reach(mem, Kids(mem[p])[j], h - 1) !! Reach(mem, Kids(mem[p])[k], h - 1)
  {
    var ss := Reaches(mem, Kids(mem[p]), h - 1);
    if j < k {
      assert ss[j] !! ss[k];
    } else {
      assert ss[k] !! ss[j];
    }
  }

  /** A subtree depends only on the records at its own addresses. */
  lemma {:induction false} Frame(mem: Mem, mem': Mem, t: int, p: Ptr, h: nat)
    requires Wf(mem, t, p, h) && Agree(mem, mem', Reach(mem, p, h))
    ensures Wf(mem', t, p, h)
    ensures Abs(mem', p, h) == Abs(mem, p, h) && Reach(mem', p, h) == Reach(mem, p, h)
    decreases h
  {
    ReachIn(mem, t, p, h);
    if h > 0 {
      var ks := Kids(mem[p]);
      assert Kids(mem'[p]) == ks;
      forall j | 0 <= j < |ks|
        ensures Wf(mem', t, ks[j], h - 1)
        ensures Abs(mem', ks[j], h - 1) == Abs(mem, ks[j], h - 1)
        ensures Reach(mem', ks[j], h - 1) == Reach(mem, ks[j], h - 1)
      {
        KidReach(mem, t, p, h, j);
        Frame(mem, mem', t, ks[j], h - 1);
      }
      assert Reaches(mem', ks, h - 1) == Reaches(mem, ks, h - 1);
      assert Abses(mem', ks, h - 1) == Abses(mem, ks, h - 1);
    }
  }

  /** The subtrees at `ks` are well formed of height `h`, lie at different
      addresses, and are kept by `mem'`. */
  ghost predicate Forest(mem: Mem, t: int, ks: seq<Ptr>, h: nat)
  {
    (forall j :: 0 <= j < |ks| ==> Wf(mem, t, ks[j], h)) && Apart(Reaches(mem, ks, h))
  }

  /** The live children of a well-formed internal node form a forest. */
  lemma WfForest(mem: Mem, t: int, p: Ptr, h: nat)
    requires Wf(mem, t, p, h) && h > 0
    ensures Forest(mem, t, Kids(mem[p]), h - 1) && p !in Union(Reaches(mem, Kids(mem[p]), h - 1))
  {
  }

  /** `Frame` for a sequence of subtrees. */
  lemma FrameForest(mem: Mem, mem': Mem, t: int, ks: seq<Ptr>, h: nat)
    requires Forest(mem, t, ks, h) && Agree(mem, mem', Union(Reaches(mem, ks, h)))
    ensures Forest(mem', t, ks, h)
    ensures Abses(mem', ks, h) == Abses(mem, ks, h) && Reaches(mem', ks, h) == Reaches(mem, ks, h)
  {
    forall j | 0 <= j < |ks|
      ensures Wf(mem', t, ks[j], h)
      ensures Abs(mem', ks[j], h) == Abs(mem, ks[j], h) && Reach(mem', ks[j], h) == Reach(mem, ks[j], h)
    {
      UnionHas(Reaches(mem, ks, h), j);
      Frame(mem, mem', t, ks[j], h);
    }
    assert Reaches(mem', ks, h) == Reaches(mem, ks, h);
  }

  /** A node whose record is `mem[p]` and whose live children form a forest
      that does not contain it is a well-formed subtree. */
  lemma Assemble(mem: Mem, t: int, p: Ptr, h: nat)
    requires p != NULL && p in mem && Fits(mem[p], t, h)
    requires h > 0 ==> Forest(mem, t, Kids(mem[p]), h - 1) && p !in Union(Reaches(mem, Kids(mem[p]), h - 1))
    ensures Wf(mem, t, p, h)
    ensures h == 0 ==> Abs(mem, p, h) == Node(Keys(mem[p]), []) && Reach(mem, p, h) == {p}
    ensures h > 0 ==> Abs(mem, p, h) == Node(Keys(mem[p]), Abses(mem, Kids(mem[p]), h - 1))
    ensures h > 0 ==> Reach(mem, p, h) == {p} + Union(Reaches(mem, Kids(mem[p]), h - 1))
  {
  }

  /** The subtrees of a slice of a forest are the slice of its subtrees. */
  lemma Slices(mem: Mem, ks: seq<Ptr>, h: nat, lo: int, hi: int)
    requires 0 <= lo <= hi <= |ks|
    ensures Abses(mem, ks[lo..hi], h) == Abses(mem, ks, h)[lo..hi]
    ensures Reaches(mem, ks[lo..hi], h) == Reaches(mem, ks, h)[lo..hi]
  {
  }

  lemma Joins(mem: Mem, a: seq<Ptr>, b: seq<Ptr>, h: nat)
    ensures Abses(mem, a + b, h) == Abses(mem, a, h) + Abses(mem, b, h)
    ensures Reaches(mem, a + b, h) == Reaches(mem, a, h) + Reaches(mem, b, h)
  {
  }

  // ---------------------------------------------------------------------
  // The allocator

  /** The memory of the process, as far as the nodes of trees go. */
  class Heap {
    var mem: Mem
    var next: Ptr

    /** Every allocated address is below `next`, and NULL is not allocated. */
    ghost predicate Valid()
      reads this
    {
      NULL < next && forall q :: q in mem ==> NULL < q < next
    }

    constructor ()
      ensures Valid() && mem == map[] && next == 1
    {
      mem := map[];
      next := 1;
    }
  }

  /** `node_new`: a fresh leaf with `n = c = 0` and a zeroed buffer of `2t`
      items (`calloc`). */
  method NodeNew(heap: Heap, t: int) returns (p: Ptr)
    requires heap.Valid() && t >= 1
    modifies heap
    ensures heap.Valid() && p == old(heap.next) && p !in old(heap.mem) && heap.next == p + 1
    ensures heap.mem == old(heap.mem)[p := NodeRec(0, 0, seq(2 * t, _ => 0), [])]
  {
    p := heap.next;
    heap.mem := heap.mem[p := NodeRec(0, 0, seq(2 * t, _ => 0), [])];
    heap.next := heap.next + 1;
  }

  /** A write of the record of the allocated node `p` (the C code's stores
      through a node pointer). */
  method Store(heap: Heap, p: Ptr, r: NodeRec)
    requires heap.Valid() && p in heap.mem
    modifies heap
    ensures heap.Valid() && heap.next == old(heap.next)
    ensures heap.mem == old(heap.mem)[p := r]
  {
    heap.mem := heap.mem[p := r];
  }

  /** `dealloc(p)`: the record of `p` is released. */
  method Free(heap: Heap, p: Ptr)
    requires heap.Valid() && p in heap.mem
    modifies heap
    ensures heap.Valid() && heap.next == old(heap.next)
    ensures heap.mem == old(heap.mem) - {p}
  {
    heap.mem := heap.mem - {p};
  }

  /** `node_transition`: a leaf gets a children buffer of `2t+1` NULL slots
      (and still no live child); on a node that already has one it reports
      `false` and changes nothing. */
  method Transition(heap: Heap, p: Ptr, t: int) returns (ok: bool)
    requires heap.Valid() && p in heap.mem && t >= 1
    modifies heap
    ensures ok == (old(heap.mem[p]).children == [])
    ensures heap.Valid() && heap.next == old(heap.next)
    ensures ok ==> heap.mem == old(heap.mem)[p := old(heap.mem[p]).(children := seq(2 * t + 1, _ => NULL))]
    ensures !ok ==> heap.mem == old(heap.mem)
  {
    var r := heap.mem[p];
    if r.children != [] {
      return false;
    }
    var cs: seq<Ptr> := seq(2 * t + 1, _ => 0);
    var k := 0;
    while k < 2 * t + 1
      invariant 0 <= k <= 2 * t + 1 && cs == seq(2 * t + 1, _ => NULL)
    {
      cs := cs[k := NULL];
      k := k + 1;
    }
    heap.mem := heap.mem[p := r.(children := cs)];
    ok := true;
  }
}
