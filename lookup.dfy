/**
 * `node_search` and `btree_search` of src/btree.c: the scan of a node's items
 * from the left for the first one the key is not greater than, and the
 * descent into the child at that index when the item there is not the key.
 * On a subtree whose in-order sequence is sorted the search finds the key
 * exactly when it is in the subtree.
 */
module Lookup {
  import opened Model
  import opened Memory
  import Nodes

  /** The index both scans of src/btree.c stop at: the first item that the
      key is not greater than (`cmp(key, item) <= 0`), or `n` if there is
      none. */
  function Seek(ks: seq<int>, k: int): (r: nat)
    ensures r <= |ks|
    ensures forall j :: 0 <= j < r ==> ks[j] < k
    ensures r < |ks| ==> k <= ks[r]
  {
    if ks == [] || k <= ks[0] then 0 else 1 + Seek(ks[1..], k)
  }

  /** In a sorted sequence the key occurs exactly when it is where `Seek`
      stops. */
  lemma SeekSorted(ks: seq<int>, k: int)
    requires Sorted(ks)
    ensures k in ks <==> Seek(ks, k) < |ks| && ks[Seek(ks, k)] == k
  {
    var i := Seek(ks, k);
    if !(i < |ks| && ks[i] == k) {
      forall j | i <= j < |ks| ensures k < ks[j] {
        assert ks[i] <= ks[j];
      }
    }
  }

  /** Pieces around a middle one, all below and all above the key: the key
      occurs in the whole exactly when it occurs in the middle. */
  lemma Outside(P: seq<int>, C: seq<int>, Q: seq<int>, k: int)
    requires Sorted(P + C + Q)
    requires P != [] ==> P[|P| - 1] < k
    requires Q != [] ==> k < Q[0]
    ensures k in P + C + Q <==> k in C
  {
    var F := P + C + Q;
    forall j | 0 <= j < |P| ensures F[j] < k {
      assert F[j] <= F[|P| - 1];
    }
    forall j | |P| + |C| <= j < |F| ensures k < F[j] {
      assert F[|P| + |C|] <= F[j];
    }
  }

  /** A key that is not the item `Seek` stops at, in an internal node with a
      sorted in-order sequence, can only be in the child at that index, whose
      own sequence is sorted. */
  lemma SeekChild(m: Tree, k: int)
    requires m.children != [] && |m.children| == |m.items| + 1 && Sorted(Flat(m))
    requires !(Seek(m.items, k) < |m.items| && m.items[Seek(m.items, k)] == k)
    ensures k in Flat(m) <==> k in Flat(m.children[Seek(m.items, k)])
    ensures Sorted(Flat(m.children[Seek(m.items, k)]))
  {
    var i := Seek(m.items, k);
    var P := Front(m.children[..i], m.items[..i]);
    var C := Flat(m.children[i]);
    var Q := Back(m.children[i + 1..], m.items[i..]);
    FlatAt(m, i);
    Piece(P, C, Q);
    if i > 0 {
      FrontEnds(m.children[..i], m.items[..i]);
    }
    if i < |m.items| {
      assert Q[0] == m.items[i];
    }
    Outside(P, C, Q, k);
  }

  /** Sorted sequences have sorted pieces. */
  lemma Piece(P: seq<int>, C: seq<int>, Q: seq<int>)
    requires Sorted(P + C + Q)
    ensures Sorted(C)
  {
    forall a, b | 0 <= a < b < |C| ensures C[a] <= C[b] {
      assert C[a] == (P + C + Q)[|P| + a] && C[b] == (P + C + Q)[|P| + b];
    }
  }

  /** What precedes a child in its parent's sequence ends with the item
      just left of the child. */
  lemma {:induction false} FrontEnds(cs: seq<Tree>, ks: seq<int>)
    requires |cs| == |ks| > 0
    ensures |Front(cs, ks)| > 0 && Front(cs, ks)[|Front(cs, ks)| - 1] == ks[|ks| - 1]
    decreases |cs|
  {
    if |cs| > 1 {
      FrontEnds(cs[1..], ks[1..]);
    }
  }

  // ---------------------------------------------------------------------
  // node_search on the memory
  // ---------------------------------------------------------------------

  /** Where a found item lives: its node and its index in the node's items
      (the C function returns the address of that slot). */
  datatype Place = Place(node: Ptr, index: int)

  /** A subtree `node_search` may be called on: well formed, every internal
      node with one child more than it has items. */
  ghost predicate Searchable(mem: Mem, t: int, x: Ptr, h: nat)
  {
    Wf(mem, t, x, h) && WellFormed(Abs(mem, x, h))
  }

  /** `node_search(x, k)`: the slot of the first item of the node that `k`
      is not greater than, when it is `k`; otherwise NULL at a leaf, and the
      search of the child at that index in an internal node. The scan's
      `last_cmp_res` is only read when an item was compared. */
  ghost function NodeSearch(mem: Mem, t: int, x: Ptr, k: int, h: nat): (r: Option<Place>)
    requires Searchable(mem, t, x, h)
    decreases h
    ensures r.Some? ==> r.value.node in Reach(mem, x, h) && r.value.node in mem
    ensures r.Some? ==> 0 <= r.value.index < mem[r.value.node].n <= |mem[r.value.node].items|
    ensures r.Some? ==> mem[r.value.node].items[r.value.index] == k
  {
    var i := Seek(Keys(mem[x]), k);
    if i < mem[x].n && mem[x].items[i] == k then Some(Place(x, i))
    else if mem[x].children == [] then None
    else
      SearchStep(mem, t, x, h, i);
      var r := NodeSearch(mem, t, mem[x].children[i], k, h - 1);
      KidReach(mem, t, x, h, i);
      r
  }

  /** The child `node_search` descends into is a live one that it may be
      called on. */
  lemma SearchStep(mem: Mem, t: int, x: Ptr, h: nat, i: int)
    requires Searchable(mem, t, x, h) && mem[x].children != [] && 0 <= i <= |Keys(mem[x])|
    ensures h > 0 && 0 <= i < |Kids(mem[x])| && i < |mem[x].children| && mem[x].children[i] == Kids(mem[x])[i]
    ensures Searchable(mem, t, mem[x].children[i], h - 1)
    ensures i < |Abs(mem, x, h).children| && Abs(mem, mem[x].children[i], h - 1) == Abs(mem, x, h).children[i]
  {
    Nodes.Arity(mem, t, x, h);
    var a := Abs(mem, x, h);
    assert |a.children| == |a.items| + 1;
    AbsOf(mem, x, h);
    assert a.children[i] == Abs(mem, Kids(mem[x])[i], h - 1);
    assert WellFormed(a.children[i]);
    assert Wf(mem, t, Kids(mem[x])[i], h - 1);
  }

  /** On a subtree with a sorted in-order sequence, `node_search` finds a
      slot exactly when the key is in the subtree. */
  lemma {:induction false} SearchFinds(mem: Mem, t: int, x: Ptr, k: int, h: nat)
    requires Searchable(mem, t, x, h) && Sorted(Flat(Abs(mem, x, h)))
    ensures NodeSearch(mem, t, x, k, h).Some? <==> k in Flat(Abs(mem, x, h))
    decreases h
  {
    var a := Abs(mem, x, h);
    Nodes.Arity(mem, t, x, h);
    var i := Seek(Keys(mem[x]), k);
    assert a.items == Keys(mem[x]);
    if i < mem[x].n && mem[x].items[i] == k {
      ItemInFlat(a, i);
    } else if mem[x].children == [] {
      SeekSorted(a.items, k);
    } else {
      SearchStep(mem, t, x, h, i);
      SeekChild(a, k);
      SearchFinds(mem, t, mem[x].children[i], k, h - 1);
    }
  }
}
