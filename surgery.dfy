/**
 * Lemmas about rewriting a few node records of a well-formed tree: a block of
 * live children replaced by subtrees rebuilt from the old ones, the rest of
 * the tree kept by the store. Every structural operation of src/btree.c
 * ends with such a rewrite.
 */
module Surgery {
  import opened Model
  import opened Memory

  /** A prefix of a forest is a forest. */
  lemma ForestTake(mem: Mem, t: int, ks: seq<Ptr>, h: nat, k: int)
    requires Forest(mem, t, ks, h) && 0 <= k <= |ks|
    ensures Forest(mem, t, ks[..k], h)
    ensures Reaches(mem, ks[..k], h) == Reaches(mem, ks, h)[..k]
    ensures Abses(mem, ks[..k], h) == Abses(mem, ks, h)[..k]
  {
    var ss := Reaches(mem, ks, h);
    assert Reaches(mem, ks[..k], h) == ss[..k];
    forall i, j | 0 <= i < j < k ensures ss[..k][i] !! ss[..k][j] {
      assert ss[i] !! ss[j];
    }
  }

  /** A suffix of a forest is a forest. */
  lemma ForestDrop(mem: Mem, t: int, ks: seq<Ptr>, h: nat, k: int)
    requires Forest(mem, t, ks, h) && 0 <= k <= |ks|
    ensures Forest(mem, t, ks[k..], h)
    ensures Reaches(mem, ks[k..], h) == Reaches(mem, ks, h)[k..]
    ensures Abses(mem, ks[k..], h) == Abses(mem, ks, h)[k..]
  {
    var ss := Reaches(mem, ks, h);
    assert Reaches(mem, ks[k..], h) == ss[k..];
    forall i, j | 0 <= i < j < |ks| - k ensures ss[k..][i] !! ss[k..][j] {
      assert ss[k + i] !! ss[k + j];
    }
  }

  /** The subtrees of a forest left and right of `[lo, hi)` survive a store
      that keeps their addresses. */
  lemma KeepSides(mem: Mem, mem': Mem, t: int, ks: seq<Ptr>, h: nat, lo: int, hi: int)
    requires Forest(mem, t, ks, h) && 0 <= lo <= hi <= |ks|
    requires Agree(mem, mem', Union(Reaches(mem, ks, h)[..lo]) + Union(Reaches(mem, ks, h)[hi..]))
    ensures Forest(mem', t, ks[..lo], h) && Forest(mem', t, ks[hi..], h)
    ensures Reaches(mem', ks[..lo], h) == Reaches(mem, ks, h)[..lo]
    ensures Reaches(mem', ks[hi..], h) == Reaches(mem, ks, h)[hi..]
    ensures Abses(mem', ks[..lo], h) == Abses(mem, ks, h)[..lo]
    ensures Abses(mem', ks[hi..], h) == Abses(mem, ks, h)[hi..]
  {
    ForestTake(mem, t, ks, h, lo);
    ForestDrop(mem, t, ks, h, hi);
    FrameForest(mem, mem', t, ks[..lo], h);
    FrameForest(mem, mem', t, ks[hi..], h);
  }

  /** Three runs of subtrees at pairwise disjoint addresses form a forest. */
  lemma ForestJoin(mem: Mem, t: int, a: seq<Ptr>, b: seq<Ptr>, c: seq<Ptr>, h: nat)
    requires forall j :: 0 <= j < |a| ==> Wf(mem, t, a[j], h)
    requires forall j :: 0 <= j < |b| ==> Wf(mem, t, b[j], h)
    requires forall j :: 0 <= j < |c| ==> Wf(mem, t, c[j], h)
    requires Apart(Reaches(mem, a, h) + Reaches(mem, b, h) + Reaches(mem, c, h))
    ensures Forest(mem, t, a + b + c, h)
    ensures Reaches(mem, a + b + c, h) == Reaches(mem, a, h) + Reaches(mem, b, h) + Reaches(mem, c, h)
    ensures Abses(mem, a + b + c, h) == Abses(mem, a, h) + Abses(mem, b, h) + Abses(mem, c, h)
  {
    Joins(mem, a, b, h);
    Joins(mem, a + b, c, h);
    forall j | 0 <= j < |a + b + c| ensures Wf(mem, t, (a + b + c)[j], h) {
      if j < |a| {
        assert (a + b + c)[j] == a[j];
      } else if j < |a| + |b| {
        assert (a + b + c)[j] == b[j - |a|];
      } else {
        assert (a + b + c)[j] == c[j - |a| - |b|];
      }
    }
  }

  /** The forest `ks` after its block `ks[lo..hi)` is replaced by `mid`, whose
      subtrees are built from the old block and from addresses `extra` outside
      the whole forest, while `mem'` keeps the subtrees left and right of the
      block. */
  /** The hypotheses of `RebuildForest`. */
  ghost predicate Swap(mem: Mem, mem': Mem, t: int, ks: seq<Ptr>, ss: seq<set<Ptr>>, h: nat,
                       lo: int, hi: int, mid: seq<Ptr>, extra: set<Ptr>)
  {
    Forest(mem, t, ks, h) && ss == Reaches(mem, ks, h) && 0 <= lo <= hi <= |ks| &&
    Agree(mem, mem', Union(ss[..lo]) + Union(ss[hi..])) &&
    Forest(mem', t, mid, h) && Union(Reaches(mem', mid, h)) <= Union(ss[lo..hi]) + extra &&
    extra !! Union(ss)
  }

  /** Swapping the subtrees `lo..hi` for `mid` keeps a forest whose
      other address sets are as they were. */
  lemma RebuildForest(mem: Mem, mem': Mem, t: int, ks: seq<Ptr>, ss: seq<set<Ptr>>, h: nat,
                       lo: int, hi: int, mid: seq<Ptr>, extra: set<Ptr>)
    requires Swap(mem, mem', t, ks, ss, h, lo, hi, mid, extra)
    ensures Forest(mem', t, ks[..lo] + mid + ks[hi..], h)
    ensures Reaches(mem', ks[..lo] + mid + ks[hi..], h) == ss[..lo] + Reaches(mem', mid, h) + ss[hi..]
    ensures Abses(mem', ks[..lo] + mid + ks[hi..], h) == Abses(mem, ks, h)[..lo] + Abses(mem', mid, h) + Abses(mem, ks, h)[hi..]
    ensures Union(Reaches(mem', ks[..lo] + mid + ks[hi..], h)) == Union(ss[..lo]) + Union(Reaches(mem', mid, h)) + Union(ss[hi..])
    ensures Union(Reaches(mem', ks[..lo] + mid + ks[hi..], h)) <= Union(ss) + extra
  {
    UnionThree(ss, lo, hi);
    KeepSides(mem, mem', t, ks, h, lo, hi);
    ApartSwap(ss, lo, hi, Reaches(mem', mid, h), extra);
    ForestJoin(mem', t, ks[..lo], mid, ks[hi..], h);
  }

  /** A union of a sequence split into three blocks. */
  lemma UnionThree(ss: seq<set<Ptr>>, lo: int, hi: int)
    requires 0 <= lo <= hi <= |ss|
    ensures Union(ss) == Union(ss[..lo]) + Union(ss[lo..hi]) + Union(ss[hi..])
  {
    UnionTwo(ss, hi);
    UnionTwo(ss[..hi], lo);
    assert ss[..hi][..lo] == ss[..lo] && ss[..hi][lo..] == ss[lo..hi];
  }

  lemma UnionTwo(ss: seq<set<Ptr>>, k: int)
    requires 0 <= k <= |ss|
    ensures Union(ss) == Union(ss[..k]) + Union(ss[k..])
  {
    assert ss[..k] + ss[k..] == ss;
    UnionAppend(ss[..k], ss[k..]);
  }

  /** The two halves of a disjoint family have disjoint unions. */
  lemma ApartHalves(ss: seq<set<Ptr>>, k: int)
    requires Apart(ss) && 0 <= k <= |ss|
    ensures Union(ss[..k]) !! Union(ss[k..])
  {
    assert ss[..k] + ss[k..] == ss;
    ApartUnions(ss[..k], ss[k..]);
  }
}
