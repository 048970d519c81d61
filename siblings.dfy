/**
 * Two adjacent live children `y = children[i]` and `z = children[i+1]` of a
 * node `x` whose records are rewritten together, as the merge and the two
 * borrowing primitives of src/btree.c do: the old children of `y` and `z`,
 * `G = Kids(y) + Kids(z)`, are shared out again between the new records.
 */
module Siblings {
  import opened Model
  import opened Memory
  import opened Surgery
  import opened Graft

  /** The facts about `y` and `z` that follow from `x` being well formed. */
  lemma SiblingFacts(mem: Mem, t: int, x: Ptr, i: int, h: nat) returns (y: Ptr, z: Ptr)
    requires h > 0 && Wf(mem, t, x, h) && 0 <= i && i + 1 < |Kids(mem[x])|
    ensures y == Kids(mem[x])[i] && z == Kids(mem[x])[i + 1]
    ensures y in mem && z in mem && y != z && x != y && x != z && y != NULL && z != NULL
    ensures Wf(mem, t, y, h - 1) && Wf(mem, t, z, h - 1)
    ensures Reach(mem, y, h - 1) !! Reach(mem, z, h - 1)
    ensures x !in Reach(mem, y, h - 1) && x !in Reach(mem, z, h - 1)
    ensures Reach(mem, y, h - 1) <= mem.Keys && Reach(mem, z, h - 1) <= mem.Keys
  {
    var ks := Kids(mem[x]);
    y, z := ks[i], ks[i + 1];
    KidReach(mem, t, x, h, i);
    KidReach(mem, t, x, h, i + 1);
    KidsApart(mem, t, x, h, i, i + 1);
    ReachKeys(mem, t, y, h - 1);
    ReachKeys(mem, t, z, h - 1);
  }

  /** The children of `y` followed by those of `z` form a forest, whose
      subtrees are those of `y` and `z` without `y` and `z` themselves. */
  lemma PairForest(mem: Mem, t: int, y: Ptr, z: Ptr, h: nat)
    requires h > 0 && Wf(mem, t, y, h) && Wf(mem, t, z, h) && Reach(mem, y, h) !! Reach(mem, z, h)
    ensures Forest(mem, t, Kids(mem[y]) + Kids(mem[z]), h - 1)
    ensures Abses(mem, Kids(mem[y]) + Kids(mem[z]), h - 1) == Abs(mem, y, h).children + Abs(mem, z, h).children
    ensures Reach(mem, y, h) + Reach(mem, z, h) == {y, z} + Union(Reaches(mem, Kids(mem[y]) + Kids(mem[z]), h - 1))
    ensures y !in Union(Reaches(mem, Kids(mem[y]) + Kids(mem[z]), h - 1))
    ensures z !in Union(Reaches(mem, Kids(mem[y]) + Kids(mem[z]), h - 1))
  {
    var a, b := Kids(mem[y]), Kids(mem[z]);
    WfForest(mem, t, y, h);
    WfForest(mem, t, z, h);
    ReachOf(mem, t, y, h);
    ReachOf(mem, t, z, h);
    AbsOf(mem, y, h);
    AbsOf(mem, z, h);
    ReachKeys(mem, t, y, h);
    ReachKeys(mem, t, z, h);
    PairSets(y, z, Reach(mem, y, h), Reach(mem, z, h), Union(Reaches(mem, a, h - 1)), Union(Reaches(mem, b, h - 1)));
    ForestPair(mem, t, a, b, h - 1);
  }

  /** Two forests at disjoint addresses make one. */
  lemma ForestPair(mem: Mem, t: int, a: seq<Ptr>, b: seq<Ptr>, h: nat)
    requires Forest(mem, t, a, h) && Forest(mem, t, b, h)
    requires Union(Reaches(mem, a, h)) !! Union(Reaches(mem, b, h))
    ensures Forest(mem, t, a + b, h)
    ensures Abses(mem, a + b, h) == Abses(mem, a, h) + Abses(mem, b, h)
    ensures Union(Reaches(mem, a + b, h)) == Union(Reaches(mem, a, h)) + Union(Reaches(mem, b, h))
  {
    Joins(mem, a, b, h);
    UnionAppend(Reaches(mem, a, h), Reaches(mem, b, h));
    ApartConcat(Reaches(mem, a, h), Reaches(mem, b, h));
    forall j | 0 <= j < |a + b| ensures Wf(mem, t, (a + b)[j], h) {
      if j >= |a| {
        assert (a + b)[j] == b[j - |a|];
      }
    }
  }

  /** The set algebra behind `PairForest`. */
  lemma PairSets(y: Ptr, z: Ptr, Ry: set<Ptr>, Rz: set<Ptr>, Ua: set<Ptr>, Ub: set<Ptr>)
    requires Ry == {y} + Ua && Rz == {z} + Ub && Ry !! Rz && y !in Ua && z !in Ub
    ensures Ry + Rz == {y, z} + (Ua + Ub) && y !in Ua + Ub && z !in Ua + Ub && Ua !! Ub
  {
  }

  /** The set algebra of the block `[i, i+2)` of the disjoint subtrees `ss`
      below `x`, whose subtree `R` lies in `K`. */
  lemma BlockSets(ss: seq<set<Ptr>>, i: int, R: set<Ptr>, K: set<Ptr>, x: Ptr, y: Ptr, z: Ptr)
    requires Apart(ss) && 0 <= i && i + 1 < |ss| && R == {x} + Union(ss) && R <= K && x !in Union(ss)
    requires y in ss[i] && z in ss[i + 1]
    ensures Union(ss[..i]) + Union(ss[i + 2..]) <= K - {x, y, z}
    ensures Union(ss[i..i + 2]) == ss[i] + ss[i + 1]
    ensures Union(ss[i..i + 2]) !! Union(ss[..i]) + Union(ss[i + 2..])
    ensures Union(ss) == Union(ss[..i]) + Union(ss[i..i + 2]) + Union(ss[i + 2..])
  {
    UnionThree(ss, i, i + 2);
    assert ss[i..i + 2] == [ss[i], ss[i + 1]];
    UnionPair(ss[i], ss[i + 1]);
    BlockAlone(ss, i, i + 2);
  }

  /** A member of a block of a disjoint family is outside the rest of it. */
  lemma BlockAlone(ss: seq<set<Ptr>>, lo: int, hi: int)
    requires Apart(ss) && 0 <= lo <= hi <= |ss|
    ensures Union(ss[lo..hi]) !! Union(ss[..lo]) + Union(ss[hi..])
  {
    ApartHalves(ss, lo);
    ApartHalves(ss, hi);
    UnionTwo(ss[lo..], hi - lo);
    assert ss[lo..][..hi - lo] == ss[lo..hi] && ss[lo..][hi - lo..] == ss[hi..];
    UnionTwo(ss[..hi], lo);
    assert ss[..hi][..lo] == ss[..lo] && ss[..hi][lo..] == ss[lo..hi];
  }

  /** The new records of `y` and `z` share out `G = Kids(y) + Kids(z)` at `k`
      and read as a forest over the old subtrees of `y` and `z`. */
  lemma SharePair(mem: Mem, mem': Mem, t: int, x: Ptr, h: nat, y: Ptr, z: Ptr, k: int)
    requires h > 0 && Wf(mem, t, y, h - 1) && Wf(mem, t, z, h - 1) && Reach(mem, y, h - 1) !! Reach(mem, z, h - 1)
    requires 0 <= k <= |Abs(mem, y, h - 1).children + Abs(mem, z, h - 1).children|
    requires x !in Reach(mem, y, h - 1) && x !in Reach(mem, z, h - 1)
    requires Reach(mem, y, h - 1) <= mem.Keys && Reach(mem, z, h - 1) <= mem.Keys
    requires y in mem' && z in mem' && Agree(mem, mem', mem.Keys - {x, y, z})
    requires Fits(mem'[y], t, h - 1) && Fits(mem'[z], t, h - 1)
    requires h == 1 ==> k == 0
    requires h > 1 ==> 0 <= k <= |Kids(mem[y]) + Kids(mem[z])| &&
                       Kids(mem'[y]) == (Kids(mem[y]) + Kids(mem[z]))[..k] &&
                       Kids(mem'[z]) == (Kids(mem[y]) + Kids(mem[z]))[k..]
    ensures Forest(mem', t, [y, z], h - 1)
    ensures Abses(mem', [y, z], h - 1) ==
            [Node(Keys(mem'[y]), (Abs(mem, y, h - 1).children + Abs(mem, z, h - 1).children)[..k]),
             Node(Keys(mem'[z]), (Abs(mem, y, h - 1).children + Abs(mem, z, h - 1).children)[k..])]
    ensures Union(Reaches(mem', [y, z], h - 1)) == Reach(mem, y, h - 1) + Reach(mem, z, h - 1)
  {
    var G: seq<Ptr> := [];
    if h > 1 {
      G := Kids(mem[y]) + Kids(mem[z]);
      PairForest(mem, t, y, z, h - 1);
      var U := Union(Reaches(mem, G, h - 2));
      Inside(U, Reach(mem, y, h - 1), Reach(mem, z, h - 1), mem.Keys, x, y, z);
      AgreeSub(mem, mem', mem.Keys - {x, y, z}, U);
    } else {
      assert Reach(mem, y, 0) == {y} && Reach(mem, z, 0) == {z};
    }
    RegraftPair(mem, mem', t, h - 1, G, k, y, z);
  }

  lemma Inside(U: set<Ptr>, Ry: set<Ptr>, Rz: set<Ptr>, K: set<Ptr>, x: Ptr, y: Ptr, z: Ptr)
    requires Ry + Rz == {y, z} + U && y !in U && z !in U && x !in Ry && x !in Rz && Ry <= K && Rz <= K
    ensures U <= K - {x, y, z}
  {
  }

  /** `x`, `y` and `z` rewritten so that `x` keeps its live children and `y`
      and `z` share out `Kids(y) + Kids(z)` at `k` (the borrowing primitives):
      `x` is well formed over the same addresses, with the new values of `y`
      and `z`, read from `C`, the old children of `y` and `z`, in place of
      the old. */
  lemma RotateDone(mem: Mem, mem': Mem, t: int, x: Ptr, i: int, h: nat, y: Ptr, z: Ptr, k: int, C: seq<Tree>)
    requires h > 0 && Wf(mem, t, x, h) && 0 <= i && i + 1 < |Kids(mem[x])|
    requires y == Kids(mem[x])[i] && z == Kids(mem[x])[i + 1] && y in mem && z in mem
    requires x in mem' && y in mem' && z in mem' && Agree(mem, mem', mem.Keys - {x, y, z})
    requires Fits(mem'[x], t, h) && Kids(mem'[x]) == Kids(mem[x])
    requires Fits(mem'[y], t, h - 1) && Fits(mem'[z], t, h - 1)
    requires C == Abs(mem, y, h - 1).children + Abs(mem, z, h - 1).children && 0 <= k <= |C|
    requires h == 1 ==> k == 0
    requires h > 1 ==> k <= |Kids(mem[y]) + Kids(mem[z])| &&
                       Kids(mem'[y]) == (Kids(mem[y]) + Kids(mem[z]))[..k] &&
                       Kids(mem'[z]) == (Kids(mem[y]) + Kids(mem[z]))[k..]
    ensures Wf(mem', t, x, h) && Reach(mem', x, h) == Reach(mem, x, h)
    ensures Abs(mem', x, h) ==
            Node(Keys(mem'[x]), Abses(mem, Kids(mem[x]), h - 1)[..i] +
                 [Node(Keys(mem'[y]), C[..k]), Node(Keys(mem'[z]), C[k..])] +
                 Abses(mem, Kids(mem[x]), h - 1)[i + 2..])
  {
    var ks := Kids(mem[x]);
    var ss := Reaches(mem, ks, h - 1);
    var y0, z0 := SiblingFacts(mem, t, x, i, h);
    SharePair(mem, mem', t, x, h, y, z, k);
    BlockSwap(mem, mem', t, x, i, h, y, z, [y, z]);
    Around(ks, i);
    Rebuild(mem, mem', t, x, h, ks, ss, i, i + 2, [y, z], {});
  }

  /** The block `[i, i+2)` of the live children of `x`, whose children `y`
      and `z` are rewritten into `mid`, meets the hypotheses of
      `RebuildForest`. */
  lemma BlockSwap(mem: Mem, mem': Mem, t: int, x: Ptr, i: int, h: nat, y: Ptr, z: Ptr, mid: seq<Ptr>)
    requires h > 0 && Wf(mem, t, x, h) && 0 <= i && i + 1 < |Kids(mem[x])|
    requires y == Kids(mem[x])[i] && z == Kids(mem[x])[i + 1] && Agree(mem, mem', mem.Keys - {x, y, z})
    requires Forest(mem', t, mid, h - 1) && Union(Reaches(mem', mid, h - 1)) <= Reach(mem, y, h - 1) + Reach(mem, z, h - 1)
    ensures Swap(mem, mem', t, Kids(mem[x]), Reaches(mem, Kids(mem[x]), h - 1), h - 1, i, i + 2, mid, {})
    ensures x !in Union(Reaches(mem, Kids(mem[x]), h - 1))
    ensures Reach(mem, x, h) == {x} + Union(Reaches(mem, Kids(mem[x]), h - 1))
    ensures Union(Reaches(mem, Kids(mem[x]), h - 1)[i..i + 2]) == Reach(mem, y, h - 1) + Reach(mem, z, h - 1)
    ensures Union(Reaches(mem, Kids(mem[x]), h - 1)[i..i + 2]) !!
            Union(Reaches(mem, Kids(mem[x]), h - 1)[..i]) + Union(Reaches(mem, Kids(mem[x]), h - 1)[i + 2..])
  {
    var ks := Kids(mem[x]);
    var ss := Reaches(mem, ks, h - 1);
    WfForest(mem, t, x, h);
    ReachOf(mem, t, x, h);
    ReachKeys(mem, t, x, h);
    ReachSelf(mem, y, h - 1);
    ReachSelf(mem, z, h - 1);
    BlockSets(ss, i, Reach(mem, x, h), mem.Keys, x, y, z);
    AgreeSub(mem, mem', mem.Keys - {x, y, z}, Union(ss[..i]) + Union(ss[i + 2..]));
  }

  /** A sequence is its prefix, its two elements at `i` and its suffix. */
  lemma Around<T>(s: seq<T>, i: int)
    requires 0 <= i && i + 1 < |s|
    ensures s[..i] + [s[i], s[i + 1]] + s[i + 2..] == s
  {
    assert s[i..i + 2] == [s[i], s[i + 1]];
    assert s[..i] + s[i..i + 2] + s[i + 2..] == s;
  }

  /** The new record of `y` takes over all of `G = Kids(y) + Kids(z)`: `y`
      alone reads as a forest over the old subtrees of `y` and `z`, less `z`. */
  lemma FusePair(mem: Mem, mem': Mem, t: int, x: Ptr, h: nat, y: Ptr, z: Ptr)
    requires h > 0 && Wf(mem, t, y, h - 1) && Wf(mem, t, z, h - 1) && Reach(mem, y, h - 1) !! Reach(mem, z, h - 1)
    requires x !in Reach(mem, y, h - 1) && x !in Reach(mem, z, h - 1)
    requires Reach(mem, y, h - 1) <= mem.Keys && Reach(mem, z, h - 1) <= mem.Keys
    requires y in mem' && Agree(mem, mem', mem.Keys - {x, y, z}) && Fits(mem'[y], t, h - 1)
    requires h > 1 ==> Kids(mem'[y]) == Kids(mem[y]) + Kids(mem[z])
    ensures Forest(mem', t, [y], h - 1)
    ensures Abses(mem', [y], h - 1) ==
            [Node(Keys(mem'[y]), Abs(mem, y, h - 1).children + Abs(mem, z, h - 1).children)]
    ensures Union(Reaches(mem', [y], h - 1)) == Reach(mem, y, h - 1) + Reach(mem, z, h - 1) - {z}
  {
    if h > 1 {
      FuseInternal(mem, mem', t, x, h, y, z);
    } else {
      assert Reach(mem, y, 0) == {y} && Reach(mem, z, 0) == {z};
      assert Abs(mem, y, 0).children == [] && Abs(mem, z, 0).children == [];
      Regraft(mem, mem', t, y, 0, []);
      assert Abs(mem', y, 0) == Node(Keys(mem'[y]), Abs(mem, y, 0).children + Abs(mem, z, 0).children);
      assert Reach(mem', y, 0) == Reach(mem, y, 0) + Reach(mem, z, 0) - {z};
    }
    Single(mem', t, y, h - 1);
  }

  /** `FusePair` for internal `y` and `z`. */
  lemma FuseInternal(mem: Mem, mem': Mem, t: int, x: Ptr, h: nat, y: Ptr, z: Ptr)
    requires h > 1 && Wf(mem, t, y, h - 1) && Wf(mem, t, z, h - 1) && Reach(mem, y, h - 1) !! Reach(mem, z, h - 1)
    requires x !in Reach(mem, y, h - 1) && x !in Reach(mem, z, h - 1)
    requires Reach(mem, y, h - 1) <= mem.Keys && Reach(mem, z, h - 1) <= mem.Keys
    requires y in mem' && Agree(mem, mem', mem.Keys - {x, y, z}) && Fits(mem'[y], t, h - 1)
    requires Kids(mem'[y]) == Kids(mem[y]) + Kids(mem[z])
    ensures Wf(mem', t, y, h - 1)
    ensures Abs(mem', y, h - 1) == Node(Keys(mem'[y]), Abs(mem, y, h - 1).children + Abs(mem, z, h - 1).children)
    ensures Reach(mem', y, h - 1) == Reach(mem, y, h - 1) + Reach(mem, z, h - 1) - {z}
  {
    var G := Kids(mem[y]) + Kids(mem[z]);
    PairForest(mem, t, y, z, h - 1);
    var U := Union(Reaches(mem, G, h - 2));
    Inside(U, Reach(mem, y, h - 1), Reach(mem, z, h - 1), mem.Keys, x, y, z);
    AgreeSub(mem, mem', mem.Keys - {x, y, z}, U);
    Regraft(mem, mem', t, y, h - 1, G);
    ReachSelf(mem, y, h - 1);
    ReachSelf(mem, z, h - 1);
    Less(y, z, Reach(mem, y, h - 1), Reach(mem, z, h - 1), U);
  }

  lemma Less(y: Ptr, z: Ptr, Ry: set<Ptr>, Rz: set<Ptr>, U: set<Ptr>)
    requires Ry + Rz == {y, z} + U && z !in U && y != z
    ensures {y} + U == Ry + Rz - {z}
  {
  }

  /** A well-formed node alone is a forest. */
  lemma Single(mem: Mem, t: int, p: Ptr, h: nat)
    requires Wf(mem, t, p, h)
    ensures Forest(mem, t, [p], h)
    ensures Abses(mem, [p], h) == [Abs(mem, p, h)] && Union(Reaches(mem, [p], h)) == Reach(mem, p, h)
  {
    assert Reaches(mem, [p], h) == [Reach(mem, p, h)];
    UnionOne(Reach(mem, p, h));
  }

  /** `x` rewritten without its child `z`, and `y` taking over the children of
      `y` and `z` (the merge): `x` is well formed over the same addresses less
      `z`, with the new value of `y` in place of the old `y` and `z`. */
  lemma FuseDone(mem: Mem, mem': Mem, t: int, x: Ptr, i: int, h: nat, y: Ptr, z: Ptr, C: seq<Tree>)
    requires h > 0 && Wf(mem, t, x, h) && 0 <= i && i + 1 < |Kids(mem[x])|
    requires y == Kids(mem[x])[i] && z == Kids(mem[x])[i + 1] && y in mem && z in mem
    requires x in mem' && y in mem' && Agree(mem, mem', mem.Keys - {x, y, z})
    requires Fits(mem'[x], t, h) && Kids(mem'[x]) == Kids(mem[x])[..i] + [y] + Kids(mem[x])[i + 2..]
    requires Fits(mem'[y], t, h - 1) && (h > 1 ==> Kids(mem'[y]) == Kids(mem[y]) + Kids(mem[z]))
    requires C == Abs(mem, y, h - 1).children + Abs(mem, z, h - 1).children
    ensures Wf(mem', t, x, h) && Reach(mem', x, h) == Reach(mem, x, h) - {z}
    ensures Abs(mem', x, h) ==
            Node(Keys(mem'[x]), Abses(mem, Kids(mem[x]), h - 1)[..i] + [Node(Keys(mem'[y]), C)] +
                                Abses(mem, Kids(mem[x]), h - 1)[i + 2..])
  {
    var ks := Kids(mem[x]);
    var ss := Reaches(mem, ks, h - 1);
    var y0, z0 := SiblingFacts(mem, t, x, i, h);
    FusePair(mem, mem', t, x, h, y, z);
    BlockSwap(mem, mem', t, x, i, h, y, z, [y]);
    Rebuild(mem, mem', t, x, h, ks, ss, i, i + 2, [y], {});
    ReachSelf(mem, z, h - 1);
    Without(x, z, Union(ss[..i]), Union(ss[i..i + 2]), Union(ss[i + 2..]), Union(Reaches(mem', [y], h - 1)));
  }

  lemma Without(x: Ptr, z: Ptr, A: set<Ptr>, B: set<Ptr>, C: set<Ptr>, M: set<Ptr>)
    requires B !! A + C && z in B && M == B - {z} && x != z
    ensures {x} + (A + M + C) == {x} + (A + B + C) - {z}
  {
  }
}
