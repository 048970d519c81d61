/**
 * A node rebuilt over a rewritten block of its children, as every structural
 * operation of src/btree.c leaves its parent node.
 */
module Graft {
  import opened Model
  import opened Memory
  import opened Surgery

  /** A node whose new record `mem'[p]` has as live children old subtrees
      that `mem'` keeps is well formed, with those subtrees below it. */
  lemma Regraft(mem: Mem, mem': Mem, t: int, p: Ptr, h: nat, ks: seq<Ptr>)
    requires p != NULL && p in mem' && Fits(mem'[p], t, h) && Kids(mem'[p]) == ks
    requires h > 0 ==> Forest(mem, t, ks, h - 1) && p !in Union(Reaches(mem, ks, h - 1))
    requires h > 0 ==> Agree(mem, mem', Union(Reaches(mem, ks, h - 1)))
    ensures Wf(mem', t, p, h)
    ensures Abs(mem', p, h) == Node(Keys(mem'[p]), if h == 0 then [] else Abses(mem, ks, h - 1))
    ensures Reach(mem', p, h) == {p} + (if h == 0 then {} else Union(Reaches(mem, ks, h - 1)))
  {
    if h > 0 {
      FrameForest(mem, mem', t, ks, h - 1);
    }
    Assemble(mem', t, p, h);
  }

  /** `x` holds a record of an internal node of height `h` whose live
      children are `ks`. */
  ghost predicate Rooted(mem: Mem, t: int, x: Ptr, h: nat, ks: seq<Ptr>)
  {
    h > 0 && x != NULL && x in mem && Fits(mem[x], t, h) && Kids(mem[x]) == ks
  }

  /** `Assemble` for a node whose live children are known to be `ks`. */
  lemma Reattach(mem: Mem, t: int, x: Ptr, h: nat, ks: seq<Ptr>)
    requires Rooted(mem, t, x, h, ks)
    requires Forest(mem, t, ks, h - 1) && x !in Union(Reaches(mem, ks, h - 1))
    ensures Wf(mem, t, x, h)
    ensures Abs(mem, x, h) == Node(Keys(mem[x]), Abses(mem, ks, h - 1))
    ensures Reach(mem, x, h) == {x} + Union(Reaches(mem, ks, h - 1))
  {
    Assemble(mem, t, x, h);
  }

  /** The node `x`, whose old live children `ks` had the subtrees `ss`, after
      its block of live children `[lo, hi)` is replaced as in `RebuildForest`
      and its own record is rewritten. */
  lemma Rebuild(mem: Mem, mem': Mem, t: int, x: Ptr, h: nat, ks: seq<Ptr>, ss: seq<set<Ptr>>,
                 lo: int, hi: int, mid: seq<Ptr>, extra: set<Ptr>)
    requires h > 0 && Swap(mem, mem', t, ks, ss, h - 1, lo, hi, mid, extra) && x !in Union(ss) && x !in extra
    requires Rooted(mem', t, x, h, ks[..lo] + mid + ks[hi..])
    ensures Wf(mem', t, x, h)
    ensures Abs(mem', x, h) == Node(Keys(mem'[x]), Abses(mem, ks, h - 1)[..lo] + Abses(mem', mid, h - 1) + Abses(mem, ks, h - 1)[hi..])
    ensures Reach(mem', x, h) == {x} + (Union(ss[..lo]) + Union(Reaches(mem', mid, h - 1)) + Union(ss[hi..]))
    ensures Union(ss) == Union(ss[..lo]) + Union(ss[lo..hi]) + Union(ss[hi..])
  {
    var ks' := ks[..lo] + mid + ks[hi..];
    RebuildForest(mem, mem', t, ks, ss, h - 1, lo, hi, mid, extra);
    Reattach(mem', t, x, h, ks');
    UnionThree(ss, lo, hi);
  }

  /** The hypotheses of `RegraftPair`: the new records of `p` and `q` share out
      the old forest `G` between them, `p` taking `G[..k]` and `q` the rest. */
  ghost predicate Sharing(mem: Mem, mem': Mem, t: int, h: nat, G: seq<Ptr>, k: int, p: Ptr, q: Ptr)
  {
    0 <= k <= |G| && p != q && p != NULL && q != NULL && p in mem' && q in mem' &&
    Fits(mem'[p], t, h) && Fits(mem'[q], t, h) &&
    Kids(mem'[p]) == G[..k] && Kids(mem'[q]) == G[k..] &&
    (h == 0 ==> G == []) &&
    (h > 0 ==> Forest(mem, t, G, h - 1) && p !in Union(Reaches(mem, G, h - 1)) &&
               q !in Union(Reaches(mem, G, h - 1)) && Agree(mem, mem', Union(Reaches(mem, G, h - 1))))
  }

  /** Two sibling nodes rebuilt over one old forest `G` form a forest, whose
      addresses are theirs and those of `G`. */
  lemma RegraftPair(mem: Mem, mem': Mem, t: int, h: nat, G: seq<Ptr>, k: int, p: Ptr, q: Ptr)
    requires Sharing(mem, mem', t, h, G, k, p, q)
    ensures Forest(mem', t, [p, q], h)
    ensures Abses(mem', [p, q], h) ==
            [Node(Keys(mem'[p]), if h == 0 then [] else Abses(mem, G, h - 1)[..k]),
             Node(Keys(mem'[q]), if h == 0 then [] else Abses(mem, G, h - 1)[k..])]
    ensures Union(Reaches(mem', [p, q], h)) == {p, q} + (if h == 0 then {} else Union(Reaches(mem, G, h - 1)))
  {
    if h == 0 {
      Regraft(mem, mem', t, p, h, []);
      Regraft(mem, mem', t, q, h, []);
      PairApart(mem', t, h, p, q, {p}, {q});
    } else {
      RegraftPairInternal(mem, mem', t, h, G, k, p, q);
    }
  }

  /** The internal case of `RegraftPair`. */
  lemma RegraftPairInternal(mem: Mem, mem': Mem, t: int, h: nat, G: seq<Ptr>, k: int, p: Ptr, q: Ptr)
    requires Sharing(mem, mem', t, h, G, k, p, q) && h > 0
    ensures Forest(mem', t, [p, q], h)
    ensures Abses(mem', [p, q], h) ==
            [Node(Keys(mem'[p]), Abses(mem, G, h - 1)[..k]), Node(Keys(mem'[q]), Abses(mem, G, h - 1)[k..])]
    ensures Union(Reaches(mem', [p, q], h)) == {p, q} + Union(Reaches(mem, G, h - 1))
  {
    var ss := Reaches(mem, G, h - 1);
    RegraftLeft(mem, mem', t, h, G, k, p, q);
    RegraftRight(mem, mem', t, h, G, k, p, q);
    UnionTwo(ss, k);
    ApartHalves(ss, k);
    PairApart(mem', t, h, p, q, {p} + Union(ss[..k]), {q} + Union(ss[k..]));
    PairSets(p, q, Union(ss[..k]), Union(ss[k..]));
  }

  /** The left node takes the first `k` subtrees. */
  lemma RegraftLeft(mem: Mem, mem': Mem, t: int, h: nat, G: seq<Ptr>, k: int, p: Ptr, q: Ptr)
    requires Sharing(mem, mem', t, h, G, k, p, q) && h > 0
    ensures Wf(mem', t, p, h)
    ensures Abs(mem', p, h) == Node(Keys(mem'[p]), Abses(mem, G, h - 1)[..k])
    ensures Reach(mem', p, h) == {p} + Union(Reaches(mem, G, h - 1)[..k])
  {
    ForestTake(mem, t, G, h - 1, k);
    assert Union(Reaches(mem, G, h - 1)[..k]) <= Union(Reaches(mem, G, h - 1)) by {
      UnionTwo(Reaches(mem, G, h - 1), k);
    }
    Regraft(mem, mem', t, p, h, G[..k]);
  }

  /** The right node takes the subtrees from `k` on. */
  lemma RegraftRight(mem: Mem, mem': Mem, t: int, h: nat, G: seq<Ptr>, k: int, p: Ptr, q: Ptr)
    requires Sharing(mem, mem', t, h, G, k, p, q) && h > 0
    ensures Wf(mem', t, q, h)
    ensures Abs(mem', q, h) == Node(Keys(mem'[q]), Abses(mem, G, h - 1)[k..])
    ensures Reach(mem', q, h) == {q} + Union(Reaches(mem, G, h - 1)[k..])
  {
    ForestDrop(mem, t, G, h - 1, k);
    assert Union(Reaches(mem, G, h - 1)[k..]) <= Union(Reaches(mem, G, h - 1)) by {
      UnionTwo(Reaches(mem, G, h - 1), k);
    }
    Regraft(mem, mem', t, q, h, G[k..]);
  }

  lemma PairSets(p: Ptr, q: Ptr, a: set<Ptr>, b: set<Ptr>)
    ensures {p} + a + ({q} + b) == {p, q} + (a + b)
  {
  }

  /** Two subtrees at disjoint addresses form a forest. */
  lemma PairApart(mem: Mem, t: int, h: nat, p: Ptr, q: Ptr, a: set<Ptr>, b: set<Ptr>)
    requires Wf(mem, t, p, h) && Wf(mem, t, q, h)
    requires Reach(mem, p, h) == a && Reach(mem, q, h) == b && a !! b
    ensures Forest(mem, t, [p, q], h) && Reaches(mem, [p, q], h) == [a, b]
    ensures Union(Reaches(mem, [p, q], h)) == a + b
    ensures Abses(mem, [p, q], h) == [Abs(mem, p, h), Abs(mem, q, h)]
  {
    assert Reaches(mem, [p, q], h) == [a, b];
    UnionPair(a, b);
  }
}
