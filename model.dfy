/**
 * The value view of a B-tree node of src/btree.c: the `n` live items of a node
 * and its `c` live children, with the in-order sequence of a subtree and the
 * B-tree invariants of minimum degree `t`. Elements are integers; the integer
 * order stands in for the caller's comparator, so "compares equal" is `==`.
 */
module Model {

  /** A node: its live items `items[0..n)` and live children `children[0..c)`;
      a leaf has no children (C: `children == NULL`). */
  datatype Tree = Node(items: seq<int>, children: seq<Tree>)

  /** What a C call comes to: the value it returns, or undefined behaviour
      (a NULL dereference or a read of an uninitialised variable), where the
      model stops. */
  datatype Outcome<T> = Ok(value: T) | Undefined

  datatype Option<T> = None | Some(value: T)

  /** The comparator's sign, `cmp(a, b)`. */
  function Cmp(a: int, b: int): int
  {
    if a < b then -1 else if a == b then 0 else 1
  }

  // ---------------------------------------------------------------------
  // In-order sequence
  // ---------------------------------------------------------------------

  /** The in-order sequence of the elements of a subtree. */
  ghost function Flat(m: Tree): seq<int>
    decreases m, 1
  {
    if m.children == [] then m.items else Weave(m.children, m.items)
  }

  /** Children interleaved with the items between them: `cs[0]`, `ks[0]`,
      `cs[1]`, ..., ending with the last child. */
  ghost function Weave(cs: seq<Tree>, ks: seq<int>): seq<int>
    decreases cs, 0
  {
    if cs == [] then []
    else if |cs| == 1 || ks == [] then Flat(cs[0])
    else Flat(cs[0]) + [ks[0]] + Weave(cs[1..], ks[1..])
  }

  /** Child, item, child, item, ...: what precedes a child in the in-order
      sequence of its parent. */
  ghost function Front(cs: seq<Tree>, ks: seq<int>): seq<int>
    decreases cs
  {
    if cs == [] || ks == [] then [] else Flat(cs[0]) + [ks[0]] + Front(cs[1..], ks[1..])
  }

  /** Item, child, item, child, ...: what follows a child in the in-order
      sequence of its parent. */
  ghost function Back(cs: seq<Tree>, ks: seq<int>): seq<int>
    decreases cs
  {
    if cs == [] || ks == [] then [] else [ks[0]] + Flat(cs[0]) + Back(cs[1..], ks[1..])
  }

  // ---------------------------------------------------------------------
  // B-tree invariants
  // ---------------------------------------------------------------------

  /** In non-decreasing order. */
  ghost predicate Sorted(s: seq<int>)
  {
    forall i, j :: 0 <= i < j < |s| ==> s[i] <= s[j]
  }

  /** Every internal node has one child more than it has items (`c == n+1`). */
  ghost predicate WellFormed(m: Tree)
  {
    (m.children == [] || |m.children| == |m.items| + 1) &&
    forall i :: 0 <= i < |m.children| ==> WellFormed(m.children[i])
  }

  /** The number of edges from `m` down its leftmost path to a leaf. */
  ghost function Height(m: Tree): nat
  {
    if m.children == [] then 0 else 1 + Height(m.children[0])
  }

  /** All leaves are at the same depth. */
  ghost predicate Balanced(m: Tree)
  {
    forall i :: 0 <= i < |m.children| ==>
      Balanced(m.children[i]) && Height(m.children[i]) == Height(m.children[0])
  }

  /** Every node of the subtree, `m` included, holds between `t-1` and `2t-1` items. */
  ghost predicate Full(m: Tree, t: int)
    decreases m, 1
  {
    t - 1 <= |m.items| <= 2 * t - 1 && AllFull(m.children, t)
  }

  /** Every tree of `cs` satisfies `Full`. */
  ghost predicate AllFull(cs: seq<Tree>, t: int)
    decreases cs, 0
  {
    forall q :: 0 <= q < |cs| ==> Full(cs[q], t)
  }

  /** No node of the subtree holds more than `2t-1` items. */
  ghost predicate Capped(m: Tree, t: int)
  {
    |m.items| <= 2 * t - 1 &&
    forall i :: 0 <= i < |m.children| ==> Capped(m.children[i], t)
  }

  /** The size bounds of a root: at most `2t-1` items, at least one when
      internal, and every other node between `t-1` and `2t-1`. */
  ghost predicate RootSized(m: Tree, t: int)
  {
    |m.items| <= 2 * t - 1 &&
    (m.children != [] ==> 1 <= |m.items|) &&
    AllFull(m.children, t)
  }

  /** The shape of a B-tree of minimum degree `t`, without the order. */
  ghost predicate Shaped(m: Tree, t: int)
  {
    t >= 2 && WellFormed(m) && Balanced(m) && RootSized(m, t)
  }

  /** A B-tree of minimum degree `t` rooted at `m`. */
  ghost predicate IsBTree(m: Tree, t: int)
  {
    Shaped(m, t) && Sorted(Flat(m))
  }

  /** Children that are all well formed and balanced, of height `h`. */
  ghost predicate Uniform(cs: seq<Tree>, h: nat)
  {
    forall q :: 0 <= q < |cs| ==> WellFormed(cs[q]) && Balanced(cs[q]) && Height(cs[q]) == h
  }

  // ---------------------------------------------------------------------
  // Lemmas about the shape
  // ---------------------------------------------------------------------

  /** The children of a well-formed balanced internal node are uniform, one
      level lower. */
  lemma UniformChildren(m: Tree)
    requires WellFormed(m) && Balanced(m) && m.children != []
    ensures Height(m) >= 1 && Uniform(m.children, Height(m) - 1)
  {
  }

  /** A node over uniform children is well formed and balanced, one level
      higher. */
  lemma NodeOver(ks: seq<int>, cs: seq<Tree>, h: nat)
    requires cs == [] || |cs| == |ks| + 1
    requires Uniform(cs, h)
    ensures WellFormed(Node(ks, cs)) && Balanced(Node(ks, cs))
    ensures Height(Node(ks, cs)) == if cs == [] then 0 else h + 1
  {
  }

  lemma UniformAppend(a: seq<Tree>, b: seq<Tree>, h: nat)
    requires Uniform(a, h) && Uniform(b, h)
    ensures Uniform(a + b, h)
  {
    forall q | 0 <= q < |a + b| ensures WellFormed((a + b)[q]) && Balanced((a + b)[q]) && Height((a + b)[q]) == h {
      if q < |a| { assert (a + b)[q] == a[q]; } else { assert (a + b)[q] == b[q - |a|]; }
    }
  }

  lemma UniformSlice(a: seq<Tree>, lo: nat, hi: nat, h: nat)
    requires Uniform(a, h) && lo <= hi <= |a|
    ensures Uniform(a[lo..hi], h)
  {
    forall q | 0 <= q < hi - lo ensures WellFormed(a[lo..hi][q]) && Balanced(a[lo..hi][q]) && Height(a[lo..hi][q]) == h {
      assert a[lo..hi][q] == a[lo + q];
    }
  }

  lemma UniformUpdate(a: seq<Tree>, j: nat, c: Tree, h: nat)
    requires Uniform(a, h) && j < |a| && WellFormed(c) && Balanced(c) && Height(c) == h
    ensures Uniform(a[j := c], h)
  {
  }

  /** Two adjacent children replaced by one. */
  lemma UniformFuse(cs: seq<Tree>, i: nat, w: Tree, h: nat)
    requires Uniform(cs, h) && i + 1 < |cs| && WellFormed(w) && Balanced(w) && Height(w) == h
    ensures Uniform(cs[..i] + [w] + cs[i + 2..], h)
  {
    UniformSlice(cs, 0, i, h);
    UniformSlice(cs, i + 2, |cs|, h);
    UniformAppend(cs[..i], [w], h);
    UniformAppend(cs[..i] + [w], cs[i + 2..], h);
  }

  /** One child replaced by two. */
  lemma UniformFission(cs: seq<Tree>, i: nat, l: Tree, r: Tree, h: nat)
    requires Uniform(cs, h) && i < |cs|
    requires WellFormed(l) && Balanced(l) && Height(l) == h
    requires WellFormed(r) && Balanced(r) && Height(r) == h
    ensures Uniform(cs[..i] + [l, r] + cs[i + 1..], h)
  {
    UniformSlice(cs, 0, i, h);
    UniformSlice(cs, i + 1, |cs|, h);
    UniformAppend(cs[..i], [l, r], h);
    UniformAppend(cs[..i] + [l, r], cs[i + 1..], h);
  }

  lemma AllFullAppend(a: seq<Tree>, b: seq<Tree>, t: int)
    requires AllFull(a, t) && AllFull(b, t)
    ensures AllFull(a + b, t)
  {
    forall q | 0 <= q < |a + b| ensures Full((a + b)[q], t) {
      if q < |a| { assert (a + b)[q] == a[q]; } else { assert (a + b)[q] == b[q - |a|]; }
    }
  }

  lemma AllFullSlice(a: seq<Tree>, lo: nat, hi: nat, t: int)
    requires AllFull(a, t) && lo <= hi <= |a|
    ensures AllFull(a[lo..hi], t)
  {
    forall q | 0 <= q < hi - lo ensures Full(a[lo..hi][q], t) {
      assert a[lo..hi][q] == a[lo + q];
    }
  }

  lemma AllFullUpdate(a: seq<Tree>, j: nat, c: Tree, t: int)
    requires AllFull(a, t) && j < |a| && Full(c, t)
    ensures AllFull(a[j := c], t)
  {
  }

  /** Two adjacent trees replaced by one. */
  lemma AllFullFuse(cs: seq<Tree>, i: nat, w: Tree, t: int)
    requires AllFull(cs, t) && i + 1 < |cs| && Full(w, t)
    ensures AllFull(cs[..i] + [w] + cs[i + 2..], t)
  {
    AllFullSlice(cs, 0, i, t);
    AllFullSlice(cs, i + 2, |cs|, t);
    AllFullAppend(cs[..i], [w], t);
    AllFullAppend(cs[..i] + [w], cs[i + 2..], t);
  }

  /** One tree replaced by two. */
  lemma AllFullFission(cs: seq<Tree>, i: nat, l: Tree, r: Tree, t: int)
    requires AllFull(cs, t) && i < |cs| && Full(l, t) && Full(r, t)
    ensures AllFull(cs[..i] + [l, r] + cs[i + 1..], t)
  {
    AllFullSlice(cs, 0, i, t);
    AllFullSlice(cs, i + 1, |cs|, t);
    AllFullAppend(cs[..i], [l, r], t);
    AllFullAppend(cs[..i] + [l, r], cs[i + 1..], t);
  }

  // ---------------------------------------------------------------------
  // Lemmas about the in-order sequence
  // ---------------------------------------------------------------------

  /** The interleaving of a child followed by item/child pairs. */
  lemma {:induction false} WeaveHead(y: Tree, cs: seq<Tree>, ks: seq<int>)
    requires |cs| == |ks|
    ensures Weave([y] + cs, ks) == Flat(y) + Back(cs, ks)
    decreases |cs|
  {
    if cs != [] {
      assert ([y] + cs)[1..] == cs;
      WeaveHead(cs[0], cs[1..], ks[1..]);
      assert [cs[0]] + cs[1..] == cs;
    }
  }

  /** The interleaving around one child: what precedes it, the child, and
      what follows it. */
  lemma {:induction false} WeaveAround(C: seq<Tree>, K: seq<int>, y: Tree, D: seq<Tree>, L: seq<int>)
    requires |C| == |K| && |D| == |L|
    ensures Weave(C + [y] + D, K + L) == Front(C, K) + Flat(y) + Back(D, L)
    decreases |C|
  {
    if C == [] {
      assert C + [y] + D == [y] + D && K + L == L;
      WeaveHead(y, D, L);
    } else {
      assert (C + [y] + D)[1..] == C[1..] + [y] + D;
      assert (K + L)[1..] == K[1..] + L;
      WeaveAround(C[1..], K[1..], y, D, L);
    }
  }

  /** The in-order sequence of an internal node around its child `i`. */
  lemma FlatAt(m: Tree, i: nat)
    requires m.children != [] && |m.children| == |m.items| + 1 && i < |m.children|
    ensures Flat(m) == Front(m.children[..i], m.items[..i]) + Flat(m.children[i])
                     + Back(m.children[i + 1..], m.items[i..])
  {
    assert m.children == m.children[..i] + [m.children[i]] + m.children[i + 1..];
    assert m.items == m.items[..i] + m.items[i..];
    WeaveAround(m.children[..i], m.items[..i], m.children[i], m.children[i + 1..], m.items[i..]);
  }

  /** The in-order sequence of an internal node around its children `i` and
      `i+1` and the item between them. */
  lemma FlatAtPair(m: Tree, i: nat)
    requires |m.children| == |m.items| + 1 && i < |m.items|
    ensures Flat(m) == Front(m.children[..i], m.items[..i])
                     + (Flat(m.children[i]) + [m.items[i]] + Flat(m.children[i + 1]))
                     + Back(m.children[i + 2..], m.items[i + 1..])
  {
    FlatAt(m, i);
    var D := m.children[i + 1..];
    var L := m.items[i..];
    assert D[1..] == m.children[i + 2..] && L[1..] == m.items[i + 1..];
    assert Back(D, L) == [m.items[i]] + Flat(m.children[i + 1]) + Back(m.children[i + 2..], m.items[i + 1..]);
  }

  /** The interleaving of two groups joined by an item. */
  lemma {:induction false} WeaveJoin(C: seq<Tree>, A: seq<int>, k: int, D: seq<Tree>, B: seq<int>)
    requires |C| == |A| + 1 && |D| == |B| + 1
    ensures Weave(C + D, A + [k] + B) == Weave(C, A) + [k] + Weave(D, B)
    decreases |C|
  {
    if |C| == 1 {
      assert (C + D)[1..] == D && (A + [k] + B)[1..] == B;
    } else {
      assert (C + D)[1..] == C[1..] + D;
      assert (A + [k] + B)[1..] == A[1..] + [k] + B;
      WeaveJoin(C[1..], A[1..], k, D, B);
    }
  }

  /** The in-order sequence of an internal node cut at item `|A|`. */
  lemma FlatJoin(A: seq<int>, k: int, B: seq<int>, C: seq<Tree>, D: seq<Tree>)
    requires |C| == |A| + 1 && |D| == |B| + 1
    ensures Flat(Node(A + [k] + B, C + D)) == Flat(Node(A, C)) + [k] + Flat(Node(B, D))
  {
    WeaveJoin(C, A, k, D, B);
  }

  /** A node with a single child and no items contributes exactly that child. */
  lemma FlatSingle(c: Tree)
    ensures Flat(Node([], [c])) == Flat(c)
  {
  }

  /** The items of a node all occur in its in-order sequence. */
  lemma ItemInFlat(m: Tree, k: nat)
    requires WellFormed(m) && k < |m.items|
    ensures m.items[k] in Flat(m)
  {
    if m.children != [] {
      FlatAt(m, k);
      assert Back(m.children[k + 1..], m.items[k..])[0] == m.items[k];
    }
  }

  // ---------------------------------------------------------------------
  // Regrouping concatenations (kept apart from the tree functions so that
  // the solver sees only sequences)
  // ---------------------------------------------------------------------

  /** A middle piece `Y ++ K ++ Z` regrouped with its neighbours. */
  lemma RegroupMiddle(F: seq<int>, P: seq<int>, Y: seq<int>, S: seq<int>, K: seq<int>, Z: seq<int>, T: seq<int>,
                      F': seq<int>, W: seq<int>)
    requires F == P + Y + S && S == K + Z + T
    requires F' == P + W + T && W == Y + K + Z
    ensures F' == F
  {
    calc {
      F';
      P + (Y + K + Z) + T;
      P + Y + (K + Z + T);
      F;
    }
  }

  /** A piece moved across a boundary: `(A ++ K ++ B) ++ M ++ C` and
      `A ++ K ++ (B ++ M ++ C)` are the same sequence. */
  lemma RegroupShift(Y: seq<int>, A: seq<int>, K: seq<int>, B: seq<int>, Z: seq<int>, M: seq<int>, C: seq<int>)
    requires Y == A + K + B && Z == B + M + C
    ensures Y + M + C == A + K + Z
  {
  }

  /** Two adjacent pieces `C ++ K ++ D` swapped for ones with the same joint
      sequence. */
  lemma RegroupPair(F: seq<int>, P: seq<int>, C: seq<int>, S: seq<int>, K: seq<int>, D: seq<int>, T: seq<int>,
                    F': seq<int>, C': seq<int>, S': seq<int>, K': seq<int>, D': seq<int>)
    requires F == P + C + S && S == K + D + T
    requires F' == P + C' + S' && S' == K' + D' + T
    requires C' + K' + D' == C + K + D
    ensures F' == F
  {
    calc {
      F';
      P + C' + (K' + D' + T);
      P + (C' + K' + D') + T;
      P + (C + K + D) + T;
      P + C + (K + D + T);
      F;
    }
  }
}
