/**
 * The in-order iterator of src/btree.c: `btree_iter_t_new`, `btree_iter_t_reset`
 * and `btree_iter`. The iterator keeps a stack of frames, each a node and a
 * position `pos` in it. In a leaf `pos` is twice the number of items already
 * returned. In an internal node an even `pos = 2j` means child `j` is next
 * (or is being walked, when a frame sits above), an odd `pos = 2j+1` that
 * child `j` is done and item `j` is next.
 *
 * Each frame is matched by a ghost `Spot`: the subtree its node stands for
 * and its position. What the stack has yet to return is `Pend` of the
 * spots: the rest of the top spot's subtree, then, spot by spot down to the
 * root, what follows the child each lower spot is in. One call of
 * `btree_iter` returns the first element of that sequence and leaves the
 * rest.
 */
module Iteration {
  import opened Model
  import opened Memory
  import Nodes

  /** One frame of the iterator's stack. */
  datatype Frame = Frame(pos: int, node: Ptr)

  /** A frame seen as a value: the subtree of its node and its position. */
  datatype Spot = Spot(tree: Tree, pos: int)

  /** Every node below the top one has at least one item, as every node
      below the root of a B-tree has. */
  ghost predicate Stocked(m: Tree)
  {
    forall i :: 0 <= i < |m.children| ==> m.children[i].items != [] && Stocked(m.children[i])
  }

  // ---------------------------------------------------------------------
  // What is left to return
  // ---------------------------------------------------------------------

  /** What follows child `j` of `a` in the in-order sequence of `a`. */
  ghost function After(a: Tree, j: int): seq<int>
  {
    if 0 <= j <= |a.items| && j < |a.children| then Back(a.children[j + 1..], a.items[j..]) else []
  }

  /** What is left of the top spot's subtree `a` at position `pos`: the
      items from `pos/2` on in a leaf; in an internal node child `pos/2`
      and what follows it when `pos` is even, only what follows it when
      `pos` is odd. */
  ghost function Cur(a: Tree, pos: int): seq<int>
  {
    if a.children == [] then
      if 0 <= pos / 2 <= |a.items| then a.items[pos / 2..] else []
    else if pos % 2 == 0 && 0 <= pos / 2 < |a.children| then
      Flat(a.children[pos / 2]) + After(a, pos / 2)
    else After(a, pos / 2)
  }

  /** The spots below the top one, from the top down, each contributing
      what follows the child it is in. */
  ghost function Rest(ss: seq<Spot>): seq<int>
  {
    if ss == [] then []
    else After(ss[|ss| - 1].tree, ss[|ss| - 1].pos / 2) + Rest(ss[..|ss| - 1])
  }

  /** What the spots `ss`, the root's first, have yet to return. */
  ghost function Pend(ss: seq<Spot>): seq<int>
  {
    if ss == [] then [] else Cur(ss[|ss| - 1].tree, ss[|ss| - 1].pos) + Rest(ss[..|ss| - 1])
  }

  /** The spot `s` is the child of `p`'s subtree that `p`'s even position
      names. */
  ghost predicate Step(p: Spot, s: Spot)
  {
    0 <= p.pos && p.pos % 2 == 0 && p.pos / 2 < |p.tree.children| && s.tree == p.tree.children[p.pos / 2]
  }

  /** The spots form a path down from the first: every subtree well formed,
      the ones below the first not empty, each the child its predecessor
      names. */
  ghost predicate Path(ss: seq<Spot>)
  {
    |ss| >= 1 &&
    var s := ss[|ss| - 1];
    WellFormed(s.tree) && Stocked(s.tree) &&
    (|ss| > 1 ==> s.tree.items != [] && Path(ss[..|ss| - 1]) && Step(ss[|ss| - 2], s))
  }

  /** The positions the top spot takes between calls: an even one up to
      `2n` in a leaf, any up to `2n+1` in an internal node. */
  ghost predicate Top(s: Spot)
  {
    0 <= s.pos &&
    (s.tree.children == [] ==> s.pos % 2 == 0 && s.pos <= 2 * |s.tree.items|) &&
    (s.tree.children != [] ==> s.pos <= 2 * |s.tree.items| + 1)
  }

  // ---------------------------------------------------------------------
  // The frames on the memory
  // ---------------------------------------------------------------------

  /** Frame `d` holds a live node at height `H - d`, and spot `d` is that
      node's subtree with the frame's position. */
  ghost predicate Frames(mem: Mem, t: int, H: nat, fs: seq<Frame>, ss: seq<Spot>)
    decreases |fs|
  {
    |fs| == |ss| <= H + 1 &&
    (fs != [] ==>
       Frames(mem, t, H, fs[..|fs| - 1], ss[..|ss| - 1]) &&
       Wf(mem, t, fs[|fs| - 1].node, H - (|fs| - 1)) &&
       ss[|ss| - 1] == Spot(Abs(mem, fs[|fs| - 1].node, H - (|fs| - 1)), fs[|fs| - 1].pos))
  }

  /** The frames `fs` of an iterator over the tree at `root`, of height
      `H`, their spots `ss`, and what they have yet to return, `rest`:
      live nodes from the root down, whose subtrees each are the child the
      frame below names, the top one at a position it takes between
      calls. */
  ghost predicate Holds(mem: Mem, t: int, root: Ptr, H: nat, fs: seq<Frame>, ss: seq<Spot>, rest: seq<int>)
  {
    1 <= |fs| && fs[0].node == root && Frames(mem, t, H, fs, ss) &&
    Path(ss) && Top(ss[|ss| - 1]) && rest == Pend(ss)
  }

  /** `Holds`, wrapped in `k` layers. The recursion computes nothing: it
      only hides `Holds` from the solver, which unfolds a definition a
      bounded number of times. The iterator's methods keep `Inv`, and
      `Open` and `Close` are the only ways in or out. */
  ghost predicate Layer(mem: Mem, t: int, root: Ptr, H: nat, fs: seq<Frame>, ss: seq<Spot>, rest: seq<int>, k: nat)
    decreases k
  {
    if k == 0 then Holds(mem, t, root, H, fs, ss, rest) else Layer(mem, t, root, H, fs, ss, rest, k - 1)
  }

  /** The iterator's invariant. */
  ghost predicate Inv(mem: Mem, t: int, root: Ptr, H: nat, fs: seq<Frame>, ss: seq<Spot>, rest: seq<int>)
  {
    Layer(mem, t, root, H, fs, ss, rest, |fs|)
  }

  /** However many layers are wrapped around it, the invariant is `Holds`. */
  lemma {:induction false} Peel(mem: Mem, t: int, root: Ptr, H: nat, fs: seq<Frame>, ss: seq<Spot>, rest: seq<int>, k: nat)
    ensures Layer(mem, t, root, H, fs, ss, rest, k) == Holds(mem, t, root, H, fs, ss, rest)
    decreases k
  {
    if k > 0 {
      Peel(mem, t, root, H, fs, ss, rest, k - 1);
    }
  }

  /** The invariant, unwrapped. */
  lemma Open(mem: Mem, t: int, root: Ptr, H: nat, fs: seq<Frame>, ss: seq<Spot>, rest: seq<int>)
    requires Inv(mem, t, root, H, fs, ss, rest)
    ensures Holds(mem, t, root, H, fs, ss, rest)
  {
    Peel(mem, t, root, H, fs, ss, rest, |fs|);
  }

  /** `Holds`, wrapped as the invariant. */
  lemma Close(mem: Mem, t: int, root: Ptr, H: nat, fs: seq<Frame>, ss: seq<Spot>, rest: seq<int>)
    requires Holds(mem, t, root, H, fs, ss, rest)
    ensures Inv(mem, t, root, H, fs, ss, rest)
  {
    Peel(mem, t, root, H, fs, ss, rest, |fs|);
  }

  /** The frame `f` is at the end of its node: past the last item of a
      leaf, past the last child of an internal node. */
  ghost predicate End(mem: Mem, f: Frame)
  {
    f.node in mem &&
    if mem[f.node].children == [] then f.pos >= 2 * mem[f.node].n else f.pos > 2 * mem[f.node].n
  }

  /** `Frames` with one more frame on top. */
  lemma {:induction false} FramesSnoc(mem: Mem, t: int, H: nat, F: seq<Frame>, f: Frame, S: seq<Spot>, s: Spot)
    ensures Frames(mem, t, H, F + [f], S + [s]) <==>
              Frames(mem, t, H, F, S) && |F| < H + 1 &&
              Wf(mem, t, f.node, H - |F|) && s == Spot(Abs(mem, f.node, H - |F|), f.pos)
  {
    assert (F + [f])[..|F|] == F;
    assert (S + [s])[..|S|] == S;
  }

  /** The top frame's node read through its record. */
  lemma Look(mem: Mem, t: int, H: nat, F: seq<Frame>, f: Frame, S: seq<Spot>, s: Spot)
    requires Frames(mem, t, H, F + [f], S + [s]) && Path(S + [s])
    ensures |F| == |S| <= H
    ensures f.node in mem && s.tree.items == Keys(mem[f.node]) && s.pos == f.pos
    ensures |s.tree.items| == mem[f.node].n <= |mem[f.node].items|
    ensures (mem[f.node].children == []) == (s.tree.children == [])
    ensures mem[f.node].children != [] ==> |F| < H && mem[f.node].n < mem[f.node].c <= |mem[f.node].children|
    ensures F != [] ==> mem[f.node].n >= 1
  {
    FramesTop(mem, t, H, F, f, S, s);
    Record(mem, t, f.node, H - |F|);
    Snoc(S, s);
  }

  /** The top frame's node, seen from outside the invariant. */
  lemma {:induction false} InvLook(mem: Mem, t: int, root: Ptr, H: nat, F: seq<Frame>, f: Frame, S: seq<Spot>, s: Spot, R: seq<int>)
    requires Inv(mem, t, root, H, F + [f], S + [s], R)
    ensures f.node in mem && mem[f.node].n <= |mem[f.node].items| && 0 <= f.pos
    ensures mem[f.node].children != [] ==> |F| < H && mem[f.node].n < |mem[f.node].children|
    ensures F != [] ==> mem[f.node].n >= 1
  {
    Open(mem, t, root, H, F + [f], S + [s], R);
    Look(mem, t, H, F, f, S, s);
  }

  /** The start: one frame on the root at position 0, with all of the
      tree's in-order sequence left. */
  lemma {:induction false} InvStart(mem: Mem, t: int, root: Ptr, H: nat)
    requires Wf(mem, t, root, H) && WellFormed(Abs(mem, root, H)) && Stocked(Abs(mem, root, H))
    ensures Inv(mem, t, root, H, [Frame(0, root)], [Spot(Abs(mem, root, H), 0)], Flat(Abs(mem, root, H)))
  {
    FramesSnoc(mem, t, H, [], Frame(0, root), [], Spot(Abs(mem, root, H), 0));
    assert [] + [Frame(0, root)] == [Frame(0, root)];
    assert [] + [Spot(Abs(mem, root, H), 0)] == [Spot(Abs(mem, root, H), 0)];
    Start(Abs(mem, root, H));
    Close(mem, t, root, H, [Frame(0, root)], [Spot(Abs(mem, root, H), 0)], Flat(Abs(mem, root, H)));
  }

  /** Popping a top frame `f` at its end: the frame `g` below moves past
      the child it was in, and what remains is as it was. */
  lemma {:induction false} InvPop(mem: Mem, t: int, root: Ptr, H: nat, F: seq<Frame>, g: Frame, f: Frame,
                                  S: seq<Spot>, q: Spot, s: Spot, R: seq<int>)
    requires Inv(mem, t, root, H, F + [g] + [f], S + [q] + [s], R) && End(mem, f)
    ensures Inv(mem, t, root, H, F + [g.(pos := g.pos + 1)], S + [q.(pos := q.pos + 1)], R)
    ensures g.node in mem && mem[g.node].children != []
  {
    Open(mem, t, root, H, F + [g] + [f], S + [q] + [s], R);
    Look(mem, t, H, F + [g], f, S + [q], s);
    EndSpots(S + [q], s);
    FramesSnoc(mem, t, H, F + [g], f, S + [q], s);
    FramesSnoc(mem, t, H, F, g, S, q);
    FramesSnoc(mem, t, H, F, g.(pos := g.pos + 1), S, q.(pos := q.pos + 1));
    PopPath(S, q, s);
    PopPend(S, q, s);
    Record(mem, t, g.node, H - |F|);
    assert (F + [g.(pos := g.pos + 1)])[0].node == (F + [g] + [f])[0].node;
    Close(mem, t, root, H, F + [g.(pos := g.pos + 1)], S + [q.(pos := q.pos + 1)], R);
  }

  /** Pushing child `j` of the top frame's node, whose position is `2j`:
      what remains is as it was. */
  lemma {:induction false} InvPush(mem: Mem, t: int, root: Ptr, H: nat, F: seq<Frame>, f: Frame,
                                   S: seq<Spot>, s: Spot, R: seq<int>, j: int)
    requires Inv(mem, t, root, H, F + [f], S + [s], R)
    requires f.node in mem && mem[f.node].children != [] && f.pos == 2 * j && 0 <= j <= mem[f.node].n
    ensures |F| < H && j < |mem[f.node].children|
    ensures Inv(mem, t, root, H, F + [f] + [Frame(0, mem[f.node].children[j])],
                S + [s] + [Spot(Abs(mem, mem[f.node].children[j], H - |F| - 1), 0)], R)
  {
    Open(mem, t, root, H, F + [f], S + [s], R);
    PushHolds(mem, t, root, H, F, f, S, s, R, j);
    var c := mem[f.node].children[j];
    Close(mem, t, root, H, F + [f] + [Frame(0, c)], S + [s] + [Spot(Abs(mem, c, H - |F| - 1), 0)], R);
  }

  /** `InvPush` inside the invariant. */
  lemma {:induction false} PushHolds(mem: Mem, t: int, root: Ptr, H: nat, F: seq<Frame>, f: Frame,
                                     S: seq<Spot>, s: Spot, R: seq<int>, j: int)
    requires Holds(mem, t, root, H, F + [f], S + [s], R)
    requires f.node in mem && mem[f.node].children != [] && f.pos == 2 * j && 0 <= j <= mem[f.node].n
    ensures |F| < H && j < |mem[f.node].children|
    ensures Holds(mem, t, root, H, F + [f] + [Frame(0, mem[f.node].children[j])],
                  S + [s] + [Spot(Abs(mem, mem[f.node].children[j], H - |F| - 1), 0)], R)
  {
    Look(mem, t, H, F, f, S, s);
    PushFrames(mem, t, H, F, f, S, s, j);
    PushSpots(S, s, R, j);
    assert (F + [f] + [Frame(0, mem[f.node].children[j])])[0].node == (F + [f])[0].node;
  }

  /** The frames after pushing child `j` of the top frame's node. */
  lemma {:induction false} PushFrames(mem: Mem, t: int, H: nat, F: seq<Frame>, f: Frame, S: seq<Spot>, s: Spot, j: int)
    requires Frames(mem, t, H, F + [f], S + [s])
    requires f.node in mem && mem[f.node].children != [] && 0 <= j < mem[f.node].c
    ensures |F| < H && j < |mem[f.node].children| && j < |s.tree.children|
    ensures Abs(mem, mem[f.node].children[j], H - |F| - 1) == s.tree.children[j]
    ensures Frames(mem, t, H, F + [f] + [Frame(0, mem[f.node].children[j])],
                   S + [s] + [Spot(Abs(mem, mem[f.node].children[j], H - |F| - 1), 0)])
  {
    FramesTop(mem, t, H, F, f, S, s);
    var h := H - |F|;
    Record(mem, t, f.node, h);
    Child(mem, t, f.node, h, j);
    FramesPush(mem, t, H, F, f, S, s, mem[f.node].children[j]);
  }

  /** The top frame of `Frames`. */
  lemma {:induction false} FramesTop(mem: Mem, t: int, H: nat, F: seq<Frame>, f: Frame, S: seq<Spot>, s: Spot)
    requires Frames(mem, t, H, F + [f], S + [s])
    ensures |F| == |S| <= H && Wf(mem, t, f.node, H - |F|) && s == Spot(Abs(mem, f.node, H - |F|), f.pos)
  {
    FramesSnoc(mem, t, H, F, f, S, s);
  }

  /** `Frames` with a frame on node `c` at position 0 pushed. */
  lemma FramesPush(mem: Mem, t: int, H: nat, F: seq<Frame>, f: Frame, S: seq<Spot>, s: Spot, c: Ptr)
    requires Frames(mem, t, H, F + [f], S + [s]) && |F| + 1 < H + 1 && Wf(mem, t, c, H - |F| - 1)
    ensures Frames(mem, t, H, F + [f] + [Frame(0, c)], S + [s] + [Spot(Abs(mem, c, H - |F| - 1), 0)])
  {
    assert |F + [f]| == |F| + 1;
    FramesSnoc(mem, t, H, F + [f], Frame(0, c), S + [s], Spot(Abs(mem, c, H - |F| - 1), 0));
  }


  /** The spots after pushing child `j` of the top spot's subtree, at
      position 0: still a path, and what remains is as it was. */
  lemma {:induction false} PushSpots(S: seq<Spot>, s: Spot, R: seq<int>, j: int)
    requires Path(S + [s]) && R == Pend(S + [s])
    requires s.tree.children != [] && s.pos == 2 * j && 0 <= j <= |s.tree.items|
    ensures j < |s.tree.children|
    ensures Path(S + [s] + [Spot(s.tree.children[j], 0)]) && Top(Spot(s.tree.children[j], 0))
    ensures R == Pend(S + [s] + [Spot(s.tree.children[j], 0)])
  {
    PushPath(S, s, j);
    Snoc(S, s);
    PushPend(S, s, j);
  }



  /** Taking item `pos/2` of a leaf at an even position: it is the first of
      what remains, and the frame moves two positions on. */
  lemma {:induction false} InvLeaf(mem: Mem, t: int, root: Ptr, H: nat, F: seq<Frame>, f: Frame, S: seq<Spot>, s: Spot, R: seq<int>)
    requires Holds(mem, t, root, H, F + [f], S + [s], R)
    requires f.node in mem && mem[f.node].children == [] && f.pos < 2 * mem[f.node].n
    ensures 0 <= f.pos / 2 < mem[f.node].n <= |mem[f.node].items| && f.pos % 2 == 0
    ensures R != [] && R[0] == mem[f.node].items[f.pos / 2]
    ensures Holds(mem, t, root, H, F + [f.(pos := f.pos + 2)], S + [s.(pos := s.pos + 2)], R[1..])
  {
    Look(mem, t, H, F, f, S, s);
    assert Keys(mem[f.node])[s.pos / 2] == mem[f.node].items[s.pos / 2];
    LeafSpots(S, s);
    assert R == [mem[f.node].items[f.pos / 2]] + Pend(S + [s.(pos := s.pos + 2)]);
    assert R[1..] == Pend(S + [s.(pos := s.pos + 2)]);
    FramesSnoc(mem, t, H, F, f, S, s);
    FramesSnoc(mem, t, H, F, f.(pos := f.pos + 2), S, s.(pos := s.pos + 2));
    assert (F + [f.(pos := f.pos + 2)])[0].node == (F + [f])[0].node;
  }

  /** Taking item `pos/2` of an internal node at an odd position: it is
      the first of what remains, and the frame moves one position on. */
  lemma {:induction false} InvInner(mem: Mem, t: int, root: Ptr, H: nat, F: seq<Frame>, f: Frame, S: seq<Spot>, s: Spot, R: seq<int>)
    requires Holds(mem, t, root, H, F + [f], S + [s], R)
    requires f.node in mem && mem[f.node].children != []
    requires f.pos % 2 == 1 && f.pos <= 2 * mem[f.node].n
    ensures 0 <= f.pos / 2 < mem[f.node].n <= |mem[f.node].items|
    ensures R != [] && R[0] == mem[f.node].items[f.pos / 2]
    ensures Holds(mem, t, root, H, F + [f.(pos := f.pos + 1)], S + [s.(pos := s.pos + 1)], R[1..])
  {
    Look(mem, t, H, F, f, S, s);
    assert Keys(mem[f.node])[s.pos / 2] == mem[f.node].items[s.pos / 2];
    InnerSpots(S, s);
    assert R == [mem[f.node].items[f.pos / 2]] + Pend(S + [s.(pos := s.pos + 1)]);
    assert R[1..] == Pend(S + [s.(pos := s.pos + 1)]);
    FramesSnoc(mem, t, H, F, f, S, s);
    FramesSnoc(mem, t, H, F, f.(pos := f.pos + 1), S, s.(pos := s.pos + 1));
    assert (F + [f.(pos := f.pos + 1)])[0].node == (F + [f])[0].node;
  }

  /** Taking the next item off the top frame, a leaf moved two positions
      on and an internal node one. */
  lemma {:induction false} InvTake(mem: Mem, t: int, root: Ptr, H: nat, F: seq<Frame>, f: Frame,
                                   S: seq<Spot>, s: Spot, R: seq<int>, step: int)
    requires Inv(mem, t, root, H, F + [f], S + [s], R) && f.node in mem
    requires mem[f.node].children == [] ==> step == 2 && f.pos < 2 * mem[f.node].n
    requires mem[f.node].children != [] ==> step == 1 && f.pos % 2 == 1 && f.pos <= 2 * mem[f.node].n
    ensures 0 <= (f.pos + step - 1) / 2 < mem[f.node].n <= |mem[f.node].items|
    ensures R != [] && R[0] == mem[f.node].items[(f.pos + step - 1) / 2]
    ensures Inv(mem, t, root, H, F + [f.(pos := f.pos + step)], S + [s.(pos := s.pos + step)], R[1..])
  {
    if mem[f.node].children == [] {
      TakeLeaf(mem, t, root, H, F, f, S, s, R);
    } else {
      TakeInner(mem, t, root, H, F, f, S, s, R);
    }
  }

  /** `InvLeaf` from outside the invariant. */
  lemma {:induction false} TakeLeaf(mem: Mem, t: int, root: Ptr, H: nat, F: seq<Frame>, f: Frame, S: seq<Spot>, s: Spot, R: seq<int>)
    requires Inv(mem, t, root, H, F + [f], S + [s], R)
    requires f.node in mem && mem[f.node].children == [] && f.pos < 2 * mem[f.node].n
    ensures 0 <= f.pos / 2 < mem[f.node].n <= |mem[f.node].items| && f.pos % 2 == 0
    ensures R != [] && R[0] == mem[f.node].items[f.pos / 2]
    ensures Inv(mem, t, root, H, F + [f.(pos := f.pos + 2)], S + [s.(pos := s.pos + 2)], R[1..])
  {
    Open(mem, t, root, H, F + [f], S + [s], R);
    InvLeaf(mem, t, root, H, F, f, S, s, R);
    Close(mem, t, root, H, F + [f.(pos := f.pos + 2)], S + [s.(pos := s.pos + 2)], R[1..]);
  }

  /** `InvInner` from outside the invariant. */
  lemma {:induction false} TakeInner(mem: Mem, t: int, root: Ptr, H: nat, F: seq<Frame>, f: Frame, S: seq<Spot>, s: Spot, R: seq<int>)
    requires Inv(mem, t, root, H, F + [f], S + [s], R)
    requires f.node in mem && mem[f.node].children != []
    requires f.pos % 2 == 1 && f.pos <= 2 * mem[f.node].n
    ensures 0 <= f.pos / 2 < mem[f.node].n <= |mem[f.node].items|
    ensures R != [] && R[0] == mem[f.node].items[f.pos / 2]
    ensures Inv(mem, t, root, H, F + [f.(pos := f.pos + 1)], S + [s.(pos := s.pos + 1)], R[1..])
  {
    Open(mem, t, root, H, F + [f], S + [s], R);
    InvInner(mem, t, root, H, F, f, S, s, R);
    Close(mem, t, root, H, F + [f.(pos := f.pos + 1)], S + [s.(pos := s.pos + 1)], R[1..]);
  }

  /** With no frame below the top one, nothing remains exactly when the
      top frame is at its end. */
  lemma {:induction false} InvSpent(mem: Mem, t: int, root: Ptr, H: nat, f: Frame, s: Spot, R: seq<int>)
    requires Inv(mem, t, root, H, [f], [s], R)
    ensures f.node in mem && (R == [] <==> End(mem, f))
  {
    Open(mem, t, root, H, [f], [s], R);
    assert [f] == [] + [f] && [s] == [] + [s];
    Look(mem, t, H, [], f, [], s);
    EndSpots([], s);
  }

  // ---------------------------------------------------------------------
  // The iterator
  // ---------------------------------------------------------------------

  /** `struct btree_iter_t`: the index of the top frame and the fixed
      stack of 512 frames; the frames up to `head` as a sequence, their
      spots and what they have yet to return are ghost. */
  class Iter {
    var head: int
    const stack: array<Frame>
    ghost var frames: seq<Frame>
    ghost var spots: seq<Spot>
    /** What the iterator has yet to return. */
    ghost var rest: seq<int>

    /** The iterator walks the tree at `root`, of height `H`: on a NULL
        root the only frame holds NULL and nothing remains; otherwise the
        frames up to `head`, their spots and `rest` are as `Inv` says. */
    ghost predicate Valid(mem: Mem, t: int, root: Ptr, H: nat)
      reads this, stack
    {
      stack.Length == 512 && H < 511 && 0 <= head < stack.Length && |frames| == |spots| == head + 1 &&
      stack[..head + 1] == frames && frames[0].node == root &&
      (root == NULL ==> head == 0 && rest == []) &&
      (root != NULL ==> Inv(mem, t, root, H, frames, spots, rest))
    }

    /** `btree_iter_t_new(tree)`: one frame, the root at position 0; all
        that remains is the tree's in-order sequence. */
    constructor (mem: Mem, t: int, root: Ptr, ghost H: nat)
      requires H < 511
      requires root != NULL ==> Wf(mem, t, root, H) && WellFormed(Abs(mem, root, H)) && Stocked(Abs(mem, root, H))
      ensures Valid(mem, t, root, H) && head == 0 && fresh(stack)
      ensures rest == if root == NULL then [] else Flat(Abs(mem, root, H))
    {
      head := 0;
      stack := new Frame[512](_ => Frame(0, NULL));
      frames := [Frame(0, root)];
      spots := [Spot(Abs(mem, root, H), 0)];
      rest := if root == NULL then [] else Flat(Abs(mem, root, H));
      new;
      stack[0] := Frame(0, root);
      if root != NULL {
        InvStart(mem, t, root, H);
      }
    }

    /** `btree_iter_t_reset(tree, it)`: back to the root at position 0. */
    method Reset(mem: Mem, t: int, root: Ptr, ghost H: nat)
      requires stack.Length == 512 && H < 511
      requires root != NULL ==> Wf(mem, t, root, H) && WellFormed(Abs(mem, root, H)) && Stocked(Abs(mem, root, H))
      modifies this, stack
      ensures Valid(mem, t, root, H) && head == 0
      ensures rest == if root == NULL then [] else Flat(Abs(mem, root, H))
    {
      head := 0;
      stack[0] := Frame(0, root);
      frames := [Frame(0, root)];
      spots := [Spot(Abs(mem, root, H), 0)];
      rest := if root == NULL then [] else Flat(Abs(mem, root, H));
      if root != NULL {
        InvStart(mem, t, root, H);
      }
    }

    /** `btree_iter(tree, iter)`: NULL when nothing remains; otherwise the
        first remaining element, found by popping finished frames, then,
        on an even position in an internal node, pushing the path down to
        the leftmost leaf of the next child. A NULL result leaves a
        one-frame stack as it was. */
    method Next(mem: Mem, t: int, root: Ptr, ghost H: nat) returns (r: Option<int>)
      requires Valid(mem, t, root, H)
      modifies this, stack
      ensures Valid(mem, t, root, H)
      ensures r.None? <==> old(rest) == []
      ensures r.Some? ==> old(rest) != [] && r.value == old(rest)[0] && rest == old(rest)[1..]
      ensures r.None? ==> rest == [] && head == 0
      ensures old(rest) == [] && old(head) == 0 ==> head == 0 && stack[..] == old(stack[..])
    {
      if stack[0].node == NULL {
        return None;
      }
      Top(mem, t, root, H);
      var pos := stack[head].pos;
      var n := mem[stack[head].node].n;
      if mem[stack[head].node].children == [] && pos >= 2 * n {
        if head == 0 {
          Spent(mem, t, root, H);
          return None;
        }
        pos, n := Pop(mem, t, root, H);
      }
      while pos > 2 * n
        invariant Valid(mem, t, root, H) && root != NULL && rest == old(rest)
        invariant pos == stack[head].pos && stack[head].node in mem && n == mem[stack[head].node].n
        invariant mem[stack[head].node].children == [] ==> pos < 2 * n
        invariant old(rest) == [] && old(head) == 0 ==> head == 0 && stack[..] == old(stack[..])
        decreases head
      {
        if head == 0 {
          Spent(mem, t, root, H);
          return None;
        }
        pos, n := Pop(mem, t, root, H);
      }
      if mem[stack[head].node].children != [] {
        if pos % 2 == 0 {
          Dive(mem, t, root, H);
        }
      }
      var v := Take(mem, t, root, H);
      return Some(v);
    }

    /** `BTREE_ITER_POP`: the top frame, at its end, is cleared, and the
        frame below moves past the child it was in. */
    method Pop(mem: Mem, t: int, root: Ptr, ghost H: nat) returns (pos: int, n: int)
      requires Valid(mem, t, root, H) && root != NULL && head > 0 && End(mem, stack[head])
      modifies this, stack
      ensures Valid(mem, t, root, H) && head == old(head) - 1 && rest == old(rest)
      ensures pos == stack[head].pos && stack[head].node in mem && n == mem[stack[head].node].n
      ensures mem[stack[head].node].children != []
    {
      ghost var k := head - 1;
      ghost var F, g, f, S, q, s := frames[..k], frames[k], frames[head], spots[..k], spots[k], spots[head];
      assert frames == F + [g] + [f];
      assert spots == S + [q] + [s];
      InvPop(mem, t, root, H, F, g, f, S, q, s, rest);
      stack[head] := Frame(0, NULL);
      head := head - 1;
      assert stack[..head] == F;
      stack[head] := stack[head].(pos := stack[head].pos + 1);
      assert stack[..head] == F && stack[head] == g.(pos := g.pos + 1);
      frames := F + [g.(pos := g.pos + 1)];
      spots := S + [q.(pos := q.pos + 1)];
      pos := stack[head].pos;
      n := mem[stack[head].node].n;
    }

    /** Push child `j` of the top frame's node, at position 0. */
    method Push(mem: Mem, t: int, root: Ptr, ghost H: nat, j: int)
      requires Valid(mem, t, root, H) && root != NULL
      requires stack[head].node in mem && mem[stack[head].node].children != []
      requires stack[head].pos == 2 * j && 0 <= j <= mem[stack[head].node].n
      modifies this, stack
      ensures Valid(mem, t, root, H) && head == old(head) + 1 && rest == old(rest)
      ensures stack[head].pos == 0
    {
      ghost var F, f, S, s := frames[..head], frames[head], spots[..head], spots[head];
      assert frames == F + [f];
      assert spots == S + [s];
      InvPush(mem, t, root, H, F, f, S, s, rest, j);
      var c := mem[stack[head].node].children[j];
      stack[head + 1] := Frame(0, c);
      assert stack[..head + 1] == frames;
      head := head + 1;
      frames := frames + [Frame(0, c)];
      spots := spots + [Spot(Abs(mem, c, H - head), 0)];
    }

    /** On an even position in an internal node: push the child it names,
        then its first children down to a leaf. */
    method Dive(mem: Mem, t: int, root: Ptr, ghost H: nat)
      requires Valid(mem, t, root, H) && root != NULL
      requires stack[head].node in mem && mem[stack[head].node].children != []
      requires stack[head].pos % 2 == 0 && stack[head].pos <= 2 * mem[stack[head].node].n
      modifies this, stack
      ensures Valid(mem, t, root, H) && rest == old(rest)
      ensures stack[head].node in mem && mem[stack[head].node].children == []
      ensures stack[head].pos == 0 && mem[stack[head].node].n >= 1
    {
      Top(mem, t, root, H);
      Push(mem, t, root, H, stack[head].pos / 2);
      Top(mem, t, root, H);
      while mem[stack[head].node].children != []
        invariant Valid(mem, t, root, H) && rest == old(rest)
        invariant head >= 1 && stack[head].pos == 0 && stack[head].node in mem
        decreases H - head
      {
        Top(mem, t, root, H);
        Push(mem, t, root, H, 0);
        Top(mem, t, root, H);
      }
      Top(mem, t, root, H);
    }

    /** Return the next element and move past it: two positions in a leaf,
        one in an internal node. */
    method Take(mem: Mem, t: int, root: Ptr, ghost H: nat) returns (v: int)
      requires Valid(mem, t, root, H) && root != NULL && stack[head].node in mem
      requires mem[stack[head].node].children == [] ==> stack[head].pos < 2 * mem[stack[head].node].n
      requires mem[stack[head].node].children != [] ==>
                 stack[head].pos % 2 == 1 && stack[head].pos <= 2 * mem[stack[head].node].n
      modifies this, stack
      ensures Valid(mem, t, root, H) && old(rest) != []
      ensures v == old(rest)[0] && rest == old(rest)[1..]
    {
      if mem[stack[head].node].children == [] {
        Move(mem, t, root, H, 2);
      } else {
        Move(mem, t, root, H, 1);
      }
      var pos := stack[head].pos;
      v := mem[stack[head].node].items[(pos - 1) / 2];
    }

    /** Move the top frame `step` positions on, two in a leaf and one in an
        internal node, past the item at `(pos-1)/2` of its new position
        `pos`, which is the first of what remained. */
    method Move(mem: Mem, t: int, root: Ptr, ghost H: nat, step: int)
      requires Valid(mem, t, root, H) && root != NULL && stack[head].node in mem
      requires mem[stack[head].node].children == [] ==> step == 2 && stack[head].pos < 2 * mem[stack[head].node].n
      requires mem[stack[head].node].children != [] ==>
                 step == 1 && stack[head].pos % 2 == 1 && stack[head].pos <= 2 * mem[stack[head].node].n
      modifies this, stack
      ensures Valid(mem, t, root, H) && head == old(head) && stack[head].node == old(stack[head].node)
      ensures stack[head].pos == old(stack[head].pos) + step
      ensures 0 <= (stack[head].pos - 1) / 2 < mem[stack[head].node].n <= |mem[stack[head].node].items|
      ensures old(rest) != [] && old(rest)[0] == mem[stack[head].node].items[(stack[head].pos - 1) / 2]
      ensures rest == old(rest)[1..]
    {
      ghost var F, f, S, s := frames[..head], frames[head], spots[..head], spots[head];
      assert frames == F + [f];
      assert spots == S + [s];
      InvTake(mem, t, root, H, F, f, S, s, rest, step);
      stack[head] := stack[head].(pos := stack[head].pos + step);
      assert stack[..head] == F && stack[head] == f.(pos := f.pos + step);
      frames := F + [f.(pos := f.pos + step)];
      spots := S + [s.(pos := s.pos + step)];
      rest := rest[1..];
    }

    /** The top frame's node read through its record. */
    lemma {:induction false} Top(mem: Mem, t: int, root: Ptr, H: nat)
      requires Valid(mem, t, root, H) && root != NULL
      ensures stack[head].node in mem && mem[stack[head].node].n <= |mem[stack[head].node].items|
      ensures 0 <= stack[head].pos
      ensures mem[stack[head].node].children != [] ==>
                head < H && mem[stack[head].node].n < |mem[stack[head].node].children|
      ensures head > 0 ==> mem[stack[head].node].n >= 1
    {
      assert frames == frames[..head] + [frames[head]];
      assert spots == spots[..head] + [spots[head]];
      InvLook(mem, t, root, H, frames[..head], frames[head], spots[..head], spots[head], rest);
    }

    /** With one frame left, nothing remains exactly when it is at its
        end. */
    lemma {:induction false} Spent(mem: Mem, t: int, root: Ptr, H: nat)
      requires Valid(mem, t, root, H) && root != NULL && head == 0
      ensures stack[0].node in mem && (rest == [] <==> End(mem, stack[0]))
    {
      InvSpent(mem, t, root, H, frames[0], spots[0], rest);
    }
  }

  // ---------------------------------------------------------------------
  // Lemmas on spots
  // ---------------------------------------------------------------------

  /** `Path` of a stack with one more spot on top. */
  lemma {:induction false} Snoc(P: seq<Spot>, s: Spot)
    ensures Path(P + [s]) <==>
              WellFormed(s.tree) && Stocked(s.tree) &&
              (P != [] ==> s.tree.items != [] && Path(P) && Step(P[|P| - 1], s))
  {
    assert (P + [s])[..|P|] == P;
  }

  /** `Rest` and `Pend` of a stack with one more spot on top. */
  lemma {:induction false} Grow(P: seq<Spot>, s: Spot)
    ensures Rest(P + [s]) == After(s.tree, s.pos / 2) + Rest(P)
    ensures Pend(P + [s]) == Cur(s.tree, s.pos) + Rest(P)
  {
    assert (P + [s])[..|P|] == P;
  }

  /** A subtree at position 0 has all of its in-order sequence left. */
  lemma {:induction false} Whole(a: Tree)
    requires WellFormed(a)
    ensures Cur(a, 0) == Flat(a)
  {
    if a.children != [] {
      assert [a.children[0]] + a.children[1..] == a.children;
      assert a.items[0..] == a.items;
      WeaveHead(a.children[0], a.children[1..], a.items);
    }
  }

  /** The start: the root's spot at position 0 has all of the tree's
      in-order sequence left. */
  lemma {:induction false} Start(a: Tree)
    requires WellFormed(a) && Stocked(a)
    ensures Path([Spot(a, 0)]) && Top(Spot(a, 0)) && Pend([Spot(a, 0)]) == Flat(a)
  {
    Snoc([], Spot(a, 0));
    Grow([], Spot(a, 0));
    assert [] + [Spot(a, 0)] == [Spot(a, 0)];
    Whole(a);
  }

  /** A spot whose subtree does not change keeps the path. */
  lemma {:induction false} Retop(P: seq<Spot>, s: Spot, s': Spot)
    requires Path(P + [s]) && s'.tree == s.tree
    ensures Path(P + [s'])
  {
    Snoc(P, s);
    Snoc(P, s');
  }

  /** When the top spot's rest starts with `x` followed by the rest of
      `s'`, the whole of what remains does too. */
  lemma {:induction false} Shift(P: seq<Spot>, s: Spot, s': Spot, x: int)
    requires Cur(s.tree, s.pos) == [x] + Cur(s'.tree, s'.pos)
    ensures Pend(P + [s]) == [x] + Pend(P + [s'])
  {
    Grow(P, s);
    Grow(P, s');
    Cons(x, Cur(s.tree, s.pos), Cur(s'.tree, s'.pos), Rest(P));
  }

  /** `A` starting with `x` followed by `B`, with `R` after it. */
  lemma Assoc(A: seq<int>, B: seq<int>, C: seq<int>)
    ensures A + (B + C) == (A + B) + C
  {
  }

  lemma {:induction false} Cons(x: int, A: seq<int>, B: seq<int>, R: seq<int>)
    requires A == [x] + B
    ensures A + R == [x] + (B + R)
  {
  }

  /** Popping a finished spot `s` off `q` keeps the path; `q`, at an even
      position in an internal node, moves past the child `s` was in. */
  lemma {:induction false} PopPath(P: seq<Spot>, q: Spot, s: Spot)
    requires Path(P + [q] + [s])
    ensures Path(P + [q.(pos := q.pos + 1)]) && Top(q.(pos := q.pos + 1))
    ensures q.tree.children != [] && q.pos % 2 == 0
  {
    Snoc(P + [q], s);
    Retop(P, q, q.(pos := q.pos + 1));
    assert Step(q, s);
  }

  /** Popping a finished spot `s` off `q` leaves what remains as it was. */
  lemma {:induction false} PopPend(P: seq<Spot>, q: Spot, s: Spot)
    requires q.tree.children != [] && q.pos % 2 == 0 && Cur(s.tree, s.pos) == []
    ensures Pend(P + [q.(pos := q.pos + 1)]) == Pend(P + [q] + [s])
  {
    var q' := q.(pos := q.pos + 1);
    Grow(P + [q], s);
    Grow(P, q);
    Grow(P, q');
    assert (q.pos + 1) / 2 == q.pos / 2 && (q.pos + 1) % 2 == 1;
    assert Cur(q'.tree, q'.pos) == After(q.tree, q.pos / 2);
  }

  /** Pushing child `j` of the top spot's subtree, whose position is `2j`,
      extends the path. */
  lemma {:induction false} PushPath(P: seq<Spot>, s: Spot, j: int)
    requires Path(P + [s]) && s.tree.children != [] && s.pos == 2 * j && 0 <= j <= |s.tree.items|
    ensures j < |s.tree.children|
    ensures Path(P + [s] + [Spot(s.tree.children[j], 0)]) && Top(Spot(s.tree.children[j], 0))
  {
    var a := s.tree;
    Snoc(P, s);
    Snoc(P + [s], Spot(a.children[j], 0));
    assert a.children[j].items != [];
  }

  /** At position `2j` of an internal node: child `j`, then what follows
      it. */
  lemma {:induction false} CurPush(a: Tree, j: int)
    requires WellFormed(a) && a.children != [] && 0 <= j <= |a.items|
    ensures j < |a.children| && Cur(a, 2 * j) == Cur(a.children[j], 0) + After(a, j)
  {
    Whole(a.children[j]);
  }

  /** Pushing child `j` of the top spot's subtree, whose position is `2j`,
      leaves what remains as it was. */
  lemma {:induction false} PushPend(P: seq<Spot>, s: Spot, j: int)
    requires WellFormed(s.tree) && s.tree.children != [] && s.pos == 2 * j && 0 <= j <= |s.tree.items|
    ensures j < |s.tree.children|
    ensures Pend(P + [s] + [Spot(s.tree.children[j], 0)]) == Pend(P + [s])
  {
    var a := s.tree;
    var c := Spot(a.children[j], 0);
    assert s.pos / 2 == j;
    Grow(P, s);
    Grow(P + [s], c);
    CurPush(a, j);
    Assoc(Cur(c.tree, c.pos), After(a, j), Rest(P));
  }

  /** In a leaf, item `m` is the first of what is left at position `2m`. */
  lemma {:induction false} CurLeaf(a: Tree, m: int)
    requires a.children == [] && 0 <= m < |a.items|
    ensures Cur(a, 2 * m) == [a.items[m]] + Cur(a, 2 * m + 2)
  {
    assert a.items[m..] == [a.items[m]] + a.items[m + 1..];
  }

  /** In an internal node, item `j` is the first of what is left at
      position `2j+1`; child `j+1` is next. */
  lemma {:induction false} CurInner(a: Tree, j: int)
    requires WellFormed(a) && a.children != [] && 0 <= j < |a.items|
    ensures Cur(a, 2 * j + 1) == [a.items[j]] + Cur(a, 2 * j + 2)
  {
    assert a.children[j + 1..][1..] == a.children[j + 2..] && a.items[j..][1..] == a.items[j + 1..];
    assert Cur(a, 2 * j + 1) == After(a, j);
    assert Cur(a, 2 * j + 2) == Flat(a.children[j + 1]) + After(a, j + 1);
  }

  /** Taking item `pos/2` from a leaf at an even position: it is the
      first of what remains. */
  lemma {:induction false} LeafSpots(P: seq<Spot>, s: Spot)
    requires Path(P + [s]) && s.tree.children == [] && s.pos % 2 == 0 && 0 <= s.pos / 2 < |s.tree.items|
    ensures Path(P + [s.(pos := s.pos + 2)]) && Top(s.(pos := s.pos + 2))
    ensures Pend(P + [s]) == [s.tree.items[s.pos / 2]] + Pend(P + [s.(pos := s.pos + 2)])
  {
    var m := s.pos / 2;
    assert s.pos == 2 * m;
    Retop(P, s, s.(pos := s.pos + 2));
    CurLeaf(s.tree, m);
    Shift(P, s, s.(pos := s.pos + 2), s.tree.items[m]);
  }

  /** Taking item `pos/2` from an internal node at an odd position, its
      child `pos/2` done: it is the first of what remains, and child
      `pos/2 + 1` is next. */
  lemma {:induction false} InnerSpots(P: seq<Spot>, s: Spot)
    requires Path(P + [s]) && s.tree.children != [] && s.pos % 2 == 1 && 0 <= s.pos / 2 < |s.tree.items|
    ensures Path(P + [s.(pos := s.pos + 1)]) && Top(s.(pos := s.pos + 1))
    ensures Pend(P + [s]) == [s.tree.items[s.pos / 2]] + Pend(P + [s.(pos := s.pos + 1)])
  {
    Retop(P, s, s.(pos := s.pos + 1));
    Snoc(P, s);
    InnerShift(P, s);
  }

  /** What remains after taking item `pos/2` from an internal node at an
      odd position. */
  lemma {:induction false} InnerShift(P: seq<Spot>, s: Spot)
    requires WellFormed(s.tree) && s.tree.children != [] && s.pos % 2 == 1 && 0 <= s.pos / 2 < |s.tree.items|
    ensures Pend(P + [s]) == [s.tree.items[s.pos / 2]] + Pend(P + [s.(pos := s.pos + 1)])
  {
    var j := s.pos / 2;
    assert s.pos == 2 * j + 1;
    CurInner(s.tree, j);
    Shift(P, s, s.(pos := s.pos + 1), s.tree.items[j]);
  }

  /** When the top spot is at its end; with no spot below, nothing else
      remains. */
  lemma {:induction false} EndSpots(P: seq<Spot>, s: Spot)
    requires Path(P + [s]) && Top(s)
    ensures Cur(s.tree, s.pos) == [] <==>
              (if s.tree.children == [] then s.pos >= 2 * |s.tree.items| else s.pos > 2 * |s.tree.items|)
    ensures P == [] ==> Pend(P + [s]) == Cur(s.tree, s.pos)
  {
    Snoc(P, s);
    Grow(P, s);
    var a := s.tree;
    var j := s.pos / 2;
    if a.children != [] && s.pos <= 2 * |a.items| {
      if s.pos % 2 == 0 {
        assert a.children[j].items != [];
        ItemInFlat(a.children[j], 0);
      } else {
        assert After(a, j)[0] == a.items[j];
      }
    }
  }

  // ---------------------------------------------------------------------
  // Lemmas on frames
  // ---------------------------------------------------------------------

  /** A node read through its record. */
  lemma {:induction false} Record(mem: Mem, t: int, p: Ptr, h: nat)
    requires Wf(mem, t, p, h)
    ensures p in mem && 0 <= mem[p].n <= |mem[p].items| && Keys(mem[p]) == Abs(mem, p, h).items
    ensures |Abs(mem, p, h).items| == mem[p].n
    ensures |Kids(mem[p])| == mem[p].c == |Abs(mem, p, h).children|
    ensures (mem[p].children == []) == (h == 0) && (h == 0) == (Abs(mem, p, h).children == [])
    ensures mem[p].children != [] ==> mem[p].c <= |mem[p].children|
  {
    Nodes.Arity(mem, t, p, h);
  }

  /** Child `j` of a node read through its record. */
  lemma {:induction false} Child(mem: Mem, t: int, p: Ptr, h: nat, j: int)
    requires Wf(mem, t, p, h) && p in mem && mem[p].children != [] && 0 <= j < mem[p].c
    ensures h > 0 && j < |Kids(mem[p])| && j < |mem[p].children| && mem[p].children[j] == Kids(mem[p])[j]
    ensures Wf(mem, t, Kids(mem[p])[j], h - 1)
    ensures j < |Abs(mem, p, h).children| && Abs(mem, Kids(mem[p])[j], h - 1) == Abs(mem, p, h).children[j]
  {
    Nodes.Arity(mem, t, p, h);
    var q := Nodes.KidRecord(mem, t, p, h, j);
    assert Wf(mem, t, q, h - 1);
    Nodes.ChildAbs(mem, p, h, j);
  }
}
