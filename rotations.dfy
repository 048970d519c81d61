/**
 * `node_shift_left` and `node_shift_right` of src/btree.c on the memory of
 * module Memory: one item rotates through the parent `x` between its
 * neighbouring children `y = children[i]` and `z = children[i+1]`, and with it
 * (when the children are internal) one child pointer. Each is proved to leave
 * the subtree at `x` well formed, over the same addresses, with the value that
 * `Primitives.ShiftLeft` or `Primitives.ShiftRight` gives.
 */
module Rotations {
  import opened Model
  import opened Memory
  import opened Buffers
  import opened Siblings
  import opened Nodes
  import Primitives

  /** What both shifts need of `x`: an item `i` with a child on either side,
      and children whose buffers can take one more item and child. */
  ghost predicate Rotatable(a: Tree, i: int, t: int)
  {
    0 <= i < |a.items| && |a.children| == |a.items| + 1 && |a.items| <= 2 * t - 1 &&
    Snug(a.children[i], t) && Snug(a.children[i + 1], t) &&
    (a.children[i].children == [] <==> a.children[i + 1].children == [])
  }

  /** `node_shift_left` moves the first item of `z`: `z` must have one. */
  ghost predicate LeftReady(a: Tree, i: int, t: int)
  {
    Rotatable(a, i, t) && |a.children[i + 1].items| >= 1
  }

  /** `node_shift_right` moves the last item of `y`: `y` must have one. */
  ghost predicate RightReady(a: Tree, i: int, t: int)
  {
    Rotatable(a, i, t) && |a.children[i].items| >= 1
  }

  // ---------------------------------------------------------------------
  // Record facts
  // ---------------------------------------------------------------------

  /** The record-level reading of `Rotatable` and of `x` being well formed. */
  lemma RotateFacts(mem: Mem, t: int, x: Ptr, i: int, h: nat) returns (y: Ptr, z: Ptr)
    requires h > 0 && Wf(mem, t, x, h) && Rotatable(Abs(mem, x, h), i, t)
    ensures mem[x].c == mem[x].n + 1 && mem[x].n <= 2 * t - 1 && 0 <= i < mem[x].n
    ensures Fits(mem[x], t, h) && |Keys(mem[x])| == mem[x].n && |Kids(mem[x])| == mem[x].c
    ensures y == mem[x].children[i] && z == mem[x].children[i + 1]
    ensures y == Kids(mem[x])[i] && z == Kids(mem[x])[i + 1]
    ensures y in mem && z in mem && y != z && x != y && x != z
    ensures Fits(mem[y], t, h - 1) && Fits(mem[z], t, h - 1)
    ensures mem[y].n <= 2 * t - 1 && mem[z].n <= 2 * t - 1
    ensures h > 1 ==> mem[y].c == mem[y].n + 1 && mem[z].c == mem[z].n + 1
    ensures |Abs(mem, x, h).children[i].items| == mem[y].n && |Abs(mem, x, h).children[i + 1].items| == mem[z].n
  {
    RotateParent(mem, t, x, i, h);
    y := KidRecord(mem, t, x, h, i);
    z := KidRecord(mem, t, x, h, i + 1);
    var a := Abs(mem, x, h);
    SnugCount(a.children[i], mem[y].n, mem[y].c, t, h - 1 > 0);
    SnugCount(a.children[i + 1], mem[z].n, mem[z].c, t, h - 1 > 0);
    assert y != z && x != y && x != z by {
      var y0, z0 := SiblingFacts(mem, t, x, i, h);
    }
  }

  /** The record of the parent in a shift. */
  lemma RotateParent(mem: Mem, t: int, x: Ptr, i: int, h: nat)
    requires h > 0 && Wf(mem, t, x, h) && Rotatable(Abs(mem, x, h), i, t)
    ensures mem[x].c == mem[x].n + 1 && mem[x].n <= 2 * t - 1 && 0 <= i < mem[x].n
    ensures Fits(mem[x], t, h) && |Keys(mem[x])| == mem[x].n && |Kids(mem[x])| == mem[x].c
    ensures Kids(mem[x]) == mem[x].children[..mem[x].c]
  {
    Counts(mem, t, x, h);
  }

  /** The counts of a snug node: at most `2t-1` items, and one child more
      than items when it has children. */
  lemma SnugCount(m: Tree, n: int, c: int, t: int, internal: bool)
    requires Snug(m, t) && |m.items| == n && |m.children| == c && (internal <==> c != 0)
    ensures n <= 2 * t - 1 && (internal ==> c == n + 1)
  {
  }

  // ---------------------------------------------------------------------
  // node_shift_left
  // ---------------------------------------------------------------------

  /** What `LendLeft` computes from the records `rx`, `ry` and `rz`. */
  ghost predicate LentLeft(rx: NodeRec, ry: NodeRec, rz: NodeRec, xr: NodeRec, yr: NodeRec, zr: NodeRec,
                           i: int, t: int, h: nat)
  {
    h > 0 && 0 <= i < |Keys(rx)| && |Keys(rz)| >= 1 &&
    Fits(xr, t, h) && Keys(xr) == Keys(rx)[i := Keys(rz)[0]] && Kids(xr) == Kids(rx) &&
    Fits(yr, t, h - 1) && Keys(yr) == Keys(ry) + [Keys(rx)[i]] &&
    Fits(zr, t, h - 1) && Keys(zr) == Keys(rz)[1..] &&
    (h > 1 ==> |Kids(rz)| >= 1 && Kids(yr) == Kids(ry) + [Kids(rz)[0]] && Kids(zr) == Kids(rz)[1..])
  }

  /** The record moves of `node_shift_left`: item `i` of `x` is appended to
      `y`, the first item of `z` takes its place, the items of `z` close up,
      and when `z` is internal its first child is appended to `y` and its
      children close up. */
  method LendLeft(xr: NodeRec, yr: NodeRec, zr: NodeRec, i: int, t: int, ghost h: nat)
    returns (xr': NodeRec, yr': NodeRec, zr': NodeRec)
    requires h > 0 && Fits(xr, t, h) && xr.c == xr.n + 1 && 0 <= i < xr.n
    requires Fits(yr, t, h - 1) && Fits(zr, t, h - 1) && yr.n <= 2 * t - 1 && zr.n <= 2 * t - 1 && zr.n >= 1
    requires h > 1 ==> yr.c == yr.n + 1 && zr.c == zr.n + 1
    ensures LentLeft(xr, yr, zr, xr', yr', zr', i, t, h)
  {
    yr' := yr.(items := yr.items[yr.n := xr.items[i]], n := yr.n + 1);
    xr' := xr.(items := xr.items[i := zr.items[0]]);
    zr' := CloseFrontItem(zr, t, h - 1);
    if zr'.children != [] {
      yr', zr' := PassFirstChild(yr', zr', t, h - 1);
    }
    zr' := zr'.(n := zr'.n - 1);
    assert Keys(yr') == Keys(yr) + [Keys(xr)[i]];
  }

  /** The items of `z` after the first move down one slot; the count is
      lowered by the caller. */
  method CloseFrontItem(zr: NodeRec, t: int, ghost h: nat) returns (zr': NodeRec)
    requires Fits(zr, t, h) && zr.n >= 1
    ensures zr' == zr.(items := zr'.items) && |zr'.items| == |zr.items|
    ensures zr'.items[..zr.n - 1] == Keys(zr)[1..]
  {
    var its := ShiftDown(zr.items, 0, zr.n - 1);
    zr' := zr.(items := its);
  }

  /** The first child of `z` is appended to the children of `y`, and the
      children of `z` after it move down one slot. */
  method PassFirstChild(yr: NodeRec, zr: NodeRec, t: int, ghost h: nat) returns (yr': NodeRec, zr': NodeRec)
    requires h > 0 && Fits(yr, t, h) && Fits(zr, t, h) && yr.c <= 2 * t && 2 <= zr.c <= 2 * t
    ensures yr' == yr.(children := yr'.children, c := yr.c + 1) && zr' == zr.(children := zr'.children, c := zr.c - 1)
    ensures Fits(yr', t, h) && Fits(zr', t, h)
    ensures Kids(yr') == Kids(yr) + [Kids(zr)[0]] && Kids(zr') == Kids(zr)[1..]
  {
    yr' := yr.(children := yr.children[yr.c := zr.children[0]], c := yr.c + 1);
    var cs := ShiftDown(zr.children, 0, zr.c);
    zr' := zr.(children := cs, c := zr.c - 1);
    assert Kids(yr') == Kids(yr) + [Kids(zr)[0]];
  }

  /** `node_shift_left(x, i)`. */
  method ShiftLeft(heap: Heap, t: int, x: Ptr, i: int, ghost h: nat)
    requires heap.Valid() && h > 0 && Wf(heap.mem, t, x, h) && LeftReady(Abs(heap.mem, x, h), i, t)
    modifies heap
    ensures heap.Valid() && heap.next == old(heap.next) && heap.mem.Keys == old(heap.mem).Keys
    ensures Agree(old(heap.mem), heap.mem, old(heap.mem).Keys - old(Reach(heap.mem, x, h)))
    ensures Wf(heap.mem, t, x, h)
    ensures Abs(heap.mem, x, h) == Primitives.ShiftLeft(old(Abs(heap.mem, x, h)), i)
    ensures Reach(heap.mem, x, h) == old(Reach(heap.mem, x, h))
    ensures Kids(heap.mem[x]) == old(Kids(heap.mem[x]))
  {
    ghost var mem := heap.mem;
    ghost var y0, z0 := RotateFacts(mem, t, x, i, h);
    var y := heap.mem[x].children[i];
    var z := heap.mem[x].children[i + 1];
    var xr, yr, zr := LendLeft(heap.mem[x], heap.mem[y], heap.mem[z], i, t, h);
    Store(heap, y, yr);
    Store(heap, z, zr);
    Store(heap, x, xr);
    ShiftLeftStore(mem, t, x, i, h, y, z, xr, yr, zr);
  }

  /** Storing the three records `node_shift_left` rewrites rebuilds the
      subtree at `x` as the rotation of its value. */
  lemma ShiftLeftStore(mem: Mem, t: int, x: Ptr, i: int, h: nat, y: Ptr, z: Ptr, xr: NodeRec, yr: NodeRec, zr: NodeRec)
    requires h > 0 && Wf(mem, t, x, h) && LeftReady(Abs(mem, x, h), i, t)
    requires x in mem && y == mem[x].children[i] && z == mem[x].children[i + 1] && y in mem && z in mem
    requires LentLeft(mem[x], mem[y], mem[z], xr, yr, zr, i, t, h)
    ensures mem[y := yr][z := zr][x := xr].Keys == mem.Keys
    ensures Agree(mem, mem[y := yr][z := zr][x := xr], mem.Keys - Reach(mem, x, h))
    ensures Wf(mem[y := yr][z := zr][x := xr], t, x, h)
    ensures Abs(mem[y := yr][z := zr][x := xr], x, h) == Primitives.ShiftLeft(Abs(mem, x, h), i)
    ensures Reach(mem[y := yr][z := zr][x := xr], x, h) == Reach(mem, x, h)
  {
    var y0, z0 := RotateFacts(mem, t, x, i, h);
    var k := if h > 1 then |Kids(mem[y])| + 1 else 0;
    if h > 1 {
      LeftSlices(Kids(mem[y]), Kids(mem[z]));
    }
    var C := RotateStore(mem, t, x, i, h, y, z, xr, yr, zr, k);
    ShiftLeftValue(mem, t, x, i, h, y, z, Keys(xr), Keys(yr), Keys(zr), k, C);
  }

  /** The children of `y` and `z` after a left shift, as slices of their
      concatenation. */
  lemma LeftSlices(ky: seq<Ptr>, kz: seq<Ptr>)
    requires |kz| >= 1
    ensures (ky + kz)[..|ky| + 1] == ky + [kz[0]] && (ky + kz)[|ky| + 1..] == kz[1..]
  {
  }

  /** `Primitives.ShiftLeft` of the value of `x`, spelled out in its records. */
  lemma ShiftLeftValue(mem: Mem, t: int, x: Ptr, i: int, h: nat, y: Ptr, z: Ptr,
                       xs: seq<int>, ys: seq<int>, zs: seq<int>, k: int, C: seq<Tree>)
    requires h > 0 && Wf(mem, t, x, h) && LeftReady(Abs(mem, x, h), i, t) && x in mem && y in mem && z in mem
    requires 0 <= i && i + 1 < |Kids(mem[x])| && y == Kids(mem[x])[i] && z == Kids(mem[x])[i + 1]
    requires |Keys(mem[z])| >= 1 && 0 <= i < |Keys(mem[x])|
    requires xs == Keys(mem[x])[i := Keys(mem[z])[0]] && ys == Keys(mem[y]) + [Keys(mem[x])[i]] && zs == Keys(mem[z])[1..]
    requires k == (if h > 1 then |Kids(mem[y])| + 1 else 0)
    requires C == Abs(mem, y, h - 1).children + Abs(mem, z, h - 1).children && 0 <= k <= |C|
    ensures Primitives.ShiftLeft(Abs(mem, x, h), i) ==
            Node(xs, Abses(mem, Kids(mem[x]), h - 1)[..i] + [Node(ys, C[..k]), Node(zs, C[k..])] +
                     Abses(mem, Kids(mem[x]), h - 1)[i + 2..])
  {
    var a := Abs(mem, x, h);
    var ya, za := RotateValues(mem, t, x, i, h, y, z);
    ShiftLeftOf(a, i, ya, za, xs, ys, zs, k);
  }

  /** The values of the parent and its two children in a shift, read off
      their records. */
  lemma RotateValues(mem: Mem, t: int, x: Ptr, i: int, h: nat, y: Ptr, z: Ptr) returns (ya: Tree, za: Tree)
    requires h > 0 && Wf(mem, t, x, h) && 0 <= i && i + 1 < |Kids(mem[x])|
    requires y == Kids(mem[x])[i] && z == Kids(mem[x])[i + 1]
    ensures y in mem && z in mem && ya == Abs(mem, y, h - 1) && za == Abs(mem, z, h - 1)
    ensures Abs(mem, x, h) == Node(Keys(mem[x]), Abses(mem, Kids(mem[x]), h - 1))
    ensures Abs(mem, x, h).children[i] == ya && Abs(mem, x, h).children[i + 1] == za
    ensures ya.items == Keys(mem[y]) && za.items == Keys(mem[z])
    ensures |ya.children| == (if h > 1 then |Kids(mem[y])| else 0)
    ensures h > 1 <==> za.children != []
  {
    ya, za := Abs(mem, y, h - 1), Abs(mem, z, h - 1);
    AbsOf(mem, x, h);
    ChildAbs(mem, x, h, i);
    ChildAbs(mem, x, h, i + 1);
    var y0 := KidRecord(mem, t, x, h, i);
    var z0 := KidRecord(mem, t, x, h, i + 1);
    AbsShape(mem, y, h - 1);
    AbsShape(mem, z, h - 1);
  }

  /** The items of the value of an allocated node are its live items, and
      it has as many children as live child pointers unless it is a leaf. */
  lemma AbsShape(mem: Mem, p: Ptr, h: nat)
    requires p in mem
    ensures Abs(mem, p, h).items == Keys(mem[p])
    ensures |Abs(mem, p, h).children| == (if h == 0 then 0 else |Kids(mem[p])|)
  {
  }

  /** The value equation of a left shift, on values. */
  lemma ShiftLeftOf(a: Tree, i: int, ya: Tree, za: Tree, xs: seq<int>, ys: seq<int>, zs: seq<int>, k: int)
    requires 0 <= i < |a.items| && i + 1 < |a.children| && a.children[i] == ya && a.children[i + 1] == za
    requires |za.items| >= 1 && xs == a.items[i := za.items[0]] && ys == ya.items + [a.items[i]] && zs == za.items[1..]
    requires k == (if za.children == [] then 0 else |ya.children| + 1)
    requires za.children == [] ==> ya.children == []
    ensures Primitives.ShiftLeft(a, i) ==
            Node(xs, a.children[..i] + [Node(ys, (ya.children + za.children)[..k]),
                                         Node(zs, (ya.children + za.children)[k..])] + a.children[i + 2..])
  {
    var C := ya.children + za.children;
    var y' := Node(ys, C[..k]);
    var z' := Node(zs, C[k..]);
    if za.children != [] {
      assert C[..k] == ya.children + [za.children[0]] && C[k..] == za.children[1..];
    }
    assert a.children[i := y'][i + 1 := z'] == a.children[..i] + [y', z'] + a.children[i + 2..];
  }

  // ---------------------------------------------------------------------
  // node_shift_right
  // ---------------------------------------------------------------------

  /** What `LendRight` computes from the records `rx`, `ry` and `rz`. */
  ghost predicate LentRight(rx: NodeRec, ry: NodeRec, rz: NodeRec, xr: NodeRec, yr: NodeRec, zr: NodeRec,
                            i: int, t: int, h: nat)
  {
    h > 0 && 0 <= i < |Keys(rx)| && |Keys(ry)| >= 1 &&
    Fits(xr, t, h) && Keys(xr) == Keys(rx)[i := Keys(ry)[|Keys(ry)| - 1]] && Kids(xr) == Kids(rx) &&
    Fits(yr, t, h - 1) && Keys(yr) == Keys(ry)[..|Keys(ry)| - 1] &&
    Fits(zr, t, h - 1) && Keys(zr) == [Keys(rx)[i]] + Keys(rz) &&
    (h > 1 ==> |Kids(ry)| >= 1 && Kids(yr) == Kids(ry)[..|Kids(ry)| - 1] &&
               Kids(zr) == [Kids(ry)[|Kids(ry)| - 1]] + Kids(rz))
  }

  /** The record moves of `node_shift_right`: the items of `z` move up one
      slot and item `i` of `x` takes the first, the last item of `y` takes its
      place, and when `z` is internal its children move up one slot and the
      last child of `y` takes the first. */
  method LendRight(xr: NodeRec, yr: NodeRec, zr: NodeRec, i: int, t: int, ghost h: nat)
    returns (xr': NodeRec, yr': NodeRec, zr': NodeRec)
    requires h > 0 && Fits(xr, t, h) && xr.c == xr.n + 1 && 0 <= i < xr.n
    requires Fits(yr, t, h - 1) && Fits(zr, t, h - 1) && yr.n <= 2 * t - 1 && zr.n <= 2 * t - 1 && yr.n >= 1
    requires h > 1 ==> yr.c == yr.n + 1 && zr.c == zr.n + 1
    ensures LentRight(xr, yr, zr, xr', yr', zr', i, t, h)
  {
    zr' := PrependItem(zr, xr.items[i], t, h - 1);
    yr' := yr.(n := yr.n - 1);
    xr' := xr.(items := xr.items[i := yr'.items[yr'.n]]);
    if zr'.children != [] {
      yr', zr' := PassLastChild(yr', zr', t, h - 1);
    }
    zr' := zr'.(n := zr'.n + 1);
    assert Keys(zr') == [Keys(xr)[i]] + Keys(zr);
  }

  /** The items of `z` move up one slot and `v` takes the first; the count
      is raised by the caller. */
  method PrependItem(zr: NodeRec, v: int, t: int, ghost h: nat) returns (zr': NodeRec)
    requires Fits(zr, t, h) && zr.n <= 2 * t - 1
    ensures zr' == zr.(items := zr'.items) && |zr'.items| == |zr.items|
    ensures zr'.items[..zr.n + 1] == [v] + Keys(zr)
  {
    var its := ShiftUp(zr.items, 0, zr.n - 1);
    zr' := zr.(items := its[0 := v]);
  }

  /** The children of `z` move up one slot and the last child of `y` takes
      the first. */
  method PassLastChild(yr: NodeRec, zr: NodeRec, t: int, ghost h: nat) returns (yr': NodeRec, zr': NodeRec)
    requires h > 0 && Fits(yr, t, h) && Fits(zr, t, h) && yr.c >= 2 && zr.c <= 2 * t
    ensures yr' == yr.(c := yr.c - 1) && zr' == zr.(children := zr'.children, c := zr.c + 1)
    ensures Fits(yr', t, h) && |zr'.children| == |zr.children|
    ensures Kids(yr') == Kids(yr)[..|Kids(yr)| - 1] && Kids(zr') == [Kids(yr)[|Kids(yr)| - 1]] + Kids(zr)
  {
    var cs := ShiftUp(zr.children, 0, zr.c - 1);
    zr' := zr.(children := cs, c := zr.c + 1);
    yr' := yr.(c := yr.c - 1);
    zr' := zr'.(children := zr'.children[0 := yr'.children[yr'.c]]);
    assert Kids(zr') == [Kids(yr)[|Kids(yr)| - 1]] + Kids(zr);
  }

  /** `node_shift_right(x, i)`. */
  method ShiftRight(heap: Heap, t: int, x: Ptr, i: int, ghost h: nat)
    requires heap.Valid() && h > 0 && Wf(heap.mem, t, x, h) && RightReady(Abs(heap.mem, x, h), i, t)
    modifies heap
    ensures heap.Valid() && heap.next == old(heap.next) && heap.mem.Keys == old(heap.mem).Keys
    ensures Agree(old(heap.mem), heap.mem, old(heap.mem).Keys - old(Reach(heap.mem, x, h)))
    ensures Wf(heap.mem, t, x, h)
    ensures Abs(heap.mem, x, h) == Primitives.ShiftRight(old(Abs(heap.mem, x, h)), i)
    ensures Reach(heap.mem, x, h) == old(Reach(heap.mem, x, h))
    ensures Kids(heap.mem[x]) == old(Kids(heap.mem[x]))
  {
    ghost var mem := heap.mem;
    ghost var y0, z0 := RotateFacts(mem, t, x, i, h);
    var y := heap.mem[x].children[i];
    var z := heap.mem[x].children[i + 1];
    var xr, yr, zr := LendRight(heap.mem[x], heap.mem[y], heap.mem[z], i, t, h);
    Store(heap, y, yr);
    Store(heap, z, zr);
    Store(heap, x, xr);
    ShiftRightStore(mem, t, x, i, h, y, z, xr, yr, zr);
  }

  /** Storing the three records `node_shift_right` rewrites rebuilds the
      subtree at `x` as the rotation of its value. */
  lemma ShiftRightStore(mem: Mem, t: int, x: Ptr, i: int, h: nat, y: Ptr, z: Ptr, xr: NodeRec, yr: NodeRec, zr: NodeRec)
    requires h > 0 && Wf(mem, t, x, h) && RightReady(Abs(mem, x, h), i, t)
    requires x in mem && y == mem[x].children[i] && z == mem[x].children[i + 1] && y in mem && z in mem
    requires LentRight(mem[x], mem[y], mem[z], xr, yr, zr, i, t, h)
    ensures mem[y := yr][z := zr][x := xr].Keys == mem.Keys
    ensures Agree(mem, mem[y := yr][z := zr][x := xr], mem.Keys - Reach(mem, x, h))
    ensures Wf(mem[y := yr][z := zr][x := xr], t, x, h)
    ensures Abs(mem[y := yr][z := zr][x := xr], x, h) == Primitives.ShiftRight(Abs(mem, x, h), i)
    ensures Reach(mem[y := yr][z := zr][x := xr], x, h) == Reach(mem, x, h)
  {
    var y0, z0 := RotateFacts(mem, t, x, i, h);
    var k := if h > 1 then |Kids(mem[y])| - 1 else 0;
    if h > 1 {
      RightSlices(Kids(mem[y]), Kids(mem[z]));
    }
    var C := RotateStore(mem, t, x, i, h, y, z, xr, yr, zr, k);
    ShiftRightValue(mem, t, x, i, h, y, z, Keys(xr), Keys(yr), Keys(zr), k, C);
  }

  /** The children of `y` and `z` after a right shift, as slices of their
      concatenation. */
  lemma RightSlices(ky: seq<Ptr>, kz: seq<Ptr>)
    requires |ky| >= 1
    ensures (ky + kz)[..|ky| - 1] == ky[..|ky| - 1] && (ky + kz)[|ky| - 1..] == [ky[|ky| - 1]] + kz
  {
  }

  /** `Primitives.ShiftRight` of the value of `x`, spelled out in its records. */
  lemma ShiftRightValue(mem: Mem, t: int, x: Ptr, i: int, h: nat, y: Ptr, z: Ptr,
                        xs: seq<int>, ys: seq<int>, zs: seq<int>, k: int, C: seq<Tree>)
    requires h > 0 && Wf(mem, t, x, h) && RightReady(Abs(mem, x, h), i, t) && x in mem && y in mem && z in mem
    requires 0 <= i && i + 1 < |Kids(mem[x])| && y == Kids(mem[x])[i] && z == Kids(mem[x])[i + 1]
    requires |Keys(mem[y])| >= 1 && 0 <= i < |Keys(mem[x])|
    requires xs == Keys(mem[x])[i := Keys(mem[y])[|Keys(mem[y])| - 1]]
    requires ys == Keys(mem[y])[..|Keys(mem[y])| - 1] && zs == [Keys(mem[x])[i]] + Keys(mem[z])
    requires k == (if h > 1 then |Kids(mem[y])| - 1 else 0)
    requires C == Abs(mem, y, h - 1).children + Abs(mem, z, h - 1).children && 0 <= k <= |C|
    ensures Primitives.ShiftRight(Abs(mem, x, h), i) ==
            Node(xs, Abses(mem, Kids(mem[x]), h - 1)[..i] + [Node(ys, C[..k]), Node(zs, C[k..])] +
                     Abses(mem, Kids(mem[x]), h - 1)[i + 2..])
  {
    var a := Abs(mem, x, h);
    var ya, za := RotateValues(mem, t, x, i, h, y, z);
    ShiftRightOf(a, i, ya, za, xs, ys, zs, k, t);
  }

  /** The value equation of a right shift, on values. */
  lemma ShiftRightOf(a: Tree, i: int, ya: Tree, za: Tree, xs: seq<int>, ys: seq<int>, zs: seq<int>, k: int, t: int)
    requires 0 <= i < |a.items| && i + 1 < |a.children| && a.children[i] == ya && a.children[i + 1] == za
    requires |ya.items| >= 1 && xs == a.items[i := ya.items[|ya.items| - 1]]
    requires ys == ya.items[..|ya.items| - 1] && zs == [a.items[i]] + za.items
    requires za.children != [] ==> |ya.children| >= 1
    requires k == (if za.children == [] then 0 else |ya.children| - 1)
    requires za.children == [] ==> ya.children == []
    ensures Primitives.ShiftRight(a, i) ==
            Node(xs, a.children[..i] + [Node(ys, (ya.children + za.children)[..k]),
                                         Node(zs, (ya.children + za.children)[k..])] + a.children[i + 2..])
  {
    var C := ya.children + za.children;
    var y' := Node(ys, C[..k]);
    var z' := Node(zs, C[k..]);
    if za.children != [] {
      assert C[..k] == ya.children[..|ya.children| - 1];
      assert C[k..] == [ya.children[|ya.children| - 1]] + za.children;
    }
    assert a.children[i := y'][i + 1 := z'] == a.children[..i] + [y', z'] + a.children[i + 2..];
  }

  // ---------------------------------------------------------------------
  // Both shifts
  // ---------------------------------------------------------------------

  /** The memory after a shift: `x`, `y` and `z` rewritten, `x` with its
      old children and `y` and `z` sharing out their children at `k`. */
  lemma RotateStore(mem: Mem, t: int, x: Ptr, i: int, h: nat, y: Ptr, z: Ptr, xr: NodeRec, yr: NodeRec, zr: NodeRec, k: int)
    returns (C: seq<Tree>)
    requires h > 0 && Wf(mem, t, x, h) && 0 <= i && i + 1 < |Kids(mem[x])|
    requires y == Kids(mem[x])[i] && z == Kids(mem[x])[i + 1] && y in mem && z in mem
    requires Fits(xr, t, h) && Kids(xr) == Kids(mem[x]) && Fits(yr, t, h - 1) && Fits(zr, t, h - 1)
    requires h == 1 ==> k == 0
    requires h > 1 ==> 0 <= k <= |Kids(mem[y]) + Kids(mem[z])| &&
                       Kids(yr) == (Kids(mem[y]) + Kids(mem[z]))[..k] &&
                       Kids(zr) == (Kids(mem[y]) + Kids(mem[z]))[k..]
    ensures C == Abs(mem, y, h - 1).children + Abs(mem, z, h - 1).children && 0 <= k <= |C|
    ensures mem[y := yr][z := zr][x := xr].Keys == mem.Keys
    ensures Agree(mem, mem[y := yr][z := zr][x := xr], mem.Keys - Reach(mem, x, h))
    ensures Wf(mem[y := yr][z := zr][x := xr], t, x, h) && Reach(mem[y := yr][z := zr][x := xr], x, h) == Reach(mem, x, h)
    ensures Abs(mem[y := yr][z := zr][x := xr], x, h) ==
            Node(Keys(xr), Abses(mem, Kids(mem[x]), h - 1)[..i] +
                 [Node(Keys(yr), C[..k]), Node(Keys(zr), C[k..])] +
                 Abses(mem, Kids(mem[x]), h - 1)[i + 2..])
  {
    var m' := mem[y := yr][z := zr][x := xr];
    C := Abs(mem, y, h - 1).children + Abs(mem, z, h - 1).children;
    assert x in mem && y != z && x != y && x != z by {
      var y0, z0 := SiblingFacts(mem, t, x, i, h);
    }
    AbsShape(mem, y, h - 1);
    AbsShape(mem, z, h - 1);
    RotateDone(mem, m', t, x, i, h, y, z, k, C);
    PairIn(mem, t, x, i, h);
    Rewritten3(mem, yr, zr, xr, x, y, z, Reach(mem, x, h));
  }

  /** Rewriting `y`, `z` and `x`, all three in `R`, keeps every record
      outside `R`. */
  lemma Rewritten3(mem: Mem, yr: NodeRec, zr: NodeRec, xr: NodeRec, x: Ptr, y: Ptr, z: Ptr, R: set<Ptr>)
    requires x in R && y in R && z in R && x in mem && y in mem && z in mem
    ensures mem[y := yr][z := zr][x := xr].Keys == mem.Keys
    ensures Agree(mem, mem[y := yr][z := zr][x := xr], mem.Keys - R)
  {
  }
}
