// The HashLife driver (core/src/sim/simulation.rs) for D = 2: the minimum
// simulation layer, the expansion before a step, and the memoised recursion
// that advances the inner node of a node by a number of generations.
//
// The rule is opaque apart from its radius. The base case at the minimum
// layer is unimplemented in the source; it is a parameter here, `leafStep`,
// of which only the shape of its result is known. Leaves are single cells at
// layer 0, so the source's case for nodes whose children are multi-cell
// leaves cannot arise.
module Simulate {
  import opened Numbers
  import opened QuadNode
  import Tree

  /** The opaque base case returns a valid node one layer down. */
  ghost predicate LeafShape(leafStep: Node -> Node)
  {
    forall m: Node {:trigger leafStep(m)} :: Valid(m) && m.layer >= 2 ==> Valid(leafStep(m)) && leafStep(m).layer == m.layer - 1
  }

  // ---------------------------------------------------------------------
  // The minimum simulation layer

  /** The layer `Simulation::new` settles on for a rule of the given radius. */
  function MinLayer(radius: nat): nat
  {
    CeilLog2(radius) + 2
  }

  /** A quarter of a node's length, from layer 2 up. */
  lemma {:induction false} QuarterLen(layer: nat)
    requires layer >= 2
    ensures Len(layer) / 4 == Pow2(layer - 2)
  {
    LenDouble(layer);
    LenDouble(layer - 1);
  }

  /** The minimum layer is at least 2, a quarter of its length reaches the
      radius, and it is the first layer from 2 upward that does. */
  lemma {:induction false} MinLayerSpec(radius: nat)
    ensures MinLayer(radius) >= 2 && Len(MinLayer(radius)) / 4 >= radius
    ensures forall l: nat :: 2 <= l < MinLayer(radius) ==> Len(l) / 4 < radius
  {
    QuarterLen(MinLayer(radius));
    CeilLog2Covers(radius);
    forall l: nat | 2 <= l < MinLayer(radius)
      ensures Len(l) / 4 < radius
    {
      QuarterLen(l);
      if Pow2(l - 2) >= radius {
        CeilLog2Least(radius, l - 2);
      }
    }
  }

  // ---------------------------------------------------------------------
  // Splitting a node into overlapping parts

  /** The grandchild at position (gx, gy) of the 4 x 4 grid of grandchildren. */
  function Grand(n: Node, gx: nat, gy: nat): Node
    requires Valid(n) && n.layer >= 3 && gx < 4 && gy < 4
  {
    var i := BranchIndex(gx, gy, 2);
    BranchFacts(n, i);
    var c := n.Br(i).node;
    BranchFacts(c, BranchIndex(gx % 2, gy % 2, 1));
    c.Br(BranchIndex(gx % 2, gy % 2, 1)).node
  }

  lemma {:induction false} GrandValid(n: Node, gx: nat, gy: nat)
    requires Valid(n) && n.layer >= 3 && gx < 4 && gy < 4
    ensures Valid(Grand(n, gx, gy)) && Grand(n, gx, gy).layer == n.layer - 2
  {
    var i := BranchIndex(gx, gy, 2);
    BranchFacts(n, i);
    BranchFacts(n.Br(i).node, BranchIndex(gx % 2, gy % 2, 1));
  }

  /** `join_nodes`: the node whose branch i is the i-th of four nodes. */
  function Join(a: Node, b: Node, c: Node, d: Node): (r: Node)
    ensures r.Br(0) == Child(a) && r.Br(1) == Child(b) && r.Br(2) == Child(c) && r.Br(3) == Child(d)
  {
    Node(a.layer + 1, Child(a), Child(b), Child(c), Child(d))
  }

  lemma {:induction false} JoinValid(a: Node, b: Node, c: Node, d: Node)
    requires Valid(a) && Valid(b) && Valid(c) && Valid(d)
    requires b.layer == a.layer && c.layer == a.layer && d.layer == a.layer
    ensures Valid(Join(a, b, c, d)) && Join(a, b, c, d).layer == a.layer + 1
  {
  }

  /** The node at layer L - 1 at position (x, y) of the 3 x 3 grid of
      overlapping nodes, joined from grandchildren (x, y) to (x + 1, y + 1). */
  function Overlap(n: Node, x: nat, y: nat): Node
    requires Valid(n) && n.layer >= 3 && x < 3 && y < 3
  {
    Join(Grand(n, x, y), Grand(n, x + 1, y), Grand(n, x, y + 1), Grand(n, x + 1, y + 1))
  }

  lemma {:induction false} OverlapValid(n: Node, x: nat, y: nat)
    requires Valid(n) && n.layer >= 3 && x < 3 && y < 3
    ensures Valid(Overlap(n, x, y)) && Overlap(n, x, y).layer == n.layer - 1
  {
    GrandValid(n, x, y);
    GrandValid(n, x + 1, y);
    GrandValid(n, x, y + 1);
    GrandValid(n, x + 1, y + 1);
    JoinValid(Grand(n, x, y), Grand(n, x + 1, y), Grand(n, x, y + 1), Grand(n, x + 1, y + 1));
  }

  /** The nine overlapping nodes, X fastest. */
  function Overlaps(n: Node): (r: seq<Node>)
    requires Valid(n) && n.layer >= 3
    ensures |r| == 9
  {
    seq(9, k requires 0 <= k < 9 => Overlap(n, k % 3, k / 3))
  }

  lemma {:induction false} OverlapsValid(n: Node)
    requires Valid(n) && n.layer >= 3
    ensures forall k :: 0 <= k < 9 ==> Valid(Overlaps(n)[k]) && Overlaps(n)[k].layer == n.layer - 1
  {
    forall k | 0 <= k < 9
      ensures Valid(Overlaps(n)[k]) && Overlaps(n)[k].layer == n.layer - 1
    {
      OverlapValid(n, k % 3, k / 3);
    }
  }

  /** The four nodes joined from adjacent results on the 3 x 3 grid. */
  function Joined(rs: seq<Node>): (r: seq<Node>)
    requires |rs| == 9
    ensures |r| == 4
  {
    seq(4, k requires 0 <= k < 4 => JoinedNode(rs, k % 2, k / 2))
  }

  /** Position (x, y) of the 2 x 2 grid: the join of results (x, y) to
      (x + 1, y + 1) of the 3 x 3 grid. */
  function JoinedNode(rs: seq<Node>, x: nat, y: nat): Node
    requires |rs| == 9 && x < 2 && y < 2
  {
    Join(rs[x + 3 * y], rs[x + 1 + 3 * y], rs[x + 3 * y + 3], rs[x + 3 * y + 4])
  }

  lemma {:induction false} JoinedValid(rs: seq<Node>, layer: nat)
    requires |rs| == 9 && forall k :: 0 <= k < 9 ==> Valid(rs[k]) && rs[k].layer == layer
    ensures forall k :: 0 <= k < 4 ==> Valid(Joined(rs)[k]) && Joined(rs)[k].layer == layer + 1
  {
    forall k | 0 <= k < 4
      ensures Valid(Joined(rs)[k]) && Joined(rs)[k].layer == layer + 1
    {
      var x, y := k % 2, k / 2;
      JoinValid(rs[x + 3 * y], rs[x + 1 + 3 * y], rs[x + 3 * y + 3], rs[x + 3 * y + 4]);
    }
  }

  // ---------------------------------------------------------------------
  // Where the parts of the split sit

  /** Cell (qx h + rx, qy h + ry) of a join is cell (rx, ry) of node
      qx + 2 qy, h being the length of the joined nodes. */
  lemma {:induction false} JoinCell(a: Node, b: Node, c: Node, d: Node, qx: nat, qy: nat, rx: int, ry: int)
    requires Valid(a) && Valid(b) && Valid(c) && Valid(d)
    requires b.layer == a.layer && c.layer == a.layer && d.layer == a.layer
    requires qx < 2 && qy < 2 && In(rx, ry, a.layer)
    ensures var h := Len(a.layer);
      CellAt(Join(a, b, c, d), qx * h + rx, qy * h + ry) == CellAt([a, b, c, d][qx + 2 * qy], rx, ry)
  {
    var h := Len(a.layer);
    JoinValid(a, b, c, d);
    CellAtBranch(Join(a, b, c, d), qx * h + rx, qy * h + ry);
    assert BranchIndex(qx * h + rx, qy * h + ry, h) == qx + 2 * qy;
  }

  /** Cell (qx h + rx, qy h + ry) of a node is cell (rx, ry) of its branch
      qx + 2 qy, h being the length of the branches. */
  lemma {:induction false} BranchCell(n: Node, qx: nat, qy: nat, rx: int, ry: int)
    requires Valid(n) && n.layer >= 2 && qx < 2 && qy < 2 && In(rx, ry, n.layer - 1)
    ensures var h := Len(n.layer - 1);
      n.Br(qx + 2 * qy).Child? && CellAt(n, qx * h + rx, qy * h + ry) == CellAt(n.Br(qx + 2 * qy).node, rx, ry)
  {
    var h := Len(n.layer - 1);
    CellAtBranch(n, qx * h + rx, qy * h + ry);
    assert BranchIndex(qx * h + rx, qy * h + ry, h) == qx + 2 * qy;
  }

  /** One coordinate of a grandchild: position g q + r is position
      (g % 2) q + r of the half g / 2. */
  lemma {:induction false} GrandCoord(g: nat, q: nat, r: int)
    requires g < 4
    ensures g * q + r == (g / 2) * (2 * q) + ((g % 2) * q + r)
    ensures (g % 2) * q == (if g % 2 == 0 then 0 else q)
    ensures (g / 2) * (2 * q) == (if g / 2 == 0 then 0 else 2 * q)
  {
    if g == 0 {
    } else if g == 1 {
    } else if g == 2 {
      assert g * q == 2 * q;
    } else {
      assert g * q == 2 * q + q;
    }
  }

  /** Grandchild (gx, gy) holds the cells of the node from (gx q, gy q) on,
      q being a quarter of the node's length. */
  lemma {:induction false} GrandCell(n: Node, gx: nat, gy: nat, rx: int, ry: int)
    requires Valid(n) && n.layer >= 3 && gx < 4 && gy < 4 && In(rx, ry, n.layer - 2)
    ensures var q := Len(n.layer - 2);
      CellAt(Grand(n, gx, gy), rx, ry) == CellAt(n, gx * q + rx, gy * q + ry)
  {
    var q := Len(n.layer - 2);
    LenDouble(n.layer - 1);
    GrandCoord(gx, q, rx);
    GrandCoord(gy, q, ry);
    var hx, hy, lx, ly := gx / 2, gy / 2, gx % 2, gy % 2;
    assert BranchIndex(gx, gy, 2) == hx + 2 * hy;
    assert BranchIndex(lx, ly, 1) == lx + 2 * ly;
    BranchFacts(n, hx + 2 * hy);
    var c := n.Br(hx + 2 * hy).node;
    BranchCell(n, hx, hy, lx * q + rx, ly * q + ry);
    BranchCell(c, lx, ly, rx, ry);
  }

  lemma {:induction false} MulAdd(a: nat, b: nat, q: nat)
    ensures (a + b) * q == a * q + b * q
  {
  }

  /** Overlap (x, y) holds the cells of the node from (x q, y q) on: the nine
      overlaps are the squares of half the node's length at steps of a
      quarter of it, X fastest. */
  lemma {:induction false} OverlapCell(n: Node, x: nat, y: nat, i: int, j: int)
    requires Valid(n) && n.layer >= 3 && x < 3 && y < 3 && In(i, j, n.layer - 1)
    ensures var q := Len(n.layer - 2);
      CellAt(Overlap(n, x, y), i, j) == CellAt(n, x * q + i, y * q + j)
  {
    var q := Len(n.layer - 2);
    LenDouble(n.layer - 1);
    var qx: nat, qy: nat := if i < q then 0 else 1, if j < q then 0 else 1;
    var rx, ry := i - qx * q, j - qy * q;
    GrandValid(n, x, y);
    GrandValid(n, x + 1, y);
    GrandValid(n, x, y + 1);
    GrandValid(n, x + 1, y + 1);
    JoinCell(Grand(n, x, y), Grand(n, x + 1, y), Grand(n, x, y + 1), Grand(n, x + 1, y + 1), qx, qy, rx, ry);
    assert [Grand(n, x, y), Grand(n, x + 1, y), Grand(n, x, y + 1), Grand(n, x + 1, y + 1)][qx + 2 * qy]
      == Grand(n, x + qx, y + qy);
    GrandCell(n, x + qx, y + qy, rx, ry);
    MulAdd(x, qx, q);
    MulAdd(y, qy, q);
  }

  /** Overlap (x, y) is entry x + 3 y of `Overlaps`. */
  lemma {:induction false} OverlapsAt(n: Node, x: nat, y: nat)
    requires Valid(n) && n.layer >= 3 && x < 3 && y < 3
    ensures Overlaps(n)[x + 3 * y] == Overlap(n, x, y)
  {
    assert (x + 3 * y) % 3 == x && (x + 3 * y) / 3 == y;
  }

  /** Joined node (x, y) is entry x + 2 y of `Joined`. */
  lemma {:induction false} JoinedAt(rs: seq<Node>, x: nat, y: nat)
    requires |rs| == 9 && x < 2 && y < 2
    ensures Joined(rs)[x + 2 * y] == JoinedNode(rs, x, y)
  {
    assert (x + 2 * y) % 2 == x && (x + 2 * y) / 2 == y;
  }

  /** Cell (qx h + rx, qy h + ry) of joined node (x, y) is cell (rx, ry) of
      result (x + qx, y + qy) of the 3 x 3 grid, h being the length of the
      results. */
  lemma {:induction false} JoinedCell(rs: seq<Node>, layer: nat, x: nat, y: nat, qx: nat, qy: nat, rx: int, ry: int)
    requires |rs| == 9 && forall m :: 0 <= m < 9 ==> Valid(rs[m]) && rs[m].layer == layer
    requires x < 2 && y < 2 && qx < 2 && qy < 2 && In(rx, ry, layer)
    ensures var h := Len(layer);
      CellAt(JoinedNode(rs, x, y), qx * h + rx, qy * h + ry) == CellAt(rs[(x + qx) + 3 * (y + qy)], rx, ry)
  {
    JoinCell(rs[x + 3 * y], rs[x + 1 + 3 * y], rs[x + 3 * y + 3], rs[x + 3 * y + 4], qx, qy, rx, ry);
    assert [rs[x + 3 * y], rs[x + 1 + 3 * y], rs[x + 3 * y + 3], rs[x + 3 * y + 4]][qx + 2 * qy]
      == rs[(x + qx) + 3 * (y + qy)];
  }

  /** The 3 x 3 grid of results when each overlap is reduced to its inner
      node. */
  ghost predicate InnerOfOverlaps(n: Node, rs: seq<Node>)
  {
    && Valid(n) && n.layer >= 3 && |rs| == 9
    && (forall m :: 0 <= m < 9 ==> Valid(rs[m]) && rs[m].layer == n.layer - 2)
    && forall x: nat, y: nat :: x < 3 && y < 3 ==>
         Valid(Overlap(n, x, y)) && Overlap(n, x, y).layer == n.layer - 1
         && rs[x + 3 * y] == InnerNode(Overlap(n, x, y))
  }

  /** The 2 x 2 grid of results when each joined node is reduced to its inner
      node. */
  ghost predicate InnerOfJoined(rs: seq<Node>, fs: seq<Node>)
  {
    && |rs| == 9 && |fs| == 4
    && forall x: nat, y: nat :: x < 2 && y < 2 ==>
         Valid(JoinedNode(rs, x, y)) && JoinedNode(rs, x, y).layer >= 2
         && fs[x + 2 * y] == InnerNode(JoinedNode(rs, x, y))
  }

  /** A cell of the inner node of overlap (ox, oy). */
  lemma {:induction false} InnerOverlapCell(n: Node, rs: seq<Node>, ox: nat, oy: nat, sx: int, sy: int)
    requires InnerOfOverlaps(n, rs) && ox < 3 && oy < 3 && In(sx, sy, n.layer - 2)
    ensures var q, h := Len(n.layer - 2), Len(n.layer - 3);
      CellAt(rs[ox + 3 * oy], sx, sy) == CellAt(n, ox * q + sx + h, oy * q + sy + h)
  {
    var h := Len(n.layer - 3);
    InnerNodeCell(Overlap(n, ox, oy), sx, sy);
    OverlapCell(n, ox, oy, sx + h, sy + h);
  }

  /** A cell of result (x, y) of the 2 x 2 grid when every advance returns
      its inner node: the node's cell a quarter of its length further in. */
  lemma {:induction false} InnerJoinedCell(n: Node, rs: seq<Node>, fs: seq<Node>, x: nat, y: nat, rx: int, ry: int)
    requires InnerOfOverlaps(n, rs) && InnerOfJoined(rs, fs)
    requires x < 2 && y < 2 && In(rx, ry, n.layer - 2)
    ensures var q := Len(n.layer - 2);
      CellAt(fs[x + 2 * y], rx, ry) == CellAt(n, x * q + rx + q, y * q + ry + q)
  {
    var q, h := Len(n.layer - 2), Len(n.layer - 3);
    LenDouble(n.layer - 2);
    assert fs[x + 2 * y] == InnerNode(JoinedNode(rs, x, y));
    var px, py, sx, sy := InnerJoinedNodeCell(rs, n.layer - 2, x, y, rx, ry);
    InnerOverlapCell(n, rs, x + px, y + py, sx, sy);
    ShiftedCoord(x, px, q, h, rx, sx);
    ShiftedCoord(y, py, q, h, ry, sy);
  }

  /** Cell (rx, ry) of the inner node of joined node (x, y) is cell (sx, sy)
      of result (x + px, y + py) of the 3 x 3 grid. */
  lemma {:induction false} InnerJoinedNodeCell(rs: seq<Node>, layer: nat, x: nat, y: nat, rx: int, ry: int)
    returns (px: nat, py: nat, sx: int, sy: int)
    requires |rs| == 9 && layer >= 1 && forall m :: 0 <= m < 9 ==> Valid(rs[m]) && rs[m].layer == layer
    requires x < 2 && y < 2 && In(rx, ry, layer)
    ensures var q, h := Len(layer), Len(layer - 1);
      && px < 2 && py < 2 && In(sx, sy, layer)
      && px * q + sx == rx + h && py * q + sy == ry + h
      && Valid(JoinedNode(rs, x, y)) && JoinedNode(rs, x, y).layer == layer + 1
      && CellAt(InnerNode(JoinedNode(rs, x, y)), rx, ry) == CellAt(rs[(x + px) + 3 * (y + py)], sx, sy)
  {
    var q, h := Len(layer), Len(layer - 1);
    LenDouble(layer);
    LenDouble(layer + 1);
    var jn := JoinedNode(rs, x, y);
    JoinValid(rs[x + 3 * y], rs[x + 1 + 3 * y], rs[x + 3 * y + 3], rs[x + 3 * y + 4]);
    px, sx := SplitCoord(rx + h, q);
    py, sy := SplitCoord(ry + h, q);
    InnerNodeCell(jn, rx, ry);
    JoinedCell(rs, layer, x, y, px, py, sx, sy);
  }

  /** A position below 2 q as a half and a position within it. */
  lemma {:induction false} SplitCoord(v: int, q: nat) returns (p: nat, s: int)
    requires 0 <= v < 2 * q
    ensures p < 2 && 0 <= s < q && v == p * q + s
  {
    if v < q {
      p, s := 0, v;
    } else {
      p, s := 1, v - q;
    }
  }

  /** The arithmetic of one coordinate of a cell of the 2 x 2 grid. */
  lemma {:induction false} ShiftedCoord(x: nat, p: nat, q: nat, h: nat, r: int, s: int)
    requires q == 2 * h && p * q + s == r + h
    ensures (x + p) * q + s + h == x * q + r + q
  {
    MulAdd(x, p, q);
  }

  /** One cell of the split when every advance returns its inner node: it is
      the node's cell a quarter of the node's length in. */
  lemma {:induction false} SplitCell(n: Node, rs: seq<Node>, fs: seq<Node>, i: int, j: int)
    requires InnerOfOverlaps(n, rs) && InnerOfJoined(rs, fs)
    requires forall k :: 0 <= k < 4 ==> Valid(fs[k]) && fs[k].layer == n.layer - 2
    requires In(i, j, n.layer - 1)
    ensures CellAt(Join(fs[0], fs[1], fs[2], fs[3]), i, j) == CellAt(n, i + Len(n.layer - 2), j + Len(n.layer - 2))
  {
    var q := Len(n.layer - 2);
    LenDouble(n.layer - 1);
    var qx: nat, qy: nat := if i < q then 0 else 1, if j < q then 0 else 1;
    var rx, ry := i - qx * q, j - qy * q;
    JoinCell(fs[0], fs[1], fs[2], fs[3], qx, qy, rx, ry);
    assert [fs[0], fs[1], fs[2], fs[3]][qx + 2 * qy] == fs[qx + 2 * qy];
    InnerJoinedCell(n, rs, fs, qx, qy, rx, ry);
  }

  /** Result (x, y) of the 2 x 2 grid is a valid node a quarter of the
      node's length wide. */
  lemma {:induction false} InnerJoinedValid(n: Node, rs: seq<Node>, fs: seq<Node>, x: nat, y: nat)
    requires InnerOfOverlaps(n, rs) && InnerOfJoined(rs, fs) && x < 2 && y < 2
    ensures Valid(fs[x + 2 * y]) && fs[x + 2 * y].layer == n.layer - 2
  {
    JoinValid(rs[x + 3 * y], rs[x + 1 + 3 * y], rs[x + 3 * y + 3], rs[x + 3 * y + 4]);
    InnerNodeValid(JoinedNode(rs, x, y));
  }

  /** All four results of the 2 x 2 grid are. */
  lemma {:induction false} InnerOfJoinedValid(n: Node, rs: seq<Node>, fs: seq<Node>)
    requires InnerOfOverlaps(n, rs) && InnerOfJoined(rs, fs)
    ensures forall k :: 0 <= k < 4 ==> Valid(fs[k]) && fs[k].layer == n.layer - 2
  {
    InnerJoinedValid(n, rs, fs, 0, 0);
    InnerJoinedValid(n, rs, fs, 1, 0);
    InnerJoinedValid(n, rs, fs, 0, 1);
    InnerJoinedValid(n, rs, fs, 1, 1);
  }

  /** The geometry of the split: when each advance returns the inner node,
      the nine overlaps, joined four at a time and joined again, give the
      inner node of the node. So the 4 x 4 grid of grandchildren, the 3 x 3
      grid of overlaps and the 2 x 2 grid of results line up. */
  lemma {:induction false} SplitReassemblesInner(n: Node, rs: seq<Node>, fs: seq<Node>)
    requires InnerOfOverlaps(n, rs) && InnerOfJoined(rs, fs)
    ensures forall k :: 0 <= k < 4 ==> Valid(fs[k]) && fs[k].layer == n.layer - 2
    ensures Join(fs[0], fs[1], fs[2], fs[3]) == InnerNode(n)
  {
    InnerOfJoinedValid(n, rs, fs);
    var r := Join(fs[0], fs[1], fs[2], fs[3]);
    JoinValid(fs[0], fs[1], fs[2], fs[3]);
    InnerNodeValid(n);
    forall i: int, j: int | In(i, j, n.layer - 1)
      ensures CellAt(r, i, j) == CellAt(InnerNode(n), i, j)
    {
      SplitCell(n, rs, fs, i, j);
      InnerNodeCell(n, i, j);
    }
    CellsDetermineNode(r, InnerNode(n));
  }

  /** The two halves of g generations: they sum to g and differ by at most one. */
  function Halves(g: nat): (r: (nat, nat))
    ensures r.0 + r.1 == g && r.0 <= r.1 <= r.0 + 1
  {
    (g / 2, g - g / 2)
  }

  /** How many generations a node of the given layer can be advanced at once. */
  predicate InReach(layer: nat, g: nat, minLayer: nat)
  {
    2 <= minLayer <= layer && g <= Pow2(layer - minLayer)
  }

  lemma {:induction false} SameReach(m: Node, layer: nat, g: nat, minLayer: nat)
    requires m.layer == layer && InReach(layer, g, minLayer)
    ensures InReach(m.layer, g, minLayer)
  {
  }

  lemma {:induction false} HalvesInReach(layer: nat, g: nat, minLayer: nat)
    requires InReach(layer, g, minLayer) && layer > minLayer
    ensures InReach(layer - 1, Halves(g).0, minLayer) && InReach(layer - 1, Halves(g).1, minLayer)
  {
    assert Pow2(layer - minLayer) == 2 * Pow2(layer - 1 - minLayer);
  }

  // ---------------------------------------------------------------------
  // The recursion, without the memo

  /** `advance_inner_node` as a function of its inputs: the inner node of n,
      g generations on. */
  function Advance(n: Node, g: nat, minLayer: nat, leafStep: Node -> Node): (r: Node)
    requires Valid(n) && InReach(n.layer, g, minLayer) && LeafShape(leafStep)
    ensures Valid(r) && r.layer == n.layer - 1
    decreases n.layer, 0, 1
  {
    if g == 0 then
      InnerNodeValid(n);
      InnerNode(n)
    else if Pop(n) == 0 then
      BranchFacts(n, 0);
      n.Br(0).node
    else if n.layer == minLayer then
      leafStep(n)
    else
      Split(n, g, minLayer, leafStep)
  }

  /** The overlap split: nine advances of the overlapping nodes by the first
      half of g, then four advances by the second half of the nodes joined
      from those results, joined into the result. */
  function Split(n: Node, g: nat, minLayer: nat, leafStep: Node -> Node): (r: Node)
    requires Valid(n) && InReach(n.layer, g, minLayer) && n.layer > minLayer && LeafShape(leafStep)
    ensures Valid(r) && r.layer == n.layer - 1
    decreases n.layer, 0, 0
  {
    var tInner, tOuter := Halves(g).0, Halves(g).1;
    HalvesInReach(n.layer, g, minLayer);
    assert InReach(n.layer - 1, tInner, minLayer) && InReach(n.layer - 1, tOuter, minLayer);
    OverlapsValid(n);
    var rs := AdvanceAll(Overlaps(n), n.layer - 1, tInner, minLayer, leafStep);
    JoinedValid(rs, n.layer - 2);
    var fs := AdvanceAll(Joined(rs), n.layer - 1, tOuter, minLayer, leafStep);
    JoinValid(fs[0], fs[1], fs[2], fs[3]);
    Join(fs[0], fs[1], fs[2], fs[3])
  }

  /** Each node of a sequence of nodes of one layer, advanced: the `map` over
      an array of nodes in `advance_inner_node`. */
  function AdvanceAll(ns: seq<Node>, layer: nat, g: nat, minLayer: nat, leafStep: Node -> Node): (r: seq<Node>)
    requires forall k :: 0 <= k < |ns| ==> Valid(ns[k]) && ns[k].layer == layer
    requires InReach(layer, g, minLayer) && LeafShape(leafStep)
    ensures |r| == |ns|
    ensures forall k :: 0 <= k < |ns| ==> Valid(r[k]) && r[k].layer == layer - 1
    decreases layer, 1, 0
  {
    seq(|ns|, k requires 0 <= k < |ns| => SameReach(ns[k], layer, g, minLayer); Advance(ns[k], g, minLayer, leafStep))
  }

  // ---------------------------------------------------------------------
  // What the recursion computes

  /** Zero generations give the centred inner node: the cells of the node
      starting a quarter of its length in. */
  lemma {:induction false} AdvanceZero(n: Node, minLayer: nat, leafStep: Node -> Node, x: int, y: int)
    requires Valid(n) && InReach(n.layer, 0, minLayer) && LeafShape(leafStep)
    requires In(x, y, n.layer - 1)
    ensures Advance(n, 0, minLayer, leafStep) == InnerNode(n)
    ensures var q := Len(n.layer - 2);
      CellAt(Advance(n, 0, minLayer, leafStep), x, y) == CellAt(n, x + q, y + q)
  {
    InnerNodeCell(n, x, y);
  }

  /** An empty node advances to the empty node one layer down. */
  lemma {:induction false} AdvanceEmpty(n: Node, g: nat, minLayer: nat, leafStep: Node -> Node)
    requires Valid(n) && InReach(n.layer, g, minLayer) && LeafShape(leafStep)
    requires Pop(n) == 0
    ensures Advance(n, g, minLayer, leafStep) == EmptyNode(n.layer - 1)
  {
    ZeroPopNodeIsEmpty(n);
    EmptyNodeBranches(n.layer);
  }

  /** At the minimum layer at most one generation is in reach, and a live node
      is advanced by the rule's base case. */
  lemma {:induction false} AdvanceAtMinLayer(n: Node, g: nat, minLayer: nat, leafStep: Node -> Node)
    requires Valid(n) && n.layer == minLayer >= 2 && LeafShape(leafStep)
    ensures InReach(n.layer, g, minLayer) <==> g <= 1
    ensures g == 1 && Pop(n) != 0 ==> Advance(n, g, minLayer, leafStep) == leafStep(n)
  {
  }

  /** A base case that leaves every node unchanged: a still life. */
  ghost predicate StillLeaf(leafStep: Node -> Node)
  {
    forall m: Node {:trigger leafStep(m)} :: Valid(m) && m.layer >= 2 ==> leafStep(m) == InnerNode(m)
  }

  /** The empty node's inner node is the empty node one layer down. */
  lemma {:induction false} EmptyInner(layer: nat)
    requires layer >= 2
    ensures Valid(EmptyNode(layer)) && InnerNode(EmptyNode(layer)) == EmptyNode(layer - 1)
  {
    EmptyNodeValid(layer);
    EmptyNodeBranches(layer);
    EmptyNodeBranches(layer - 1);
  }

  /** Under a still-life base case the whole recursion leaves the node's
      inner node as it is, for every number of generations in reach. This
      pins down the split: the nine overlaps and the four joined nodes are
      taken from the places that put each cell of the result back where it
      was. */
  lemma {:induction false} AdvanceStill(n: Node, g: nat, minLayer: nat, leafStep: Node -> Node)
    requires Valid(n) && InReach(n.layer, g, minLayer) && LeafShape(leafStep) && StillLeaf(leafStep)
    ensures Advance(n, g, minLayer, leafStep) == InnerNode(n)
    decreases n.layer, 2
  {
    if g == 0 {
    } else if Pop(n) == 0 {
      AdvanceEmpty(n, g, minLayer, leafStep);
      ZeroPopNodeIsEmpty(n);
      EmptyInner(n.layer);
    } else if n.layer == minLayer {
    } else {
      SplitStill(n, g, minLayer, leafStep);
    }
  }

  /** The split case of `AdvanceStill`. */
  lemma {:induction false} SplitStill(n: Node, g: nat, minLayer: nat, leafStep: Node -> Node)
    requires Valid(n) && InReach(n.layer, g, minLayer) && n.layer > minLayer
    requires LeafShape(leafStep) && StillLeaf(leafStep)
    ensures Split(n, g, minLayer, leafStep) == InnerNode(n)
    decreases n.layer, 1
  {
    var tInner, tOuter := Halves(g).0, Halves(g).1;
    HalvesInReach(n.layer, g, minLayer);
    OverlapsValid(n);
    var rs := AdvanceAll(Overlaps(n), n.layer - 1, tInner, minLayer, leafStep);
    OverlapsStill(n, tInner, minLayer, leafStep);
    JoinedValid(rs, n.layer - 2);
    var fs := AdvanceAll(Joined(rs), n.layer - 1, tOuter, minLayer, leafStep);
    JoinedStill(n, rs, tOuter, minLayer, leafStep);
    SplitReassemblesInner(n, rs, fs);
  }

  /** The nine advances of the split keep the overlaps' inner nodes. */
  lemma {:induction false} OverlapsStill(n: Node, t: nat, minLayer: nat, leafStep: Node -> Node)
    requires Valid(n) && n.layer >= 3 && InReach(n.layer - 1, t, minLayer)
    requires forall k :: 0 <= k < 9 ==> Valid(Overlaps(n)[k]) && Overlaps(n)[k].layer == n.layer - 1
    requires LeafShape(leafStep) && StillLeaf(leafStep)
    ensures InnerOfOverlaps(n, AdvanceAll(Overlaps(n), n.layer - 1, t, minLayer, leafStep))
    decreases n.layer, 0
  {
    var rs := AdvanceAll(Overlaps(n), n.layer - 1, t, minLayer, leafStep);
    forall x: nat, y: nat | x < 3 && y < 3
      ensures Valid(Overlap(n, x, y)) && Overlap(n, x, y).layer == n.layer - 1
      ensures rs[x + 3 * y] == InnerNode(Overlap(n, x, y))
    {
      OverlapsAt(n, x, y);
      OverlapValid(n, x, y);
      AdvanceStill(Overlap(n, x, y), t, minLayer, leafStep);
    }
  }

  /** The four advances of the split keep the joined nodes' inner nodes. */
  lemma {:induction false} JoinedStill(n: Node, rs: seq<Node>, t: nat, minLayer: nat, leafStep: Node -> Node)
    requires Valid(n) && n.layer >= 3 && InReach(n.layer - 1, t, minLayer)
    requires |rs| == 9 && forall k :: 0 <= k < 9 ==> Valid(rs[k]) && rs[k].layer == n.layer - 2
    requires forall k :: 0 <= k < 4 ==> Valid(Joined(rs)[k]) && Joined(rs)[k].layer == n.layer - 1
    requires LeafShape(leafStep) && StillLeaf(leafStep)
    ensures InnerOfJoined(rs, AdvanceAll(Joined(rs), n.layer - 1, t, minLayer, leafStep))
    decreases n.layer, 0
  {
    var fs := AdvanceAll(Joined(rs), n.layer - 1, t, minLayer, leafStep);
    forall x: nat, y: nat | x < 2 && y < 2
      ensures Valid(JoinedNode(rs, x, y)) && JoinedNode(rs, x, y).layer >= 2
      ensures fs[x + 2 * y] == InnerNode(JoinedNode(rs, x, y))
    {
      JoinedAt(rs, x, y);
      AdvanceStill(JoinedNode(rs, x, y), t, minLayer, leafStep);
    }
  }

  /** The still-life base case exists and has the shape every base case has. */
  ghost function Frozen(m: Node): Node
  {
    if Valid(m) && m.layer >= 2 then InnerNode(m) else m
  }

  lemma {:induction false} FrozenShape()
    ensures LeafShape(Frozen) && StillLeaf(Frozen)
  {
    forall m: Node | Valid(m) && m.layer >= 2
      ensures Valid(Frozen(m)) && Frozen(m).layer == m.layer - 1
    {
      InnerNodeValid(m);
    }
  }

  // ---------------------------------------------------------------------
  // The memo as written: keyed by the node alone

  /** Every cached result is a valid node one layer below its key. */
  ghost predicate MemoShape(memo: map<Node, Node>)
  {
    forall m | m in memo :: Valid(memo[m]) && memo[m].layer == m.layer - 1
  }

  /** `advance_inner_node` with its memo as written: the result stored on a
      node is returned for any number of generations. The memo is threaded
      through the calls in the order the source makes them. */
  function AdvanceAsWritten(memo: map<Node, Node>, n: Node, g: nat, minLayer: nat, leafStep: Node -> Node)
    : (res: (Node, map<Node, Node>))
    requires Valid(n) && InReach(n.layer, g, minLayer) && LeafShape(leafStep) && MemoShape(memo)
    ensures Valid(res.0) && res.0.layer == n.layer - 1 && MemoShape(res.1)
    ensures n in res.1 && res.1[n] == res.0
    ensures n in memo ==> res == (memo[n], memo)
    decreases n.layer, 0, 2
  {
    if n in memo then (memo[n], memo)
    else
      var computed := ComputeAsWritten(memo, n, g, minLayer, leafStep);
      (computed.0, computed.1[n := computed.0])
  }

  /** The cases of `advance_inner_node` below the memo lookup, as written. */
  function ComputeAsWritten(memo: map<Node, Node>, n: Node, g: nat, minLayer: nat, leafStep: Node -> Node)
    : (res: (Node, map<Node, Node>))
    requires Valid(n) && InReach(n.layer, g, minLayer) && LeafShape(leafStep) && MemoShape(memo)
    ensures Valid(res.0) && res.0.layer == n.layer - 1 && MemoShape(res.1)
    decreases n.layer, 0, 1
  {
    if g == 0 then
      InnerNodeValid(n);
      (InnerNode(n), memo)
    else if Pop(n) == 0 then
      BranchFacts(n, 0);
      (n.Br(0).node, memo)
    else if n.layer == minLayer then
      (leafStep(n), memo)
    else
      SplitAsWritten(memo, n, g, minLayer, leafStep)
  }

  /** The overlap split, as written: nine advances by the first half of g,
      then four by the second half, threading the memo. */
  function SplitAsWritten(memo: map<Node, Node>, n: Node, g: nat, minLayer: nat, leafStep: Node -> Node)
    : (res: (Node, map<Node, Node>))
    requires Valid(n) && InReach(n.layer, g, minLayer) && n.layer > minLayer
    requires LeafShape(leafStep) && MemoShape(memo)
    ensures Valid(res.0) && res.0.layer == n.layer - 1 && MemoShape(res.1)
    decreases n.layer, 0, 0
  {
    var tInner, tOuter := Halves(g).0, Halves(g).1;
    HalvesInReach(n.layer, g, minLayer);
    assert InReach(n.layer - 1, tInner, minLayer) && InReach(n.layer - 1, tOuter, minLayer);
    OverlapsValid(n);
    var (rs, m1) := AdvanceAllAsWritten(memo, Overlaps(n), n.layer - 1, tInner, minLayer, leafStep);
    JoinedValid(rs, n.layer - 2);
    var (fs, m2) := AdvanceAllAsWritten(m1, Joined(rs), n.layer - 1, tOuter, minLayer, leafStep);
    JoinValid(fs[0], fs[1], fs[2], fs[3]);
    (Join(fs[0], fs[1], fs[2], fs[3]), m2)
  }

  function AdvanceAllAsWritten(memo: map<Node, Node>, ns: seq<Node>, layer: nat, g: nat, minLayer: nat,
                               leafStep: Node -> Node): (res: (seq<Node>, map<Node, Node>))
    requires forall k :: 0 <= k < |ns| ==> Valid(ns[k]) && ns[k].layer == layer
    requires InReach(layer, g, minLayer) && LeafShape(leafStep) && MemoShape(memo)
    ensures |res.0| == |ns| && MemoShape(res.1)
    ensures forall k :: 0 <= k < |ns| ==> Valid(res.0[k]) && res.0[k].layer == layer - 1
    decreases layer, 1, |ns|
  {
    if ns == [] then ([], memo)
    else
      SameReach(ns[0], layer, g, minLayer);
      var (r, m1) := AdvanceAsWritten(memo, ns[0], g, minLayer, leafStep);
      var (rest, m2) := AdvanceAllAsWritten(m1, ns[1..], layer, g, minLayer, leafStep);
      ([r] + rest, m2)
  }

  /** A rule under which every node dies in one generation. */
  function KillAll(m: Node): Node
  {
    if m.layer >= 2 then EmptyNode(m.layer - 1) else m
  }

  lemma {:induction false} KillAllShape()
    ensures LeafShape(KillAll)
  {
    forall m: Node | Valid(m) && m.layer >= 2
      ensures Valid(KillAll(m)) && KillAll(m).layer == m.layer - 1
    {
      EmptyNodeValid(m.layer - 1);
    }
  }

  /** The memo as written returns a node's 0-generation result when that node
      is next asked for 1 generation: at the minimum layer 2, the full 4 x 4
      node is cached as its inner node, which is then returned instead of the
      empty node the rule produces. */
  lemma {:induction false} AsWrittenIgnoresGenerations()
    ensures LeafShape(KillAll)
    ensures var one := Node(1, Leaf(1), Leaf(1), Leaf(1), Leaf(1));
      var full := Node(2, Child(one), Child(one), Child(one), Child(one));
      Valid(full) && MemoShape(map[])
      && var memo := AdvanceAsWritten(map[], full, 0, 2, KillAll).1;
      AdvanceAsWritten(memo, full, 1, 2, KillAll).0 == one
      && Advance(full, 1, 2, KillAll) == EmptyNode(1)
      && one != EmptyNode(1)
  {
    KillAllShape();
    var one := Node(1, Leaf(1), Leaf(1), Leaf(1), Leaf(1));
    var full := Node(2, Child(one), Child(one), Child(one), Child(one));
    assert Valid(one);
    assert Valid(full);
    assert InnerNode(full) == one;
    var memo := AdvanceAsWritten(map[], full, 0, 2, KillAll).1;
    assert memo[full] == one;
    assert Pop(full) == 16;
    assert EmptyNode(1).b0 == Leaf(0);
  }

  // ---------------------------------------------------------------------
  // The simulation, with the memo keyed by node and generation count

  /** Every cached result is what `Advance` computes for its key. */
  ghost predicate ResultsCorrect(results: map<(Node, nat), Node>, minLayer: nat, leafStep: Node -> Node)
  {
    forall key | key in results ::
      Valid(key.0) && InReach(key.0.layer, key.1, minLayer) && LeafShape(leafStep)
      && results[key] == Advance(key.0, key.1, minLayer, leafStep)
  }

  lemma {:induction false} ResultsCorrectUpdate(results: map<(Node, nat), Node>, n: Node, g: nat, r: Node,
                                                minLayer: nat, leafStep: Node -> Node)
    requires ResultsCorrect(results, minLayer, leafStep)
    requires Valid(n) && InReach(n.layer, g, minLayer) && LeafShape(leafStep)
    requires r == Advance(n, g, minLayer, leafStep)
    ensures ResultsCorrect(results[(n, g) := r], minLayer, leafStep)
  {
  }

  /** The expansion accumulated by `step` after j expansions of a root of
      layer l0: a quarter of the root's length after each of them. */
  function ExpansionDistance(l0: nat, j: nat): nat
  {
    if j == 0 then 0 else ExpansionDistance(l0, j - 1) + Len(l0 + j) / 4
  }

  /** In closed form: the expansion reaches 2^(l0 - 1 + j) - 2^(l0 - 1). */
  lemma {:induction false} ExpansionDistanceClosed(l0: nat, j: nat)
    requires l0 >= 1
    ensures ExpansionDistance(l0, j) + Pow2(l0 - 1) == Pow2(l0 - 1 + j)
  {
    if j > 0 {
      ExpansionDistanceClosed(l0, j - 1);
      QuarterLen(l0 + j);
      assert Pow2(l0 - 1 + j) == 2 * Pow2(l0 - 1 + (j - 1));
    }
  }

  /** Each expansion adds a quarter of the new root's length, at least 1. */
  lemma {:induction false} ExpansionGrows(l0: nat, j: nat)
    requires l0 >= 1 && j >= 1
    ensures ExpansionDistance(l0, j) == ExpansionDistance(l0, j - 1) + Len(l0 + j) / 4
    ensures ExpansionDistance(l0, j) > ExpansionDistance(l0, j - 1)
  {
    QuarterLen(l0 + j);
  }

  /** The number of expansions, from j on, after which the accumulated
      expansion first reaches m. */
  function ExpansionsNeeded(l0: nat, m: nat, j: nat): (r: nat)
    requires l0 >= 1
    ensures r >= j && ExpansionDistance(l0, r) >= m
    ensures forall i :: j <= i < r ==> ExpansionDistance(l0, i) < m
    decreases m - ExpansionDistance(l0, j)
  {
    if ExpansionDistance(l0, j) >= m then j
    else
      ExpansionGrows(l0, j + 1);
      ExpansionsNeeded(l0, m, j + 1)
  }

  /** The number of expansions `step` makes from a root of layer l0: until
      the expansion reaches 2^(log2 of the radius + bits of the step size),
      then one more. */
  function StepExpansions(l0: nat, radius: nat, stepSize: nat): nat
    requires l0 >= 1
  {
    ExpansionsNeeded(l0, Pow2(CeilLog2(radius) + Bits(stepSize)), 0) + 1
  }

  /** `StepExpansions` is one more than the least j for which
      2^(l0 - 1 + j) - 2^(l0 - 1) reaches 2^(log2 of the radius + bits of the
      step size). */
  lemma {:induction false} StepExpansionsLeast(l0: nat, radius: nat, stepSize: nat)
    requires l0 >= 1
    ensures var j, m := StepExpansions(l0, radius, stepSize) - 1, Pow2(CeilLog2(radius) + Bits(stepSize));
      && Pow2(l0 - 1 + j) - Pow2(l0 - 1) >= m
      && forall e :: l0 - 1 <= e < l0 - 1 + j ==> Pow2(e) - Pow2(l0 - 1) < m
  {
    var j, m := StepExpansions(l0, radius, stepSize) - 1, Pow2(CeilLog2(radius) + Bits(stepSize));
    ExpansionDistanceClosed(l0, j);
    forall e | l0 - 1 <= e < l0 - 1 + j
      ensures Pow2(e) - Pow2(l0 - 1) < m
    {
      ExpansionDistanceClosed(l0, e - (l0 - 1));
    }
  }

  /** Once the accumulated expansion reaches 2^e, the root is at least two
      layers above e. */
  lemma {:induction false} ExpansionLayer(l0: nat, e: nat, r: nat)
    requires l0 >= 1 && ExpansionDistance(l0, r) >= Pow2(e)
    ensures l0 + r >= e + 2
  {
    ExpansionDistanceClosed(l0, r);
    if e >= l0 - 1 + r {
      Pow2Monotone(l0 - 1 + r, e);
    }
  }

  /** The expansion phase of `step`: expand until the accumulated
      expansion (a quarter of the root's length after each expansion)
      reaches 2^(log2 of the radius + bits of the step size), then once
      more. Returns the number of expansions. */
  method ExpandForStep(tree: Tree.NdTree, radius: nat, stepSize: nat) returns (count: nat)
    requires tree.Valid()
    modifies tree
    ensures tree.Valid() && count == StepExpansions(old(tree.slice).root.layer, radius, stepSize)
    ensures tree.slice == Tree.ExpandTimes(old(tree.slice), count)
    ensures tree.slice.root.layer >= CeilLog2(radius) + Bits(stepSize) + 3
  {
    var l0 := tree.slice.root.layer;
    var radiusLog2 := CeilLog2(radius);
    var stepSizeLog2 := Bits(stepSize);
    var minExpansionDistance := Pow2(radiusLog2 + stepSizeLog2);
    var expansionDistance := 0;
    count := 0;
    ghost var needed := ExpansionsNeeded(l0, minExpansionDistance, 0);
    while expansionDistance < minExpansionDistance
      invariant tree.Valid() && l0 >= 1 && tree.slice.root.layer == l0 + count
      invariant tree.slice == Tree.ExpandTimes(old(tree.slice), count)
      invariant expansionDistance == ExpansionDistance(l0, count)
      invariant count <= needed
      decreases minExpansionDistance - expansionDistance
    {
      tree.Expand();
      count := count + 1;
      ExpansionGrows(l0, count);
      expansionDistance := expansionDistance + Len(tree.slice.root.layer) / 4;
    }
    assert count == needed;
    ExpansionLayer(l0, radiusLog2 + stepSizeLog2, count);
    tree.Expand();
    count := count + 1;
  }

  /** A root expanded as `step` does has the whole step in reach. */
  lemma {:induction false} StepInReach(layer: nat, radius: nat, stepSize: nat)
    requires layer >= CeilLog2(radius) + Bits(stepSize) + 3
    ensures layer >= MinLayer(radius) + Bits(stepSize) + 1
    ensures InReach(layer, stepSize, MinLayer(radius))
  {
    BitsBounds(stepSize);
    Pow2Monotone(Bits(stepSize), layer - MinLayer(radius));
  }

  /** The outcome of `step`: k expansions of the tree, the root advanced by
      the step size, then shrinking. The expanded root is high enough for
      the step to be in reach. */
  ghost predicate Stepped(s: Tree.Slice, k: nat, stepSize: nat, minLayer: nat, leafStep: Node -> Node, t: Tree.Slice)
  {
    && s.root.layer >= 1 && k >= 1
    && var e := Tree.ExpandTimes(s, k);
    && Valid(e.root) && LeafShape(leafStep)
    && e.root.layer >= minLayer + Bits(stepSize) + 1 && InReach(e.root.layer, stepSize, minLayer)
    && t == Tree.Shrunk(e.(root := Advance(e.root, stepSize, minLayer, leafStep)))
  }

  /** `Simulation`: a rule, given by its radius and its base case, the
      minimum simulation layer, and the memo of results. */
  class Simulation {
    const radius: nat
    const leafStep: Node -> Node
    const minLayer: nat
    var results: map<(Node, nat), Node>

    ghost predicate Valid()
      reads this
    {
      minLayer == MinLayer(radius) && LeafShape(leafStep) && ResultsCorrect(results, minLayer, leafStep)
    }

    /** `Simulation::new`: the first layer from 2 upward whose quarter length
        reaches the radius. */
    constructor (radius: nat, leafStep: Node -> Node)
      requires LeafShape(leafStep)
      ensures Valid() && this.radius == radius && this.leafStep == leafStep && results == map[]
      ensures minLayer >= 2 && Len(minLayer) / 4 >= radius
      ensures forall l: nat :: 2 <= l < minLayer ==> Len(l) / 4 < radius
    {
      MinLayerSpec(radius);
      var layer: nat := 2;
      while Len(layer) / 4 < radius
        invariant 2 <= layer <= MinLayer(radius)
        invariant forall l: nat :: 2 <= l < layer ==> Len(l) / 4 < radius
        decreases MinLayer(radius) - layer
      {
        layer := layer + 1;
      }
      this.radius := radius;
      this.leafStep := leafStep;
      minLayer := layer;
      results := map[];
    }

    /** `advance_inner_node`, with the memo keyed by node and generation
        count: the result is what `Advance` computes, whatever the memo
        held, and it is cached. */
    method AdvanceInnerNode(n: Node, g: nat) returns (r: Node)
      requires Valid() && QuadNode.Valid(n) && InReach(n.layer, g, minLayer)
      modifies this
      ensures Valid() && r == Advance(n, g, minLayer, leafStep)
      ensures (n, g) in results && results[(n, g)] == r
      ensures forall key :: key in old(results) ==> key in results
      decreases n.layer, 0, 2
    {
      if (n, g) in results {
        return results[(n, g)];
      }
      r := Compute(n, g);
      ResultsCorrectUpdate(results, n, g, r, minLayer, leafStep);
      results := results[(n, g) := r];
    }

    /** The cases below the memo lookup. */
    method Compute(n: Node, g: nat) returns (r: Node)
      requires Valid() && QuadNode.Valid(n) && InReach(n.layer, g, minLayer)
      modifies this
      ensures Valid() && r == Advance(n, g, minLayer, leafStep)
      ensures forall key :: key in old(results) ==> key in results
      decreases n.layer, 0, 1
    {
      if g == 0 {
        InnerNodeValid(n);
        r := InnerNode(n);
      } else if Pop(n) == 0 {
        BranchFacts(n, 0);
        r := n.Br(0).node;
      } else if n.layer == minLayer {
        r := leafStep(n);
      } else {
        r := SplitNode(n, g);
      }
    }

    /** The overlap split, advancing through the memo. */
    method SplitNode(n: Node, g: nat) returns (r: Node)
      requires Valid() && QuadNode.Valid(n) && InReach(n.layer, g, minLayer) && n.layer > minLayer
      modifies this
      ensures Valid() && r == Split(n, g, minLayer, leafStep)
      ensures forall key :: key in old(results) ==> key in results
      decreases n.layer, 0, 0
    {
      var tInner, tOuter := Halves(g).0, Halves(g).1;
      HalvesInReach(n.layer, g, minLayer);
      OverlapsValid(n);
      var rs := AdvanceEach(Overlaps(n), n.layer - 1, tInner);
      JoinedValid(rs, n.layer - 2);
      var fs := AdvanceEach(Joined(rs), n.layer - 1, tOuter);
      r := Join(fs[0], fs[1], fs[2], fs[3]);
    }

    /** The `map` of `advance_inner_node` over an array of nodes, in order. */
    method AdvanceEach(ns: seq<Node>, ghost layer: nat, g: nat) returns (rs: seq<Node>)
      requires Valid() && InReach(layer, g, minLayer)
      requires forall k :: 0 <= k < |ns| ==> QuadNode.Valid(ns[k]) && ns[k].layer == layer
      modifies this
      ensures Valid() && rs == AdvanceAll(ns, layer, g, minLayer, leafStep)
      ensures forall key :: key in old(results) ==> key in results
      decreases layer, 1, 0
    {
      rs := [];
      for i := 0 to |ns|
        invariant Valid() && |rs| == i
        invariant forall k :: 0 <= k < i ==> rs[k] == Advance(ns[k], g, minLayer, leafStep)
        invariant forall key :: key in old(results) ==> key in results
      {
        SameReach(ns[i], layer, g, minLayer);
        var r := AdvanceInnerNode(ns[i], g);
        rs := rs + [r];
      }
    }

    /** `step`: expand, advance the root by the step size, and shrink. */
    method Step(tree: Tree.NdTree, stepSize: nat)
      requires stepSize > 0
      requires Valid() && tree.Valid()
      modifies this, tree
      ensures Valid() && tree.Valid()
      ensures var k := StepExpansions(old(tree.slice).root.layer, radius, stepSize);
        Stepped(old(tree.slice), k, stepSize, minLayer, leafStep, tree.slice)
    {
      var k := ExpandForStep(tree, radius, stepSize);
      ghost var expanded := tree.slice;
      var root := tree.slice.root;
      StepInReach(root.layer, radius, stepSize);
      var result := AdvanceInnerNode(root, stepSize);
      tree.SetRoot(result);
      ghost var advanced := tree.slice;
      var _ := tree.Shrink();
      assert Stepped(old(tree.slice), k, stepSize, minLayer, leafStep, tree.slice);
    }
  }
}
