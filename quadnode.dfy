// Nodes of the ND-tree for D = 2 (a quadtree), standing in for the tree's
// `node.rs` and `cache.rs` helpers: a node of layer L covers 2^L cells per axis
// and has 2^D = 4 branches, indexed by one bit per axis (bit 0 set: upper half
// of X; bit 1 set: upper half of Y). The branches of a layer-1 node are single
// cells. Structural equality of these values stands in for the hash-consing
// cache, which hands out one shared node per structure.
//
// A cell is reached from a node by a path of branch indices, one per layer,
// which is what the bits of its position select; `PathOf` computes that path
// from a node-relative position (x, y), 0 <= x, y < 2^L.
module QuadNode {
  import opened Numbers

  /** Cell states; the tree's tests use `u8` with default 0. */
  type State = nat

  const DEFAULT: State := 0
  const BRANCHES: nat := 4
  /** One bit per axis: XOR with it gives the diagonally opposite branch. */
  const BRANCH_IDX_BITMASK: bv8 := 3

  type BranchIdx = i: nat | i < 4

  datatype Branch = Leaf(state: State) | Child(node: Node)

  /** A node's branch array, one field per branch index. */
  datatype Node = Node(layer: nat, b0: Branch, b1: Branch, b2: Branch, b3: Branch)
  {
    /** Branch number i. */
    function Br(i: BranchIdx): Branch
    {
      if i == 0 then b0 else if i == 1 then b1 else if i == 2 then b2 else b3
    }

    /** The same node with branch i replaced by b. */
    function With(i: BranchIdx, b: Branch): (r: Node)
      ensures r.layer == layer
    {
      if i == 0 then Node(layer, b, b1, b2, b3)
      else if i == 1 then Node(layer, b0, b, b2, b3)
      else if i == 2 then Node(layer, b0, b1, b, b3)
      else Node(layer, b0, b1, b2, b)
    }
  }

  /** The branch indices leading from a node down to one cell. */
  datatype Path = End | Step(head: BranchIdx, rest: Path)

  function Depth(p: Path): nat
  {
    match p
    case End => 0
    case Step(_, r) => 1 + Depth(r)
  }

  /** Layers are consistent: a node of layer L >= 1 holds four branches of layer L - 1. */
  ghost predicate Valid(n: Node)
    decreases n
  {
    && n.layer >= 1
    && BranchValid(n.b0, n.layer - 1) && BranchValid(n.b1, n.layer - 1)
    && BranchValid(n.b2, n.layer - 1) && BranchValid(n.b3, n.layer - 1)
  }

  /** A branch at layer 0 is a single cell; above that it is a node of that layer. */
  ghost predicate BranchValid(b: Branch, layer: nat)
    decreases b
  {
    match b
    case Leaf(_) => layer == 0
    case Child(c) => layer >= 1 && c.layer == layer && Valid(c)
  }

  /** What validity says about branch i: a cell at layer 1, a valid node of
      the layer below otherwise. */
  lemma {:induction false} BranchFacts(n: Node, i: BranchIdx)
    requires Valid(n)
    ensures BranchValid(n.Br(i), n.layer - 1)
    ensures n.layer == 1 <==> n.Br(i).Leaf?
    ensures n.layer >= 2 ==> n.Br(i).node.layer == n.layer - 1 && Valid(n.Br(i).node)
  {
  }

  /** Replacing branch i leaves the others as they were. */
  lemma {:induction false} WithBr(m: Node, i: BranchIdx, b: Branch, j: BranchIdx)
    ensures m.With(i, b).Br(j) == if j == i then b else m.Br(j)
  {
  }

  /** Index of the branch diagonally opposite to branch i: every axis bit flipped. */
  function Opposite(i: BranchIdx): BranchIdx
  {
    3 - i
  }

  /** The opposite branch is the one the source finds by XOR with the bit mask,
      and taking it twice gives back the branch. */
  lemma {:induction false} OppositeIsXor(i: BranchIdx)
    ensures Opposite(i) == ((i as bv8) ^ BRANCH_IDX_BITMASK) as nat
    ensures Opposite(Opposite(i)) == i
  {
    if i == 0 {
      assert (0 as bv8) ^ BRANCH_IDX_BITMASK == 3;
    } else if i == 1 {
      assert (1 as bv8) ^ BRANCH_IDX_BITMASK == 2;
    } else if i == 2 {
      assert (2 as bv8) ^ BRANCH_IDX_BITMASK == 1;
    } else {
      assert (3 as bv8) ^ BRANCH_IDX_BITMASK == 0;
    }
  }

  // ---------------------------------------------------------------------
  // Reading and writing one cell along a path (`NdTreeNode::get_cell`,
  // `NdTreeNode::set_cell`).

  function PathCell(n: Node, p: Path): State
    decreases n
  {
    match p
    case End => DEFAULT
    case Step(i, r) => BranchPathCell(n.Br(i), r)
  }

  function BranchPathCell(b: Branch, p: Path): State
    decreases b
  {
    match b
    case Leaf(s) => s
    case Child(c) => PathCell(c, p)
  }

  /** The node with the cell at p set to s: the nodes along the path are
      rebuilt, every other branch is shared. */
  function SetPathCell(n: Node, p: Path, s: State): (r: Node)
    ensures r.layer == n.layer
    decreases n
  {
    match p
    case End => n
    case Step(i, q) => n.With(i, SetBranchPathCell(n.Br(i), q, s))
  }

  function SetBranchPathCell(b: Branch, p: Path, s: State): Branch
    decreases b
  {
    match b
    case Leaf(_) => Leaf(s)
    case Child(c) => Child(SetPathCell(c, p, s))
  }

  /** Writing a cell keeps the layers consistent. */
  lemma {:induction false} SetPathCellValid(n: Node, p: Path, s: State)
    requires Valid(n)
    ensures Valid(SetPathCell(n, p, s))
    decreases n
  {
    match p
    case End =>
    case Step(i, q) =>
      SetBranchPathCellValid(n.Br(i), n.layer - 1, q, s);
      BranchFacts(n, i);
      var r := SetPathCell(n, p, s);
      assert r == n.With(i, SetBranchPathCell(n.Br(i), q, s));
      assert forall j: BranchIdx :: BranchValid(r.Br(j), n.layer - 1);
      assert BranchValid(r.Br(0), n.layer - 1) && BranchValid(r.Br(1), n.layer - 1)
          && BranchValid(r.Br(2), n.layer - 1) && BranchValid(r.Br(3), n.layer - 1);
  }

  lemma {:induction false} SetBranchPathCellValid(b: Branch, layer: nat, p: Path, s: State)
    requires BranchValid(b, layer)
    ensures BranchValid(SetBranchPathCell(b, p, s), layer)
    decreases b
  {
    match b
    case Leaf(_) =>
    case Child(c) => SetPathCellValid(c, p, s);
  }

  /** Two steps down a path go through branch i and then its branch j. */
  lemma {:induction false} PathCellTwoSteps(m: Node, i: BranchIdx, j: BranchIdx, r: Path)
    requires m.Br(i).Child?
    ensures PathCell(m, Step(i, Step(j, r))) == BranchPathCell(m.Br(i).node.Br(j), r)
  {
    assert PathCell(m, Step(i, Step(j, r))) == BranchPathCell(m.Br(i), Step(j, r));
    assert BranchPathCell(m.Br(i), Step(j, r)) == PathCell(m.Br(i).node, Step(j, r));
  }

  /** After writing s along p, the cell at p holds s. */
  lemma {:induction false} SetPathCellSame(n: Node, p: Path, s: State)
    requires Valid(n) && Depth(p) == n.layer
    ensures PathCell(SetPathCell(n, p, s), p) == s
    decreases n
  {
    var i, q := p.head, p.rest;
    BranchFacts(n, i);
    var r := SetPathCell(n, p, s);
    assert r.Br(i) == SetBranchPathCell(n.Br(i), q, s);
    match n.Br(i)
    case Leaf(_) =>
    case Child(c) =>
      SetPathCellSame(c, q, s);
  }

  /** Writing along p leaves every other cell of the same depth unchanged. */
  lemma {:induction false} SetPathCellOther(n: Node, p: Path, s: State, q: Path)
    requires Valid(n) && Depth(p) == n.layer && Depth(q) == n.layer && p != q
    ensures PathCell(SetPathCell(n, p, s), q) == PathCell(n, q)
    decreases n
  {
    var i, j := p.head, q.head;
    BranchFacts(n, i);
    var r := SetPathCell(n, p, s);
    if i == j {
      assert r.Br(i) == SetBranchPathCell(n.Br(i), p.rest, s);
      match n.Br(i)
      case Leaf(_) =>
        assert false;
      case Child(c) =>
        SetPathCellOther(c, p.rest, s, q.rest);
    } else {
      assert r.Br(j) == n.Br(j);
    }
  }

  // ---------------------------------------------------------------------
  // Empty nodes (`get_empty_node`, `get_empty_branch`).

  function EmptyNode(layer: nat): (r: Node)
    requires layer >= 1
    ensures r.layer == layer
    decreases layer, 0
  {
    var b := EmptyBranch(layer - 1);
    Node(layer, b, b, b, b)
  }

  function EmptyBranch(layer: nat): Branch
    decreases layer, 1
  {
    if layer == 0 then Leaf(DEFAULT) else Child(EmptyNode(layer))
  }

  lemma {:induction false} EmptyBranchValid(layer: nat)
    ensures BranchValid(EmptyBranch(layer), layer)
    decreases layer
  {
    if layer > 0 {
      EmptyBranchValid(layer - 1);
      assert Valid(EmptyNode(layer));
    }
  }

  /** The empty node of a layer has consistent layers. */
  lemma {:induction false} EmptyNodeValid(layer: nat)
    requires layer >= 1
    ensures Valid(EmptyNode(layer))
  {
    EmptyBranchValid(layer - 1);
  }

  /** All four branches of an empty node are the empty branch of the layer below. */
  lemma {:induction false} EmptyNodeBranches(layer: nat)
    requires layer >= 1
    ensures forall i: BranchIdx :: EmptyNode(layer).Br(i) == EmptyBranch(layer - 1)
  {
  }

  // ---------------------------------------------------------------------
  // Population: the number of cells whose state is not the default.

  function Pop(n: Node): nat
    decreases n
  {
    BranchPop(n.b0) + BranchPop(n.b1) + BranchPop(n.b2) + BranchPop(n.b3)
  }

  function BranchPop(b: Branch): nat
    decreases b
  {
    match b
    case Leaf(s) => Indicator(s)
    case Child(c) => Pop(c)
  }

  /** 1 for a live (non-default) cell, 0 for a default one. */
  function Indicator(s: State): nat
  {
    if s == DEFAULT then 0 else 1
  }

  lemma {:induction false} EmptyBranchPop(layer: nat)
    ensures BranchPop(EmptyBranch(layer)) == 0
    decreases layer
  {
    if layer > 0 {
      EmptyBranchPop(layer - 1);
    }
  }

  lemma {:induction false} EmptyNodePop(layer: nat)
    requires layer >= 1
    ensures Pop(EmptyNode(layer)) == 0
  {
    EmptyBranchPop(layer - 1);
  }

  /** A branch with no population has only default cells. */
  lemma {:induction false} ZeroPopBranchIsDefault(b: Branch, p: Path)
    requires BranchPop(b) == 0
    ensures BranchPathCell(b, p) == DEFAULT
    decreases b
  {
    match b
    case Leaf(_) =>
    case Child(c) => ZeroPopNodeIsDefault(c, p);
  }

  lemma {:induction false} ZeroPopNodeIsDefault(n: Node, p: Path)
    requires Pop(n) == 0
    ensures PathCell(n, p) == DEFAULT
    decreases n
  {
    match p
    case End =>
    case Step(i, r) =>
      assert BranchPop(n.Br(i)) == 0;
      ZeroPopBranchIsDefault(n.Br(i), r);
  }

  lemma {:induction false} EmptyBranchCell(layer: nat, p: Path)
    ensures BranchPathCell(EmptyBranch(layer), p) == DEFAULT
  {
    EmptyBranchPop(layer);
    ZeroPopBranchIsDefault(EmptyBranch(layer), p);
  }

  /** Every cell of an empty node has the default state. */
  lemma {:induction false} EmptyNodeCell(layer: nat, p: Path)
    requires layer >= 1
    ensures PathCell(EmptyNode(layer), p) == DEFAULT
  {
    EmptyNodePop(layer);
    ZeroPopNodeIsDefault(EmptyNode(layer), p);
  }

  /** A valid node with no population is the empty node of its layer: the
      empty node is the only one of its layer without live cells. */
  lemma {:induction false} ZeroPopNodeIsEmpty(n: Node)
    requires Valid(n) && Pop(n) == 0
    ensures n == EmptyNode(n.layer)
    decreases n
  {
    var e := EmptyBranch(n.layer - 1);
    ZeroPopBranchIsEmpty(n.b0, n.layer - 1);
    ZeroPopBranchIsEmpty(n.b1, n.layer - 1);
    ZeroPopBranchIsEmpty(n.b2, n.layer - 1);
    ZeroPopBranchIsEmpty(n.b3, n.layer - 1);
    assert n == Node(n.layer, e, e, e, e);
  }

  lemma {:induction false} ZeroPopBranchIsEmpty(b: Branch, layer: nat)
    requires BranchValid(b, layer) && BranchPop(b) == 0
    ensures b == EmptyBranch(layer)
    decreases b
  {
    match b
    case Leaf(s) =>
      assert layer == 0 && s == DEFAULT;
    case Child(c) =>
      ZeroPopNodeIsEmpty(c);
  }

  /** Replacing one branch changes the population by the difference of the
      two branches' populations. */
  lemma {:induction false} WithPop(m: Node, k: BranchIdx, b: Branch)
    ensures Pop(m.With(k, b)) + BranchPop(m.Br(k)) == Pop(m) + BranchPop(b)
  {
    if k == 0 {
      assert m.With(k, b) == Node(m.layer, b, m.b1, m.b2, m.b3);
    } else if k == 1 {
      assert m.With(k, b) == Node(m.layer, m.b0, b, m.b2, m.b3);
    } else if k == 2 {
      assert m.With(k, b) == Node(m.layer, m.b0, m.b1, b, m.b3);
    } else {
      assert m.With(k, b) == Node(m.layer, m.b0, m.b1, m.b2, b);
    }
  }

  /** Writing a cell changes the population by the change in liveness of that cell. */
  lemma {:induction false} SetPathCellPop(n: Node, p: Path, s: State)
    requires Valid(n) && Depth(p) == n.layer
    ensures Pop(SetPathCell(n, p, s)) + Indicator(PathCell(n, p)) == Pop(n) + Indicator(s)
    decreases n, 1
  {
    var i, q := p.head, p.rest;
    BranchFacts(n, i);
    var b := SetBranchPathCell(n.Br(i), q, s);
    SetBranchPathCellPop(n.Br(i), n.layer - 1, q, s);
    WithPop(n, i, b);
    assert SetPathCell(n, p, s) == n.With(i, b);
    assert PathCell(n, p) == BranchPathCell(n.Br(i), q);
  }

  lemma {:induction false} SetBranchPathCellPop(b: Branch, layer: nat, q: Path, s: State)
    requires BranchValid(b, layer) && Depth(q) == layer
    ensures BranchPop(SetBranchPathCell(b, q, s)) + Indicator(BranchPathCell(b, q)) == BranchPop(b) + Indicator(s)
    decreases b, 0
  {
    match b
    case Leaf(_) =>
    case Child(c) =>
      SetPathCellPop(c, q, s);
  }

  // ---------------------------------------------------------------------
  // Expansion (the node built by `NdTree::expand`): new branch i holds old
  // branch i in its opposite corner i ^ BITMASK, all else empty.

  function ExpandedBranch(n: Node, i: BranchIdx): Branch
    requires n.layer >= 1
  {
    Child(EmptyNode(n.layer).With(Opposite(i), n.Br(i)))
  }

  function ExpandNode(n: Node): (r: Node)
    requires n.layer >= 1
    ensures r.layer == n.layer + 1
  {
    Node(n.layer + 1, ExpandedBranch(n, 0), ExpandedBranch(n, 1), ExpandedBranch(n, 2), ExpandedBranch(n, 3))
  }

  lemma {:induction false} ExpandedBranchValid(n: Node, i: BranchIdx)
    requires Valid(n)
    ensures BranchValid(ExpandedBranch(n, i), n.layer)
  {
    BranchFacts(n, i);
    EmptyNodeValid(n.layer);
    EmptyNodeBranches(n.layer);
    var m := EmptyNode(n.layer).With(Opposite(i), n.Br(i));
    assert forall j: BranchIdx :: BranchValid(m.Br(j), n.layer - 1);
    assert BranchValid(m.Br(0), n.layer - 1) && BranchValid(m.Br(1), n.layer - 1)
        && BranchValid(m.Br(2), n.layer - 1) && BranchValid(m.Br(3), n.layer - 1);
  }

  /** Expansion keeps the layers consistent. */
  lemma {:induction false} ExpandNodeValid(n: Node)
    requires Valid(n)
    ensures Valid(ExpandNode(n))
  {
    ExpandedBranchValid(n, 0);
    ExpandedBranchValid(n, 1);
    ExpandedBranchValid(n, 2);
    ExpandedBranchValid(n, 3);
  }

  /** Branch j of new branch i is old branch i if j is opposite to i, else empty. */
  lemma {:induction false} ExpandNodeBranches(n: Node, i: BranchIdx, j: BranchIdx)
    requires n.layer >= 1
    ensures ExpandNode(n).Br(i).Child?
    ensures ExpandNode(n).Br(i).node.Br(j)
         == if j == Opposite(i) then n.Br(i) else EmptyBranch(n.layer - 1)
  {
    EmptyNodeBranches(n.layer);
    assert ExpandNode(n).Br(i) == ExpandedBranch(n, i);
  }

  /** Two steps into the expanded node reach old branch i when the second step
      is towards the centre, and empty space otherwise. */
  lemma {:induction false} ExpandPathCell(n: Node, i: BranchIdx, j: BranchIdx, r: Path)
    requires n.layer >= 1
    ensures PathCell(ExpandNode(n), Step(i, Step(j, r)))
         == if j == Opposite(i) then PathCell(n, Step(i, r)) else DEFAULT
  {
    ExpandNodeBranches(n, i, j);
    PathCellTwoSteps(ExpandNode(n), i, j, r);
    if j != Opposite(i) {
      EmptyBranchCell(n.layer - 1, r);
    }
  }

  lemma {:induction false} ExpandedBranchPop(n: Node, i: BranchIdx)
    requires n.layer >= 1
    ensures BranchPop(ExpandedBranch(n, i)) == BranchPop(n.Br(i))
  {
    EmptyBranchPop(n.layer - 1);
    EmptyNodePop(n.layer);
    EmptyNodeBranches(n.layer);
    WithPop(EmptyNode(n.layer), Opposite(i), n.Br(i));
  }

  /** Expansion adds only empty space. */
  lemma {:induction false} ExpandNodePop(n: Node)
    requires n.layer >= 1
    ensures Pop(ExpandNode(n)) == Pop(n)
  {
    ExpandedBranchPop(n, 0);
    ExpandedBranchPop(n, 1);
    ExpandedBranchPop(n, 2);
    ExpandedBranchPop(n, 3);
  }

  // ---------------------------------------------------------------------
  // The inner node (`get_inner_node` / `centered_inner`): the node one layer
  // down centred on this one, made from the grandchild of each branch that is
  // closest to the centre.

  function InnerNode(n: Node): (r: Node)
    requires Valid(n) && n.layer >= 2
    ensures r.layer == n.layer - 1
  {
    BranchFacts(n, 0); BranchFacts(n, 1); BranchFacts(n, 2); BranchFacts(n, 3);
    Node(n.layer - 1, n.b0.node.b3, n.b1.node.b2, n.b2.node.b1, n.b3.node.b0)
  }

  /** The inner node has consistent layers. */
  lemma {:induction false} InnerNodeValid(n: Node)
    requires Valid(n) && n.layer >= 2
    ensures Valid(InnerNode(n))
  {
    BranchFacts(n, 0); BranchFacts(n, 1); BranchFacts(n, 2); BranchFacts(n, 3);
    var r := InnerNode(n);
    assert BranchValid(n.b0.node.b3, n.layer - 2);
    assert BranchValid(n.b1.node.b2, n.layer - 2);
    assert BranchValid(n.b2.node.b1, n.layer - 2);
    assert BranchValid(n.b3.node.b0, n.layer - 2);
  }

  /** Branch i of the inner node is the grandchild of branch i nearest the centre. */
  lemma {:induction false} InnerNodeBranch(n: Node, i: BranchIdx)
    requires Valid(n) && n.layer >= 2
    ensures n.Br(i).Child? && InnerNode(n).Br(i) == n.Br(i).node.Br(Opposite(i))
  {
    BranchFacts(n, i);
  }

  /** One step into the inner node is two steps into the node, the second
      towards the centre. */
  lemma {:induction false} InnerPathCell(n: Node, i: BranchIdx, r: Path)
    requires Valid(n) && n.layer >= 2
    ensures PathCell(InnerNode(n), Step(i, r)) == PathCell(n, Step(i, Step(Opposite(i), r)))
  {
    InnerNodeBranch(n, i);
    PathCellTwoSteps(n, i, Opposite(i), r);
  }

  /** Population of grandchild j of branch i. */
  function GrandchildPop(n: Node, i: BranchIdx, j: BranchIdx): nat
    requires Valid(n) && n.layer >= 2
  {
    BranchFacts(n, i);
    BranchPop(n.Br(i).node.Br(j))
  }

  /** The sixteen grandchildren's populations add up to the node's, and the
      four nearest the centre to the inner node's. */
  lemma {:induction false} PopByGrandchildren(n: Node)
    requires Valid(n) && n.layer >= 2
    ensures Pop(n) == (GrandchildPop(n, 0, 0) + GrandchildPop(n, 0, 1) + GrandchildPop(n, 0, 2) + GrandchildPop(n, 0, 3))
                    + (GrandchildPop(n, 1, 0) + GrandchildPop(n, 1, 1) + GrandchildPop(n, 1, 2) + GrandchildPop(n, 1, 3))
                    + (GrandchildPop(n, 2, 0) + GrandchildPop(n, 2, 1) + GrandchildPop(n, 2, 2) + GrandchildPop(n, 2, 3))
                    + (GrandchildPop(n, 3, 0) + GrandchildPop(n, 3, 1) + GrandchildPop(n, 3, 2) + GrandchildPop(n, 3, 3))
    ensures Pop(InnerNode(n)) == GrandchildPop(n, 0, 3) + GrandchildPop(n, 1, 2) + GrandchildPop(n, 2, 1) + GrandchildPop(n, 3, 0)
  {
    BranchPopByGrandchildren(n, 0);
    BranchPopByGrandchildren(n, 1);
    BranchPopByGrandchildren(n, 2);
    BranchPopByGrandchildren(n, 3);
    InnerNodeBranch(n, 0); InnerNodeBranch(n, 1); InnerNodeBranch(n, 2); InnerNodeBranch(n, 3);
  }

  lemma {:induction false} BranchPopByGrandchildren(n: Node, i: BranchIdx)
    requires Valid(n) && n.layer >= 2
    ensures BranchPop(n.Br(i))
         == GrandchildPop(n, i, 0) + GrandchildPop(n, i, 1) + GrandchildPop(n, i, 2) + GrandchildPop(n, i, 3)
  {
    BranchFacts(n, i);
  }

  /** When the inner node has the whole population, the twelve grandchildren
      outside it are empty. */
  lemma {:induction false} OuterGrandchildrenEmpty(n: Node, i: BranchIdx, j: BranchIdx)
    requires Valid(n) && n.layer >= 2 && j != Opposite(i)
    requires Pop(InnerNode(n)) == Pop(n)
    ensures GrandchildPop(n, i, j) == 0
  {
    PopByGrandchildren(n);
  }

  /** When the inner node has the whole population, every cell outside it is
      default: that is what makes `shrink` lossless. */
  lemma {:induction false} OuterPathCell(n: Node, i: BranchIdx, j: BranchIdx, r: Path)
    requires Valid(n) && n.layer >= 2 && j != Opposite(i)
    requires Pop(InnerNode(n)) == Pop(n)
    ensures PathCell(n, Step(i, Step(j, r))) == DEFAULT
  {
    OuterGrandchildrenEmpty(n, i, j);
    BranchFacts(n, i);
    PathCellTwoSteps(n, i, j, r);
    ZeroPopBranchIsDefault(n.Br(i).node.Br(j), r);
  }

  // ---------------------------------------------------------------------
  // Positions. A node of layer L is 2^L cells wide; branch i of it starts at
  // (OriginX(i, h), OriginY(i, h)) where h = 2^(L-1).

  /** Cells per axis of a node of the given layer. */
  function Len(layer: nat): nat
  {
    Pow2(layer)
  }

  lemma {:induction false} LenDouble(layer: nat)
    requires layer >= 1
    ensures Len(layer) == 2 * Len(layer - 1)
  {
  }

  /** (x, y) lies inside a node of the given layer. */
  predicate In(x: int, y: int, layer: nat)
  {
    0 <= x < Len(layer) && 0 <= y < Len(layer)
  }

  /** The branch containing (x, y), for a node whose branches are `half` cells wide. */
  function BranchIndex(x: int, y: int, half: nat): BranchIdx
  {
    (if x >= half then 1 else 0) + (if y >= half then 2 else 0)
  }

  /** Minimum corner of branch i relative to its parent, X and Y. */
  function OriginX(i: BranchIdx, half: nat): nat
  {
    if i == 1 || i == 3 then half else 0
  }

  function OriginY(i: BranchIdx, half: nat): nat
  {
    if i >= 2 then half else 0
  }

  /** The path to (x, y) in a node of the given layer: at each layer the
      branch holding the position, then the position relative to that branch. */
  function PathOf(x: int, y: int, layer: nat): Path
  {
    if layer == 0 then End
    else
      var h := Len(layer - 1);
      var i := BranchIndex(x, y, h);
      Step(i, PathOf(x - OriginX(i, h), y - OriginY(i, h), layer - 1))
  }

  /** A path to a cell of a layer-L node has one step per layer. */
  lemma {:induction false} PathOfDepth(x: int, y: int, layer: nat)
    ensures Depth(PathOf(x, y, layer)) == layer
    decreases layer
  {
    if layer > 0 {
      var h := Len(layer - 1);
      var i := BranchIndex(x, y, h);
      PathOfDepth(x - OriginX(i, h), y - OriginY(i, h), layer - 1);
    }
  }

  /** The branch of a layer-L node containing (x, y), and (x, y) relative to
      that branch. */
  lemma {:induction false} ChildPos(x: int, y: int, layer: nat)
    requires layer >= 1 && In(x, y, layer)
    ensures var h := Len(layer - 1); var i := BranchIndex(x, y, h);
      In(x - OriginX(i, h), y - OriginY(i, h), layer - 1)
  {
    LenDouble(layer);
  }

  /** Different positions of a node have different paths. */
  lemma {:induction false} PathOfInjective(x: int, y: int, u: int, v: int, layer: nat)
    requires In(x, y, layer) && In(u, v, layer) && PathOf(x, y, layer) == PathOf(u, v, layer)
    ensures x == u && y == v
    decreases layer
  {
    if layer == 0 {
    } else {
      var h := Len(layer - 1);
      var i := BranchIndex(x, y, h);
      ChildPos(x, y, layer);
      ChildPos(u, v, layer);
      PathOfInjective(x - OriginX(i, h), y - OriginY(i, h), u - OriginX(i, h), v - OriginY(i, h), layer - 1);
    }
  }

  /** One layer of `PathOf`, with the branch length h = 2^k given. */
  lemma {:induction false} PathOfUnfold(x: int, y: int, k: nat, h: nat)
    requires h == Len(k)
    ensures var i := BranchIndex(x, y, h);
      PathOf(x, y, k + 1) == Step(i, PathOf(x - OriginX(i, h), y - OriginY(i, h), k))
  {
  }

  /** A position in a square of 4h cells lies in a grandchild (branch j of
      branch i); the grandchild is one of the four nearest the centre exactly
      when the position is in the central square of 2h cells. */
  lemma {:induction false} GrandchildSplit(x: int, y: int, h: nat)
    requires 0 <= x < 4 * h && 0 <= y < 4 * h
    ensures var i := BranchIndex(x, y, 2 * h);
      var j := BranchIndex(x - OriginX(i, 2 * h), y - OriginY(i, 2 * h), h);
      j == Opposite(i) <==> 0 <= x - h < 2 * h && 0 <= y - h < 2 * h
  {
  }

  /** In that case it is in branch i of the central square, at the same place
      (rx, ry) inside the grandchild. */
  lemma {:induction false} GrandchildCentre(x: int, y: int, h: nat)
    requires 0 <= x < 4 * h && 0 <= y < 4 * h
    requires var i := BranchIndex(x, y, 2 * h);
      BranchIndex(x - OriginX(i, 2 * h), y - OriginY(i, 2 * h), h) == Opposite(i)
    ensures var i := BranchIndex(x, y, 2 * h);
      var qx, qy := x - OriginX(i, 2 * h), y - OriginY(i, 2 * h);
      var j := BranchIndex(qx, qy, h);
      && BranchIndex(x - h, y - h, h) == i
      && x - h - OriginX(i, h) == qx - OriginX(j, h)
      && y - h - OriginY(i, h) == qy - OriginY(j, h)
  {
  }

  /** A position (x, y) of a square of 2g cells, seen at (x + g, y + g) in the
      square of 4g cells around it, lies in the grandchild of the same branch
      nearest the centre, at the same place inside it. */
  lemma {:induction false} CentreSplit(x: int, y: int, g: nat)
    requires 0 <= x < 2 * g && 0 <= y < 2 * g
    ensures var i := BranchIndex(x, y, g);
      var rx, ry := x - OriginX(i, g), y - OriginY(i, g);
      var qx, qy := x + g - OriginX(i, 2 * g), y + g - OriginY(i, 2 * g);
      && BranchIndex(x + g, y + g, 2 * g) == i
      && BranchIndex(qx, qy, g) == Opposite(i)
      && qx - OriginX(Opposite(i), g) == rx && qy - OriginY(Opposite(i), g) == ry
  {
  }

  /** Two layers of `PathOf`: seen from a node of layer k + 2, a position lies
      in branch j of branch i, at (rx, ry) inside it. */
  lemma {:induction false} PathOfTwoSteps(x: int, y: int, k: nat)
    ensures var h := Len(k);
      var i := BranchIndex(x, y, 2 * h);
      var qx, qy := x - OriginX(i, 2 * h), y - OriginY(i, 2 * h);
      var j := BranchIndex(qx, qy, h);
      PathOf(x, y, k + 2) == Step(i, Step(j, PathOf(qx - OriginX(j, h), qy - OriginY(j, h), k)))
  {
    var h := Len(k);
    LenDouble(k + 1);
    PathOfUnfold(x, y, k + 1, 2 * h);
    var i := BranchIndex(x, y, 2 * h);
    PathOfUnfold(x - OriginX(i, 2 * h), y - OriginY(i, 2 * h), k, h);
  }

  /** Branch j of branch i of a node of layer k + 2 is one of the four
      grandchildren nearest the centre exactly when the position is in the
      central node of layer k + 1, at an offset of 2^k. */
  lemma {:induction false} CentreIff(x: int, y: int, k: nat)
    requires In(x, y, k + 2)
    ensures var h := Len(k);
      var i := BranchIndex(x, y, 2 * h);
      var j := BranchIndex(x - OriginX(i, 2 * h), y - OriginY(i, 2 * h), h);
      j == Opposite(i) <==> In(x - h, y - h, k + 1)
  {
    LenDouble(k + 1);
    LenDouble(k + 2);
    GrandchildSplit(x, y, Len(k));
  }

  /** In that case branch i of the central node, at the same (rx, ry), holds
      the position. */
  lemma {:induction false} CentreSteps(x: int, y: int, k: nat)
    requires In(x, y, k + 2)
    ensures var h := Len(k);
      var i := BranchIndex(x, y, 2 * h);
      var qx, qy := x - OriginX(i, 2 * h), y - OriginY(i, 2 * h);
      var j := BranchIndex(qx, qy, h);
      j == Opposite(i) ==> PathOf(x - h, y - h, k + 1) == Step(i, PathOf(qx - OriginX(j, h), qy - OriginY(j, h), k))
  {
    var h := Len(k);
    LenDouble(k + 1);
    LenDouble(k + 2);
    var i := BranchIndex(x, y, 2 * h);
    if BranchIndex(x - OriginX(i, 2 * h), y - OriginY(i, 2 * h), h) == Opposite(i) {
      GrandchildCentre(x, y, h);
      PathOfUnfold(x - h, y - h, k, h);
    }
  }

  /** A position (x, y) of the central node of layer k + 1 is (x + g, y + g)
      in the node of layer k + 2, g = 2^k, and its path there goes through the
      grandchild of the same branch nearest the centre. */
  lemma {:induction false} CentrePath(x: int, y: int, k: nat)
    requires In(x, y, k + 1)
    ensures var g := Len(k);
      var i := BranchIndex(x, y, g);
      PathOf(x + g, y + g, k + 2) == Step(i, Step(Opposite(i), PathOf(x - OriginX(i, g), y - OriginY(i, g), k)))
  {
    var g := Len(k);
    LenDouble(k + 1);
    CentreSplit(x, y, g);
    PathOfTwoSteps(x + g, y + g, k);
  }

  // ---------------------------------------------------------------------
  // Cells by position.

  /** The state of the cell at node-relative position (x, y). */
  function CellAt(n: Node, x: int, y: int): State
  {
    PathCell(n, PathOf(x, y, n.layer))
  }

  /** The node with the cell at (x, y) set to s. */
  function SetCellAt(n: Node, x: int, y: int, s: State): (r: Node)
    ensures r.layer == n.layer
  {
    SetPathCell(n, PathOf(x, y, n.layer), s)
  }

  /** After writing s at (x, y), that cell holds s and every other cell is unchanged. */
  lemma {:induction false} SetCellAtSpec(n: Node, x: int, y: int, s: State, u: int, v: int)
    requires Valid(n) && In(x, y, n.layer) && In(u, v, n.layer)
    ensures CellAt(SetCellAt(n, x, y, s), u, v) == if (u, v) == (x, y) then s else CellAt(n, u, v)
  {
    var p, q := PathOf(x, y, n.layer), PathOf(u, v, n.layer);
    PathOfDepth(x, y, n.layer);
    PathOfDepth(u, v, n.layer);
    if (u, v) == (x, y) {
      SetPathCellSame(n, p, s);
    } else {
      if p == q {
        PathOfInjective(x, y, u, v, n.layer);
      }
      SetPathCellOther(n, p, s, q);
    }
  }

  /** Writing a cell changes the population by the change in liveness of that cell. */
  lemma {:induction false} SetCellAtPop(n: Node, x: int, y: int, s: State)
    requires Valid(n)
    ensures Pop(SetCellAt(n, x, y, s)) + Indicator(CellAt(n, x, y)) == Pop(n) + Indicator(s)
  {
    PathOfDepth(x, y, n.layer);
    SetPathCellPop(n, PathOf(x, y, n.layer), s);
  }

  /** A cell of a node of layer k + 2, read two layers down. */
  lemma {:induction false} CellAtTwoSteps(m: Node, x: int, y: int, k: nat)
    requires m.layer == k + 2
    ensures var h := Len(k);
      var i := BranchIndex(x, y, 2 * h);
      var qx, qy := x - OriginX(i, 2 * h), y - OriginY(i, 2 * h);
      var j := BranchIndex(qx, qy, h);
      CellAt(m, x, y) == PathCell(m, Step(i, Step(j, PathOf(qx - OriginX(j, h), qy - OriginY(j, h), k))))
  {
    PathOfTwoSteps(x, y, k);
  }

  /** A cell of the central node of layer k + 1, for a position of the node of
      layer k + 2 around it that lies in a grandchild nearest the centre. */
  lemma {:induction false} CellAtCentre(m: Node, x: int, y: int, k: nat)
    requires m.layer == k + 1 && In(x, y, k + 2)
    requires var h := Len(k);
      var i := BranchIndex(x, y, 2 * h);
      BranchIndex(x - OriginX(i, 2 * h), y - OriginY(i, 2 * h), h) == Opposite(i)
    ensures var h := Len(k);
      var i := BranchIndex(x, y, 2 * h);
      var qx, qy := x - OriginX(i, 2 * h), y - OriginY(i, 2 * h);
      var j := BranchIndex(qx, qy, h);
      CellAt(m, x - h, y - h) == PathCell(m, Step(i, PathOf(qx - OriginX(j, h), qy - OriginY(j, h), k)))
  {
    CentreSteps(x, y, k);
  }

  /** Reading by position a node e of layer L + 1 whose paths relate to those
      of a node n of layer L as an expansion's do. */
  lemma {:induction false} ExpandedCellAt(e: Node, n: Node, x: int, y: int)
    requires n.layer >= 1 && e.layer == n.layer + 1 && In(x, y, n.layer + 1)
    requires forall i: BranchIdx, j: BranchIdx, r: Path ::
      PathCell(e, Step(i, Step(j, r))) == if j == Opposite(i) then PathCell(n, Step(i, r)) else DEFAULT
    ensures var d := Len(n.layer - 1);
      CellAt(e, x, y) == if In(x - d, y - d, n.layer) then CellAt(n, x - d, y - d) else DEFAULT
  {
    var k := n.layer - 1;
    var h := Len(k);
    CellAtTwoSteps(e, x, y, k);
    CentreIff(x, y, k);
    var i := BranchIndex(x, y, 2 * h);
    var j := BranchIndex(x - OriginX(i, 2 * h), y - OriginY(i, 2 * h), h);
    if j == Opposite(i) {
      CellAtCentre(n, x, y, k);
    }
  }

  /** Every two-step path into the expanded node, as `ExpandPathCell` says. */
  lemma {:induction false} ExpandNodePaths(n: Node)
    requires n.layer >= 1
    ensures forall i: BranchIdx, j: BranchIdx, r: Path ::
      PathCell(ExpandNode(n), Step(i, Step(j, r))) == if j == Opposite(i) then PathCell(n, Step(i, r)) else DEFAULT
  {
    forall i: BranchIdx, j: BranchIdx, r: Path
      ensures PathCell(ExpandNode(n), Step(i, Step(j, r))) == if j == Opposite(i) then PathCell(n, Step(i, r)) else DEFAULT
    {
      ExpandPathCell(n, i, j, r);
    }
  }

  /** The expanded node holds the old node's cells shifted by a quarter of its
      own length, and default cells everywhere else. */
  lemma {:induction false} ExpandNodeCell(n: Node, x: int, y: int)
    requires n.layer >= 1 && In(x, y, n.layer + 1)
    ensures var d := Len(n.layer - 1);
      CellAt(ExpandNode(n), x, y)
        == if In(x - d, y - d, n.layer) then CellAt(n, x - d, y - d) else DEFAULT
  {
    ExpandNodePaths(n);
    ExpandedCellAt(ExpandNode(n), n, x, y);
  }

  /** Reading by position a node c of layer L - 1 whose paths relate to those
      of a node n of layer L as its inner node's do. */
  lemma {:induction false} CentredCellAt(c: Node, n: Node, x: int, y: int)
    requires n.layer >= 2 && c.layer == n.layer - 1 && In(x, y, n.layer - 1)
    requires forall i: BranchIdx, r: Path :: PathCell(c, Step(i, r)) == PathCell(n, Step(i, Step(Opposite(i), r)))
    ensures CellAt(c, x, y) == CellAt(n, x + Len(n.layer - 2), y + Len(n.layer - 2))
  {
    var k := n.layer - 2;
    var g := Len(k);
    PathOfUnfold(x, y, k, g);
    CentrePath(x, y, k);
  }

  /** Every path into the inner node, as `InnerPathCell` says. */
  lemma {:induction false} InnerNodePaths(n: Node)
    requires Valid(n) && n.layer >= 2
    ensures forall i: BranchIdx, r: Path ::
      PathCell(InnerNode(n), Step(i, r)) == PathCell(n, Step(i, Step(Opposite(i), r)))
  {
    forall i: BranchIdx, r: Path
      ensures PathCell(InnerNode(n), Step(i, r)) == PathCell(n, Step(i, Step(Opposite(i), r)))
    {
      InnerPathCell(n, i, r);
    }
  }

  /** The central square of a node: a position of a node of layer k + 1, moved
      by 2^k, is a position of the node of layer k + 2 around it. */
  lemma {:induction false} CentredIn(x: int, y: int, k: nat)
    requires In(x, y, k + 1)
    ensures In(x + Len(k), y + Len(k), k + 2)
  {
    LenDouble(k + 1);
    LenDouble(k + 2);
  }

  /** The inner node shows the cells of the node at an offset of a quarter of
      the node's length. */
  lemma {:induction false} InnerNodeCell(n: Node, x: int, y: int)
    requires Valid(n) && n.layer >= 2 && In(x, y, n.layer - 1)
    ensures var g := Len(n.layer - 2); In(x + g, y + g, n.layer)
    ensures var g := Len(n.layer - 2); CellAt(InnerNode(n), x, y) == CellAt(n, x + g, y + g)
  {
    CentredIn(x, y, n.layer - 2);
    InnerNodePaths(n);
    CentredCellAt(InnerNode(n), n, x, y);
  }

  /** Reading by position a node whose grandchildren away from the centre
      hold only default cells. */
  lemma {:induction false} OuterCellAt(n: Node, x: int, y: int)
    requires n.layer >= 2 && In(x, y, n.layer)
    requires forall i: BranchIdx, j: BranchIdx, r: Path ::
      j != Opposite(i) ==> PathCell(n, Step(i, Step(j, r))) == DEFAULT
    requires var g := Len(n.layer - 2); !In(x - g, y - g, n.layer - 1)
    ensures CellAt(n, x, y) == DEFAULT
  {
    var k := n.layer - 2;
    CellAtTwoSteps(n, x, y, k);
    CentreIff(x, y, k);
  }

  /** Every two-step path away from the centre, as `OuterPathCell` says. */
  lemma {:induction false} OuterPaths(n: Node)
    requires Valid(n) && n.layer >= 2
    requires Pop(InnerNode(n)) == Pop(n)
    ensures forall i: BranchIdx, j: BranchIdx, r: Path ::
      j != Opposite(i) ==> PathCell(n, Step(i, Step(j, r))) == DEFAULT
  {
    forall i: BranchIdx, j: BranchIdx, r: Path | j != Opposite(i)
      ensures PathCell(n, Step(i, Step(j, r))) == DEFAULT
    {
      OuterPathCell(n, i, j, r);
    }
  }

  /** When the inner node has the whole population, every cell of the node
      outside the inner node is default. */
  lemma {:induction false} InnerHoldsAll(n: Node, x: int, y: int)
    requires Valid(n) && n.layer >= 2 && In(x, y, n.layer)
    requires Pop(InnerNode(n)) == Pop(n)
    requires var g := Len(n.layer - 2); !In(x - g, y - g, n.layer - 1)
    ensures CellAt(n, x, y) == DEFAULT
  {
    OuterPaths(n);
    OuterCellAt(n, x, y);
  }

  /** Every cell of an empty node, by position, is default. */
  lemma {:induction false} EmptyNodeCellAt(layer: nat, x: int, y: int)
    requires layer >= 1
    ensures CellAt(EmptyNode(layer), x, y) == DEFAULT
  {
    EmptyNodeCell(layer, PathOf(x, y, layer));
  }

  /** A cell of a node above layer 1, read in the branch that holds it. */
  lemma {:induction false} CellAtBranch(n: Node, x: int, y: int)
    requires Valid(n) && n.layer >= 2
    ensures var h := Len(n.layer - 1); var i := BranchIndex(x, y, h);
      n.Br(i).Child? && CellAt(n, x, y) == CellAt(n.Br(i).node, x - OriginX(i, h), y - OriginY(i, h))
  {
    var h := Len(n.layer - 1);
    var i := BranchIndex(x, y, h);
    BranchFacts(n, i);
    PathOfUnfold(x, y, n.layer - 1, h);
    var r := PathOf(x - OriginX(i, h), y - OriginY(i, h), n.layer - 1);
    assert PathOf(x, y, n.layer) == Step(i, r);
    assert PathCell(n, Step(i, r)) == PathCell(n.Br(i).node, r);
  }

  /** A cell of a layer-1 node is the state of the branch that holds it. */
  lemma {:induction false} CellAtLeaf(n: Node, x: int, y: int)
    requires Valid(n) && n.layer == 1
    ensures var i := BranchIndex(x, y, 1); n.Br(i).Leaf? && CellAt(n, x, y) == n.Br(i).state
  {
    var i := BranchIndex(x, y, 1);
    BranchFacts(n, i);
    PathOfUnfold(x, y, 0, 1);
    var r := PathOf(x - OriginX(i, 1), y - OriginY(i, 1), 0);
    assert PathOf(x, y, n.layer) == Step(i, r);
    assert PathCell(n, Step(i, r)) == BranchPathCell(n.Br(i), r);
  }

  /** Cells determine nodes: two valid nodes of one layer that agree on every
      cell are the same node, which is what lets the hash-consing cache hand
      out one node per pattern. */
  lemma {:induction false} CellsDetermineNode(a: Node, b: Node)
    requires Valid(a) && Valid(b) && a.layer == b.layer
    requires forall x: int, y: int :: In(x, y, a.layer) ==> CellAt(a, x, y) == CellAt(b, x, y)
    ensures a == b
    decreases a.layer
  {
    var h := Len(a.layer - 1);
    LenDouble(a.layer);
    forall i: BranchIdx
      ensures a.Br(i) == b.Br(i)
    {
      var ox, oy := OriginX(i, h), OriginY(i, h);
      BranchFacts(a, i);
      BranchFacts(b, i);
      if a.layer == 1 {
        assert In(ox, oy, a.layer) && BranchIndex(ox, oy, h) == i;
        CellAtLeaf(a, ox, oy);
        CellAtLeaf(b, ox, oy);
      } else {
        forall u: int, v: int | In(u, v, a.layer - 1)
          ensures CellAt(a.Br(i).node, u, v) == CellAt(b.Br(i).node, u, v)
        {
          assert In(u + ox, v + oy, a.layer) && BranchIndex(u + ox, v + oy, h) == i;
          CellAtBranch(a, u + ox, v + oy);
          CellAtBranch(b, u + ox, v + oy);
        }
        CellsDetermineNode(a.Br(i).node, b.Br(i).node);
      }
    }
    assert a.b0 == b.b0 && a.b1 == b.b1 && a.b2 == b.b2 && a.b3 == b.b3 by {
      assert a.Br(0) == b.Br(0) && a.Br(1) == b.Br(1) && a.Br(2) == b.Br(2) && a.Br(3) == b.Br(3);
    }
  }
}
