// The ND-tree handle for D = 2 (`NdTree` in src/automaton/space/ndtree/mod.rs):
// a root node together with the global position of its lowest corner, which
// the handle grows, shrinks, moves and edits in place.
module Tree {
  import opened Wrappers
  import opened QuadNode

  /** `NdTreeSlice`: a root node and the global position of its lowest corner.
      The slice covers the square rect [offset, offset + len) on both axes. */
  datatype Slice = Slice(root: Node, offsetX: int, offsetY: int)
  {
    /** `rect().contains(pos)`. */
    predicate Contains(x: int, y: int)
    {
      In(x - offsetX, y - offsetY, root.layer)
    }

    /** `NdTreeSlice::get_cell`: the cell at a global position, if the slice
        covers it. */
    function GetCell(x: int, y: int): (r: Option<State>)
      ensures r.Some? <==> Contains(x, y)
    {
      if Contains(x, y) then Some(CellAt(root, x - offsetX, y - offsetY)) else None
    }
  }

  /** `NdTree::get_cell`: the slice's cell, or the default state outside it. */
  function CellOf(s: Slice, x: int, y: int): (r: State)
    ensures !s.Contains(x, y) ==> r == DEFAULT
  {
    match s.GetCell(x, y)
    case Some(c) => c
    case None => DEFAULT
  }

  // ---------------------------------------------------------------------
  // A new tree

  /** The slice of `NdTree::new`: an empty layer-1 root at offset -1. */
  function NewSlice(): Slice
  {
    Slice(EmptyNode(1), -1, -1)
  }

  /** A new tree covers exactly [-1, 0] on each axis, has no live cell, and
      reads the default state everywhere. */
  lemma {:induction false} NewSliceSpec(x: int, y: int)
    ensures Valid(NewSlice().root) && NewSlice().root.layer == 1
    ensures NewSlice().Contains(x, y) <==> -1 <= x <= 0 && -1 <= y <= 0
    ensures Pop(NewSlice().root) == 0
    ensures CellOf(NewSlice(), x, y) == DEFAULT
  {
    EmptyNodeValid(1);
    EmptyNodePop(1);
    EmptyNodeCellAt(1, x + 1, y + 1);
    assert Len(1) == 2;
  }

  // ---------------------------------------------------------------------
  // Replacing the root

  /** `set_root_centered`: the offset moves by half the old length and back by
      half the new one. */
  function CenteredSlice(s: Slice, newRoot: Node): (r: Slice)
    ensures r.root == newRoot
    ensures r.offsetX + Len(newRoot.layer) / 2 == s.offsetX + Len(s.root.layer) / 2
    ensures r.offsetY + Len(newRoot.layer) / 2 == s.offsetY + Len(s.root.layer) / 2
  {
    Slice(newRoot,
          s.offsetX + Len(s.root.layer) / 2 - Len(newRoot.layer) / 2,
          s.offsetY + Len(s.root.layer) / 2 - Len(newRoot.layer) / 2)
  }

  // ---------------------------------------------------------------------
  // Expansion

  /** `expand`: the expanded root, with the offset moved down by a quarter of
      the new length. */
  function ExpandSlice(s: Slice): (r: Slice)
    requires s.root.layer >= 1
    ensures r.root.layer == s.root.layer + 1
  {
    var e := ExpandNode(s.root);
    Slice(e, s.offsetX - Len(e.layer) / 4, s.offsetY - Len(e.layer) / 4)
  }

  /** A quarter of the expanded root's length is half the old root's. */
  lemma {:induction false} ExpandQuarter(layer: nat)
    requires layer >= 1
    ensures Len(layer + 1) / 4 == Len(layer - 1) && Len(layer) == 2 * Len(layer - 1)
  {
    LenDouble(layer + 1);
    LenDouble(layer);
  }

  /** The expanded rect extends the old one by half its length on every side. */
  lemma {:induction false} ExpandSliceRect(s: Slice, x: int, y: int)
    requires s.root.layer >= 1
    ensures var d := Len(s.root.layer - 1);
      ExpandSlice(s).Contains(x, y) <==> (s.offsetX - d <= x < s.offsetX + 3 * d && s.offsetY - d <= y < s.offsetY + 3 * d)
    ensures s.Contains(x, y) ==> ExpandSlice(s).Contains(x, y)
  {
    ExpandQuarter(s.root.layer);
  }

  /** Expansion keeps every cell of the tree, inside and outside the rect. */
  lemma {:induction false} ExpandSliceCell(s: Slice, x: int, y: int)
    requires s.root.layer >= 1
    ensures CellOf(ExpandSlice(s), x, y) == CellOf(s, x, y)
  {
    var d := Len(s.root.layer - 1);
    ExpandQuarter(s.root.layer);
    ExpandSliceRect(s, x, y);
    var e := ExpandSlice(s);
    if e.Contains(x, y) {
      ExpandNodeCell(s.root, x - e.offsetX, y - e.offsetY);
      assert x - e.offsetX - d == x - s.offsetX && y - e.offsetY - d == y - s.offsetY;
    }
  }

  /** Expansion keeps the root valid and the population unchanged. */
  lemma {:induction false} ExpandSliceValidPop(s: Slice)
    requires Valid(s.root)
    ensures Valid(ExpandSlice(s).root) && Pop(ExpandSlice(s).root) == Pop(s.root)
  {
    ExpandNodeValid(s.root);
    ExpandNodePop(s.root);
  }

  /** k repeated expansions. */
  function ExpandTimes(s: Slice, k: nat): (r: Slice)
    requires s.root.layer >= 1
    ensures r.root.layer == s.root.layer + k
  {
    if k == 0 then s else ExpandSlice(ExpandTimes(s, k - 1))
  }

  /** Any number of expansions keeps validity, the population and every cell. */
  lemma {:induction false} ExpandTimesSpec(s: Slice, k: nat, x: int, y: int)
    requires Valid(s.root)
    ensures Valid(ExpandTimes(s, k).root)
    ensures Pop(ExpandTimes(s, k).root) == Pop(s.root)
    ensures CellOf(ExpandTimes(s, k), x, y) == CellOf(s, x, y)
  {
    if k > 0 {
      ExpandTimesSpec(s, k - 1, x, y);
      ExpandSliceValidPop(ExpandTimes(s, k - 1));
      ExpandSliceCell(ExpandTimes(s, k - 1), x, y);
    }
  }

  /** Distance of a coordinate from the half-open interval [lo, hi). */
  function Gap(x: int, lo: int, hi: int): nat
  {
    if x < lo then lo - x else if x >= hi then x - hi + 1 else 0
  }

  /** How far a position lies outside the slice's rect; the measure that makes
      `expand_to` terminate. */
  function Distance(s: Slice, x: int, y: int): (r: nat)
    ensures r == 0 <==> s.Contains(x, y)
  {
    var len := Len(s.root.layer);
    Gap(x, s.offsetX, s.offsetX + len) + Gap(y, s.offsetY, s.offsetY + len)
  }

  /** Each expansion brings a position outside the rect strictly closer. */
  lemma {:induction false} ExpandSliceDistance(s: Slice, x: int, y: int)
    requires s.root.layer >= 1 && !s.Contains(x, y)
    ensures Distance(ExpandSlice(s), x, y) < Distance(s, x, y)
  {
    ExpandQuarter(s.root.layer);
  }

  /** After enough expansions every position is covered. */
  lemma {:induction false} ExpandTimesCovers(s: Slice, x: int, y: int)
    requires s.root.layer >= 1
    ensures ExpandTimes(s, Distance(s, x, y)).Contains(x, y)
  {
    ExpandTimesDistance(s, x, y, Distance(s, x, y));
  }

  lemma {:induction false} ExpandTimesDistance(s: Slice, x: int, y: int, k: nat)
    requires s.root.layer >= 1
    ensures Distance(ExpandTimes(s, k), x, y) <= if Distance(s, x, y) >= k then Distance(s, x, y) - k else 0
  {
    if k > 0 {
      ExpandTimesDistance(s, x, y, k - 1);
      if !ExpandTimes(s, k - 1).Contains(x, y) {
        ExpandSliceDistance(ExpandTimes(s, k - 1), x, y);
      } else {
        ExpandSliceRect(ExpandTimes(s, k - 1), x, y);
      }
    }
  }

  // ---------------------------------------------------------------------
  // Shrinking

  /** `shrink`: replace the root by its inner node, re-centred, as long as
      that loses no live cell and the root is above layer 1. */
  function Shrunk(s: Slice): (r: Slice)
    requires Valid(s.root)
    ensures 1 <= r.root.layer <= s.root.layer
    decreases s.root.layer
  {
    if s.root.layer == 1 then s
    else
      var inner := InnerNode(s.root);
      if Pop(inner) == Pop(s.root) then
        InnerNodeValid(s.root);
        Shrunk(CenteredSlice(s, inner))
      else s
  }

  /** The re-centred inner node moves the offset up by a quarter of the old length. */
  lemma {:induction false} ShrinkOffset(s: Slice)
    requires Valid(s.root) && s.root.layer >= 2
    ensures var g := Len(s.root.layer - 2); var c := CenteredSlice(s, InnerNode(s.root));
      c.offsetX == s.offsetX + g && c.offsetY == s.offsetY + g
      && Len(s.root.layer) == 4 * g && Len(c.root.layer) == 2 * g
  {
    LenDouble(s.root.layer);
    LenDouble(s.root.layer - 1);
  }

  /** One shrinking step keeps every cell and narrows the rect. */
  lemma {:induction false} ShrinkStepCell(s: Slice, x: int, y: int)
    requires Valid(s.root) && s.root.layer >= 2
    requires Pop(InnerNode(s.root)) == Pop(s.root)
    ensures var c := CenteredSlice(s, InnerNode(s.root));
      CellOf(c, x, y) == CellOf(s, x, y) && (c.Contains(x, y) ==> s.Contains(x, y))
  {
    var g := Len(s.root.layer - 2);
    var c := CenteredSlice(s, InnerNode(s.root));
    ShrinkOffset(s);
    if c.Contains(x, y) {
      InnerNodeCell(s.root, x - c.offsetX, y - c.offsetY);
      assert x - c.offsetX + g == x - s.offsetX && y - c.offsetY + g == y - s.offsetY;
    } else if s.Contains(x, y) {
      assert !In(x - s.offsetX - g, y - s.offsetY - g, s.root.layer - 1);
      InnerHoldsAll(s.root, x - s.offsetX, y - s.offsetY);
    }
  }

  /** Shrinking keeps validity, the population and every cell, never widens the
      rect, and stops at layer 1 or at an inner node with a smaller population. */
  lemma {:induction false} ShrunkSpec(s: Slice, x: int, y: int)
    requires Valid(s.root)
    ensures Valid(Shrunk(s).root)
    ensures Pop(Shrunk(s).root) == Pop(s.root)
    ensures CellOf(Shrunk(s), x, y) == CellOf(s, x, y)
    ensures Shrunk(s).Contains(x, y) ==> s.Contains(x, y)
    ensures Shrunk(s).root.layer == 1 || Pop(InnerNode(Shrunk(s).root)) != Pop(Shrunk(s).root)
    decreases s.root.layer
  {
    if s.root.layer > 1 && Pop(InnerNode(s.root)) == Pop(s.root) {
      var c := CenteredSlice(s, InnerNode(s.root));
      InnerNodeValid(s.root);
      ShrinkStepCell(s, x, y);
      ShrunkSpec(c, x, y);
    }
  }

  // ---------------------------------------------------------------------
  // Moving and editing

  /** `recenter(p)`: the offset moves by -p. */
  function Recentered(s: Slice, px: int, py: int): Slice
  {
    s.(offsetX := s.offsetX - px, offsetY := s.offsetY - py)
  }

  /** After recentring on p, the cell formerly at q is found at q - p. */
  lemma {:induction false} RecenteredCell(s: Slice, px: int, py: int, x: int, y: int)
    ensures CellOf(Recentered(s, px, py), x - px, y - py) == CellOf(s, x, y)
    ensures Recentered(s, px, py).Contains(x - px, y - py) <==> s.Contains(x, y)
  {
  }

  /** The root after the write in `set_cell`, at the position relative to the offset. */
  function WriteCell(s: Slice, x: int, y: int, v: State): (r: Slice)
    ensures r.root.layer == s.root.layer && r.offsetX == s.offsetX && r.offsetY == s.offsetY
  {
    s.(root := SetCellAt(s.root, x - s.offsetX, y - s.offsetY, v))
  }

  /** A write inside the rect changes that one cell, keeps validity, and
      changes the population by the change in liveness of the cell. */
  lemma {:induction false} WriteCellSpec(s: Slice, x: int, y: int, v: State, u: int, w: int)
    requires Valid(s.root) && s.Contains(x, y)
    ensures Valid(WriteCell(s, x, y, v).root)
    ensures CellOf(WriteCell(s, x, y, v), u, w) == if (u, w) == (x, y) then v else CellOf(s, u, w)
    ensures Pop(WriteCell(s, x, y, v).root) + Indicator(CellOf(s, x, y)) == Pop(s.root) + Indicator(v)
  {
    SetPathCellValid(s.root, PathOf(x - s.offsetX, y - s.offsetY, s.root.layer), v);
    SetCellAtPop(s.root, x - s.offsetX, y - s.offsetY, v);
    WriteCellAt(s, x, y, v, u, w);
  }

  lemma {:induction false} WriteCellAt(s: Slice, x: int, y: int, v: State, u: int, w: int)
    requires Valid(s.root) && s.Contains(x, y)
    ensures CellOf(WriteCell(s, x, y, v), u, w) == if (u, w) == (x, y) then v else CellOf(s, u, w)
  {
    var r := WriteCell(s, x, y, v);
    if s.Contains(u, w) {
      SetCellAtSpec(s.root, x - s.offsetX, y - s.offsetY, v, u - s.offsetX, w - s.offsetY);
      assert CellOf(r, u, w) == CellAt(r.root, u - s.offsetX, w - s.offsetY);
      assert CellOf(s, u, w) == CellAt(s.root, u - s.offsetX, w - s.offsetY);
      assert (u - s.offsetX, w - s.offsetY) == (x - s.offsetX, y - s.offsetY) <==> (u, w) == (x, y);
    } else {
      assert !r.Contains(u, w);
    }
  }

  // ---------------------------------------------------------------------
  // The handle

  /** `NdTree`: the slice it holds is replaced in place by each operation.
      The node cache is not modelled: equal values stand for shared nodes. */
  class NdTree {
    var slice: Slice

    ghost predicate Valid()
      reads this
    {
      QuadNode.Valid(slice.root)
    }

    /** The population of the whole tree. */
    function Population(): nat
      reads this
    {
      Pop(slice.root)
    }

    /** `NdTree::new`. */
    constructor ()
      ensures Valid() && slice == NewSlice()
    {
      slice := Slice(EmptyNode(1), -1, -1);
      EmptyNodeValid(1);
    }

    /** `set_root`. */
    method SetRoot(newRoot: Node)
      modifies this
      ensures slice == old(slice).(root := newRoot)
    {
      slice := slice.(root := newRoot);
    }

    /** `set_root_centered`. */
    method SetRootCentered(newRoot: Node)
      modifies this
      ensures slice == CenteredSlice(old(slice), newRoot)
    {
      var ox := slice.offsetX + Len(slice.root.layer) / 2 - Len(newRoot.layer) / 2;
      var oy := slice.offsetY + Len(slice.root.layer) / 2 - Len(newRoot.layer) / 2;
      slice := slice.(offsetX := ox, offsetY := oy);
      SetRoot(newRoot);
    }

    /** `expand`. */
    method Expand()
      requires Valid()
      modifies this
      ensures Valid() && slice == ExpandSlice(old(slice))
      ensures Population() == old(Population())
      ensures forall x: int, y: int :: CellOf(slice, x, y) == CellOf(old(slice), x, y)
    {
      ExpandSliceValidPop(slice);
      forall x: int, y: int
        ensures CellOf(ExpandSlice(slice), x, y) == CellOf(slice, x, y)
      {
        ExpandSliceCell(slice, x, y);
      }
      var root := ExpandNode(slice.root);
      slice := slice.(root := root);
      slice := slice.(offsetX := slice.offsetX - Len(root.layer) / 4,
                      offsetY := slice.offsetY - Len(root.layer) / 4);
    }

    /** `expand_to`: expand until the position is covered; the count returned
        is the number of expansions, the least that covers the position. */
    method ExpandTo(x: int, y: int) returns (count: nat)
      requires Valid()
      modifies this
      ensures Valid() && slice.Contains(x, y)
      ensures slice == ExpandTimes(old(slice), count)
      ensures forall k: nat :: k < count ==> !ExpandTimes(old(slice), k).Contains(x, y)
      ensures Population() == old(Population())
      ensures forall u: int, w: int :: CellOf(slice, u, w) == CellOf(old(slice), u, w)
    {
      count := 0;
      while !slice.Contains(x, y)
        invariant Valid() && slice.root.layer >= 1
        invariant slice == ExpandTimes(old(slice), count)
        invariant forall k: nat :: k < count ==> !ExpandTimes(old(slice), k).Contains(x, y)
        invariant Population() == old(Population())
        invariant forall u: int, w: int :: CellOf(slice, u, w) == CellOf(old(slice), u, w)
        decreases Distance(slice, x, y)
      {
        ExpandSliceDistance(slice, x, y);
        Expand();
        count := count + 1;
      }
    }

    /** `shrink`: the number of times the root was halved. */
    method Shrink() returns (count: nat)
      requires Valid()
      modifies this
      ensures Valid() && slice == Shrunk(old(slice))
      ensures count == old(slice.root.layer) - slice.root.layer
      ensures Population() == old(Population())
      ensures forall u: int, w: int :: CellOf(slice, u, w) == CellOf(old(slice), u, w)
      decreases slice.root.layer
    {
      forall u: int, w: int
        ensures CellOf(Shrunk(slice), u, w) == CellOf(slice, u, w)
      {
        ShrunkSpec(slice, u, w);
      }
      ShrunkSpec(slice, 0, 0);
      if slice.root.layer == 1 {
        return 0;
      }
      var newNode := InnerNode(slice.root);
      if Pop(newNode) == Pop(slice.root) {
        InnerNodeValid(slice.root);
        SetRootCentered(newNode);
        var rest := Shrink();
        count := 1 + rest;
      } else {
        count := 0;
      }
    }

    /** `recenter`. */
    method Recenter(px: int, py: int)
      modifies this
      ensures slice == Recentered(old(slice), px, py)
    {
      slice := slice.(offsetX := slice.offsetX - px, offsetY := slice.offsetY - py);
    }

    /** `get_cell`. */
    method GetCell(x: int, y: int) returns (s: State)
      ensures s == CellOf(slice, x, y)
    {
      var c := slice.GetCell(x, y);
      s := match c case Some(v) => v case None => DEFAULT;
    }

    /** `set_cell`: expand until the position is covered, then write it. */
    method SetCell(x: int, y: int, v: State)
      requires Valid()
      modifies this
      ensures Valid()
      ensures CellOf(slice, x, y) == v
      ensures forall u: int, w: int :: (u, w) != (x, y) ==> CellOf(slice, u, w) == CellOf(old(slice), u, w)
      ensures Population() + Indicator(CellOf(old(slice), x, y)) == old(Population()) + Indicator(v)
    {
      var _ := ExpandTo(x, y);
      forall u: int, w: int
        ensures CellOf(WriteCell(slice, x, y, v), u, w) == if (u, w) == (x, y) then v else CellOf(slice, u, w)
      {
        WriteCellSpec(slice, x, y, v, u, w);
      }
      WriteCellSpec(slice, x, y, v, x, y);
      slice := slice.(root := SetCellAt(slice.root, x - slice.offsetX, y - slice.offsetY, v));
    }
  }
}
