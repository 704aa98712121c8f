# NDCell core, modelled in Dafny

NDCell is a cellular-automaton simulator built on HashLife. This project models
its core in Dafny and proves facts about that model. There are seven parts:

- **The ND-tree handle** (`src/automaton/space/ndtree/mod.rs`). A root node plus
  the global position of its lowest corner. The handle is grown (`expand`,
  `expand_to`), shrunk (`shrink`), moved (`recenter`) and edited (`set_cell`)
  in place. The model fixes D = 2, so the tree is a quadtree, and it works on
  values of the tree's nodes (`quadnode.dfy`, `ndtree.dfy`).
- **The HashLife driver** (`core/src/sim/simulation.rs`). It holds:
  - the minimum simulation layer of a rule;
  - the expansion done before a step;
  - the memoised recursion `advance_inner_node`, which advances the inner node
    of a node by a number of generations (`simulation.dfy`).
- **The language's types** (`lang/src/types.rs`). Their names, sizes and type
  errors (`langtypes.dfy`).
- **The JIT compiler's helpers** (`lang/src/compiler/mod.rs`). On values rather
  than on LLVM instructions (`compiler.dfy`), these are:
  - intrinsic type names and the intrinsic table;
  - conditionals and conversion to a boolean;
  - the division and bit-shift guards;
  - vector casts, the minimum integer and return codes;
  - the split of an extern function's variables into in/out and stack
    variables.
- **Cube faces** (`ui/src/face.rs`). Normals, plane axes, and flattening a
  cuboid onto a face (`face.dfy`).
- **The texture size cache** (`ui/src/gridview/render/textures.rs`). Its
  grow-to-a-power-of-two policy (`textures.dfy`).
- **The 2D overlay helpers** (`ui/src/gridview/render/grid2d.rs`). Clipping to
  the visible render cells, solid and gradient borders, rectangle outlines,
  and mouse-target IDs (`grid2d.dfy`).

`numbers.dfy` holds the shared arithmetic:
- powers of two, `next_power_of_two`, `BigInt::bits`;
- decimal rendering, `Dec`, proved injective by a round trip.

`wrappers.dfy` holds `Option` and `Result`.

### Conventions

- **Tree.** A node of layer L covers 2^L cells per axis. Branch index bit 0
  selects the upper half of X and bit 1 the upper half of Y. Structural
  equality of node values stands in for the hash-consing cache. Cell states
  are naturals with default 0.
- **Simulation.** The rule is given by its radius together with `leafStep`. The
  source leaves the base case at the minimum layer as `todo!`, so `leafStep`
  is whatever fills it; the model knows only the shape of its result.
- **Memo.** The corrected memo is keyed by (node, generations); see Findings.
- **Compiler.** A 64-bit LLVM integer is its bit pattern, a natural below 2^64.
  `ToSigned` reads it as two's complement.

## Model

| member | source | states |
|---|---|---|
| QuadNode.OppositeIsXor | src/automaton/space/ndtree/mod.rs:101-103 | the opposite branch index is the index XOR the branch bit mask, and taking it twice gives back the index |
| QuadNode.ExpandNodeValid | src/automaton/space/ndtree/mod.rs:94-115 | the expanded root is a valid node one layer up |
| QuadNode.ExpandNodePop | src/automaton/space/ndtree/mod.rs:104-115 | expansion adds only empty branches, so the population is unchanged |
| QuadNode.ExpandNodeCell | src/automaton/space/ndtree/mod.rs:85-115 | the expanded node holds the old cells shifted by a quarter of its length, and default cells elsewhere |
| QuadNode.InnerNodeValid | src/automaton/space/ndtree/mod.rs:138 | the inner node is a valid node one layer down |
| QuadNode.InnerNodeCell | src/automaton/space/ndtree/mod.rs:138 | the inner node shows the node's cells offset by a quarter of the node's length |
| QuadNode.InnerHoldsAll | src/automaton/space/ndtree/mod.rs:138-146 | when the inner node has the node's whole population, every cell outside it is default |
| QuadNode.SetCellAtSpec | src/automaton/space/ndtree/mod.rs:158-165 | after writing s at (x, y), that cell holds s and every other cell is unchanged |
| QuadNode.SetCellAtPop | src/automaton/space/ndtree/mod.rs:158-165 | a write changes the population by the change in liveness of that one cell |
| QuadNode.EmptyNodeCellAt | src/automaton/space/ndtree/mod.rs:61-62 | every cell of an empty node is default |
| QuadNode.EmptyNodePop | src/automaton/space/ndtree/mod.rs:61-62 | an empty node has population 0 |
| QuadNode.ZeroPopNodeIsEmpty | core/src/sim/simulation.rs:132-145 | a valid node with population 0 is the empty node of its layer |
| Tree.Slice.GetCell | src/automaton/space/ndtree/mod.rs:153-156 | a cell is found exactly when the position lies in the slice's rect |
| Tree.CellOf | src/automaton/space/ndtree/mod.rs:154-156 | outside the rect a cell reads as the default state |
| Tree.NewSliceSpec | src/automaton/space/ndtree/mod.rs:58-68 | a new tree is a valid empty layer-1 root covering exactly [-1, 0] on each axis, with every cell default |
| Tree.CenteredSlice | src/automaton/space/ndtree/mod.rs:78-83 | with a new root, the centre of the rect stays where it was |
| Tree.ExpandSliceRect | src/automaton/space/ndtree/mod.rs:85-117 | the expanded rect extends the old by half the old length on every side, so it contains the old rect |
| Tree.ExpandSliceCell | src/automaton/space/ndtree/mod.rs:85-117 | expansion keeps every cell of the tree, inside and outside the rect |
| Tree.ExpandSliceValidPop | src/automaton/space/ndtree/mod.rs:92-117 | expansion keeps the root valid and the population unchanged |
| Tree.ExpandTimesSpec | src/automaton/space/ndtree/mod.rs:118-129 | any number of expansions keeps validity, the population and every cell |
| Tree.ExpandSliceDistance | src/automaton/space/ndtree/mod.rs:121-129 | each expansion brings a position outside the rect strictly closer, so `expand_to` ends |
| Tree.ExpandTimesCovers | src/automaton/space/ndtree/mod.rs:121-129 | enough expansions cover any position |
| Tree.ShrinkOffset | src/automaton/space/ndtree/mod.rs:138-142 | re-centring on the inner node moves the offset up by a quarter of the old length |
| Tree.ShrinkStepCell | src/automaton/space/ndtree/mod.rs:138-143 | a shrinking step that keeps the population keeps every cell and narrows the rect |
| Tree.ShrunkSpec | src/automaton/space/ndtree/mod.rs:130-147 | shrinking keeps validity, the population and every cell, and never widens the rect; it stops at layer 1 or where the inner node would lose cells |
| Tree.RecenteredCell | src/automaton/space/ndtree/mod.rs:148-151 | after recentring on p, the cell formerly at q is found at q - p |
| Tree.WriteCellSpec | src/automaton/space/ndtree/mod.rs:157-165 | a write inside the rect changes that one cell, keeps validity, and changes the population by that cell's liveness |
| Tree.NdTree.constructor | src/automaton/space/ndtree/mod.rs:60-68 | the new handle holds the new slice |
| Tree.NdTree.SetRoot | src/automaton/space/ndtree/mod.rs:75-77 | only the root is replaced |
| Tree.NdTree.SetRootCentered | src/automaton/space/ndtree/mod.rs:79-83 | the root is replaced and the offset moves by half the old length less half the new |
| Tree.NdTree.Expand | src/automaton/space/ndtree/mod.rs:92-117 | the handle holds the expanded slice, stays valid, and keeps the population and every cell |
| Tree.NdTree.ExpandTo | src/automaton/space/ndtree/mod.rs:121-129 | expands exactly until the position is covered: the count is the least number of expansions that covers it, and every cell is kept |
| Tree.NdTree.Shrink | src/automaton/space/ndtree/mod.rs:133-147 | the handle holds the shrunk slice; the count is the number of layers removed; population and cells are kept |
| Tree.NdTree.Recenter | src/automaton/space/ndtree/mod.rs:149-151 | the offset moves by -p |
| Tree.NdTree.GetCell | src/automaton/space/ndtree/mod.rs:154-156 | the cell of the slice, or the default outside it |
| Tree.NdTree.SetCell | src/automaton/space/ndtree/mod.rs:158-165 | the cell holds the new state, every other cell is unchanged, and the population changes by that cell's liveness |
| Simulate.MinLayerSpec | core/src/sim/simulation.rs:37-49 | the minimum layer is at least 2, and it is the least such layer whose quarter length reaches the radius |
| Simulate.Simulation.constructor | core/src/sim/simulation.rs:37-49 | the loop stops at the least layer from 2 up whose quarter length reaches the radius; the memo starts empty |
| Simulate.Halves | core/src/sim/simulation.rs:172-179 | the two halves of t sum to t and differ by at most one |
| Simulate.HalvesInReach | core/src/sim/simulation.rs:172-179 | both halves of the generations are in reach of a node one layer down |
| Simulate.JoinValid | core/src/sim/simulation.rs:240-242 | joining four valid nodes of one layer gives a valid node one layer up |
| Simulate.OverlapsValid | core/src/sim/simulation.rs:192-215 | the nine overlapping nodes built from the 4 x 4 grandchildren are valid and one layer down |
| Simulate.JoinedValid | core/src/sim/simulation.rs:222-233 | the four nodes joined from the 3 x 3 results are valid and one layer up from them |
| Simulate.Advance | core/src/sim/simulation.rs:111-243 | advancing a node in reach gives a valid node one layer down |
| Simulate.Split | core/src/sim/simulation.rs:171-243 | the overlap split gives a valid node one layer down |
| Simulate.JoinCell | core/src/sim/simulation.rs:240-242 | cell (qx h + rx, qy h + ry) of a join of four nodes of length h is cell (rx, ry) of node qx + 2 qy |
| Simulate.BranchCell | core/src/sim/simulation.rs:192-199 | cell (qx h + rx, qy h + ry) of a node is cell (rx, ry) of its branch qx + 2 qy |
| Simulate.GrandCell | core/src/sim/simulation.rs:192-199 | grandchild (gx, gy) of the 4 x 4 grid holds the node's cells from (gx q, gy q) on, q a quarter of the node's length |
| Simulate.OverlapCell | core/src/sim/simulation.rs:201-215 | overlap (x, y) of the 3 x 3 grid holds the node's cells from (x q, y q) on |
| Simulate.OverlapsAt | core/src/sim/simulation.rs:203-215 | the nine overlaps are stored X fastest: overlap (x, y) is entry x + 3 y |
| Simulate.JoinedAt | core/src/sim/simulation.rs:222-233 | joined node (x, y) of the 2 x 2 grid is entry x + 2 y |
| Simulate.JoinedCell | core/src/sim/simulation.rs:222-233 | cell (qx h + rx, qy h + ry) of joined node (x, y) is cell (rx, ry) of result (x + qx, y + qy) of the 3 x 3 grid |
| Simulate.InnerOverlapCell | core/src/sim/simulation.rs:217-220 | when an overlap is reduced to its inner node, its cells are the node's cells a further eighth of its length in |
| Simulate.InnerJoinedCell | core/src/sim/simulation.rs:222-238 | when both rounds of advances return inner nodes, result (x, y) of the 2 x 2 grid holds the node's cells from (x q + q, y q + q) on |
| Simulate.SplitCell | core/src/sim/simulation.rs:240-242 | then each cell of the joined result is the node's cell a quarter of its length in |
| Simulate.SplitReassemblesInner | core/src/sim/simulation.rs:192-242 | then the joined result is exactly the node's inner node: the 4 x 4, 3 x 3 and 2 x 2 grids line up |
| Simulate.AdvanceStill | core/src/sim/simulation.rs:92-109 | under a base case that leaves every node as it is, advancing any node by any number of generations in reach gives its inner node |
| Simulate.SplitStill | core/src/sim/simulation.rs:171-243 | under that base case the overlap split gives the node's inner node |
| Simulate.OverlapsStill | core/src/sim/simulation.rs:217-220 | under that base case the nine advances give the overlaps' inner nodes |
| Simulate.JoinedStill | core/src/sim/simulation.rs:235-238 | under that base case the four advances give the joined nodes' inner nodes |
| Simulate.FrozenShape | core/src/sim/simulation.rs:92-109 | such a base case exists and returns a valid node one layer down |
| Simulate.EmptyInner | core/src/sim/simulation.rs:132-145 | the inner node of the empty node is the empty node one layer down |
| Simulate.AdvanceAll | core/src/sim/simulation.rs:219-220 | the map over an array of nodes keeps its length and advances each node |
| Simulate.AdvanceZero | core/src/sim/simulation.rs:128-131 | zero generations give the centred inner node, whose cells are the node's cells offset by a quarter of its length |
| Simulate.AdvanceEmpty | core/src/sim/simulation.rs:132-145 | an empty node advances to the empty node one layer down |
| Simulate.AdvanceAtMinLayer | core/src/sim/simulation.rs:146-164 | at the minimum layer at most one generation is in reach, and a live node there goes to the base case |
| Simulate.AdvanceAsWritten | core/src/sim/simulation.rs:123-126 | the memo as written returns whatever is stored for the node, whatever the generations |
| Simulate.AsWrittenIgnoresGenerations | core/src/sim/simulation.rs:123-126 | with the memo as written, a node advanced by 0 generations and then by 1 returns the 0-generation result, unlike the recursion |
| Simulate.Simulation.AdvanceInnerNode | core/src/sim/simulation.rs:111-248 | the result is what the recursion computes for (node, generations), and it is stored under that key |
| Simulate.Simulation.Compute | core/src/sim/simulation.rs:128-243 | the cases after the memo lookup compute the recursion |
| Simulate.Simulation.SplitNode | core/src/sim/simulation.rs:171-243 | the overlap split through the memo computes `Split` |
| Simulate.Simulation.AdvanceEach | core/src/sim/simulation.rs:219-220 | the map through the memo computes `AdvanceAll` |
| Simulate.ExpansionDistanceClosed | core/src/sim/simulation.rs:68-72 | after j expansions of a root of layer l0 the accumulated expansion is 2^(l0 - 1 + j) - 2^(l0 - 1) |
| Simulate.ExpansionGrows | core/src/sim/simulation.rs:70-71 | each expansion adds a quarter of the new root's length, at least one cell |
| Simulate.ExpansionsNeeded | core/src/sim/simulation.rs:69-72 | the least number of expansions from j on whose accumulated expansion reaches the bound |
| Simulate.StepExpansionsLeast | core/src/sim/simulation.rs:62-79 | the number of expansions is one more than the least j with 2^(l0 - 1 + j) - 2^(l0 - 1) reaching 2^(log2 of the radius + bits of the step size) |
| Simulate.ExpansionLayer | core/src/sim/simulation.rs:73-79 | once the expansion reaches 2^e, the root is at least two layers above e |
| Simulate.ExpandForStep | core/src/sim/simulation.rs:62-79 | the tree is expanded exactly `StepExpansions` times, and far enough that the root's layer covers radius and step |
| Simulate.StepInReach | core/src/sim/simulation.rs:62-79 | such a root has the whole step in reach, above the minimum layer |
| Simulate.Simulation.Step | core/src/sim/simulation.rs:52-90 | the tree becomes `StepExpansions` expansions of the old tree, with the root advanced by the step size, set as the root, then shrunk |
| LangTypes.NamesInjective | lang/src/types.rs:41-57 | the Debug and Display renderings each tell all types apart, and they differ for every type but the cell state |
| LangTypes.HasRuntimeRepresentation | lang/src/types.rs:62-66 | every type has a runtime representation |
| LangTypes.SizeOf | lang/src/types.rs:69-76 | a size exists iff the type has a runtime representation |
| LangTypes.SizeOfMatchesWidth | lang/src/types.rs:69-76 | the size in bytes holds exactly the type's bits: 64 per integer or lane, 8 for a cell state |
| LangTypes.SizeOfVectorMonotone | lang/src/types.rs:69-76 | a longer vector never takes less room |
| LangTypes.SizeOfBounded | lang/src/types.rs:16-76 | a type the language allows, with vectors of 1 to `MAX_VECTOR_LEN` lanes, takes from 1 byte up to the size of the longest vector |
| LangTypes.DefaultTypeSpec | lang/src/types.rs:36-40 | the default type is the integer type, allowed and 8 bytes long |
| LangTypes.ExpectEq | lang/src/types.rs:86-93 | succeeds iff the types are equal; the error is a type error with the span, expecting `expected` and having got the type |
| LangTypes.ExpectIntOrVec | lang/src/types.rs:94-105 | succeeds iff integer or vector; the error carries the span, the text "integer or vector" and the type got |
| LangTypes.ExpectIntOrVecAsEq | lang/src/types.rs:86-105 | the two checks accept the same types |
| Jit.ToSigned | lang/src/compiler/mod.rs:774-781 | the two's-complement reading is a 64-bit signed value, negative iff the top bit is set |
| Jit.ToSignedInjective | lang/src/compiler/mod.rs:774-781 | the reading loses nothing |
| Jit.ConstInt | lang/src/compiler/mod.rs:774-777 | a sign-extended constant reads back as its value |
| Jit.ConstUintSigned | lang/src/compiler/mod.rs:774-781 | a zero-extended constant is the sign-extended constant of its two's-complement reading, and the two agree below 2^63 |
| Jit.MinIntValue | lang/src/compiler/mod.rs:767-772 | 1 shifted left by 63 is the least signed 64-bit value |
| Jit.ReduceOr | lang/src/compiler/mod.rs:731-765 | the or-reduction of flags is true iff some lane is true |
| Jit.OrReduce | lang/src/compiler/mod.rs:670-686 | the or-reduction of integer lanes is zero iff every lane is zero |
| Jit.ConvertToBool | lang/src/compiler/mod.rs:668-686 | the boolean is 1 iff some component is nonzero and 0 otherwise |
| Jit.ConditionalOnBool | lang/src/compiler/mod.rs:670-686 | branching on a converted value takes the true block iff the value is truthy |
| Jit.SwitchSpec | lang/src/compiler/mod.rs:384-390 | a switch goes to the block of the first matching case, or to the default when none matches |
| Jit.ConditionalTruthiness | lang/src/compiler/mod.rs:371-408 | at every width, a nonzero condition takes the true block and zero the false block |
| Jit.VectorCast | lang/src/compiler/mod.rs:687-728 | fails iff the value is a cell state; otherwise `len` lanes: the integer repeated, or the vector cut or padded with zeros |
| Jit.Splat | lang/src/compiler/mod.rs:697 | `len` lanes, all equal to the integer |
| Jit.VectorCastIdempotent | lang/src/compiler/mod.rs:697-698 | casting a vector to its own length returns it, and casting twice is casting once |
| Jit.BuildVectorCast | lang/src/compiler/mod.rs:690-728 | inserting the lanes one at a time builds exactly the cast |
| Jit.QuotientInRange | lang/src/compiler/mod.rs:583-600 | a signed 64-bit quotient is in range except for MIN / -1 |
| Jit.VecDivCheckSpec | lang/src/compiler/mod.rs:530-613 | the vector guard: divide-by-zero iff some divisor lane is 0; else overflow iff some lane is MIN / -1; else safe, and then every lane's quotient fits |
| Jit.IntDivCheckSpec | lang/src/compiler/mod.rs:506-529 | the integer guard is the one-lane vector guard: divide-by-zero iff the divisor is 0, overflow iff MIN / -1, safe iff the quotient fits |
| Jit.IntBitshiftCheckSpec | lang/src/compiler/mod.rs:615-629 | a scalar shift passes iff the amount is 0 to 63; a negative amount is a huge unsigned one |
| Jit.VecBitshiftCheckAsWritten | lang/src/compiler/mod.rs:630-666 | as written, a vector shift passes iff some lane is in range |
| Jit.VecBitshiftCheckAcceptsOutOfRange | lang/src/compiler/mod.rs:630-666 | as written, the vector [1, 64] passes while the scalar 64 fails |
| Jit.VecBitshiftCheckCorrectedSpec | lang/src/compiler/mod.rs:646-666 | the corrected vector check passes iff every lane passes the scalar check |
| Jit.IntrinsicTypeName | lang/src/compiler/mod.rs:67-82 | a name exists iff the type is an integer or a vector of nameable elements, and it starts with 'i' or 'v' |
| Jit.IntrinsicTypeNameRoundTrip | lang/src/compiler/mod.rs:67-82 | every name parses back to its type |
| Jit.IntrinsicTypeNameInjective | lang/src/compiler/mod.rs:67-82 | distinct types have distinct names |
| Jit.IntrinsicTypeNameExamples | lang/src/compiler/mod.rs:67-68 | a 32-bit integer is "i32" and a vector of three 64-bit integers is "v3i64" |
| Jit.GetIntrinsicSpec | lang/src/compiler/mod.rs:335-354 | succeeds iff the name is free or already has that type; a free name is added; a clash is an internal error with no span; the table is otherwise unchanged |
| Jit.GetIntrinsicIdempotent | lang/src/compiler/mod.rs:335-354 | asking again gives the same answer and leaves the table alone |
| Jit.Module.GetLlvmIntrinsic | lang/src/compiler/mod.rs:335-354 | the answer and the new table are those of `GetIntrinsic` |
| Jit.ReturnCodes | lang/src/compiler/mod.rs:410-429 | success is all ones in 32 bits; an error index is truncated to 32 bits; the internal error is 0 and differs from success |
| Jit.NonArgsMembers | lang/src/compiler/mod.rs:170-178 | the non-arguments are exactly the variables that are not arguments |
| Jit.PartitionNames | lang/src/compiler/mod.rs:168-178 | in/out names are the arguments, plus the non-arguments in debug mode; stack names are the non-arguments otherwise |
| Jit.ReleasePartition | lang/src/compiler/mod.rs:50-178 | with the source's debug switch off, the in/out list holds just the arguments and every other variable goes on the stack |
| Jit.InoutVariables | lang/src/compiler/mod.rs:229-254 | each in/out name is in the map with its type and argument flag, stored in the struct field at its position |
| Jit.AddAllocaVariables | lang/src/compiler/mod.rs:255-261 | each stack name is added with its type, marked as not an argument |
| Jit.BeginExternFunction | lang/src/compiler/mod.rs:159-264 | every variable is in the map with its type and argument flag; it is on the stack iff it is a non-argument outside debug mode; field k of the in/out struct holds the k-th in/out name |
| Faces.FacesComplete | ui/src/face.rs:6-13 | `FACES` lists each of the six faces exactly once |
| Faces.DisplaySpec | ui/src/face.rs:25-36 | the rendering is the sign then the normal axis, so it tells faces apart |
| Faces.Positive | ui/src/face.rs:39-48 | defined exactly for X, Y and Z; the face has that normal axis and sign Plus |
| Faces.Negative | ui/src/face.rs:49-58 | defined exactly for X, Y and Z; the face has that normal axis and sign Minus |
| Faces.FaceFromAxisAndSign | ui/src/face.rs:61-76 | a face's sign is never NoSign, and its normal axis and sign give it back |
| Faces.PlaneAxesSpec | ui/src/face.rs:77-88 | the plane axes are two distinct axes other than the normal axis, and the two faces of one axis list them in opposite orders |
| Faces.NormalSpec | ui/src/face.rs:90-102 | the only nonzero component of the normal is at the normal axis, +1 for Plus faces and -1 for Minus; the plane axes, crossed, give the normal |
| Faces.Span | ui/src/face.rs:120 | the span of two corners is a valid cuboid holding both, and every cuboid holding both contains it |
| Faces.OfSpec | ui/src/face.rs:110-121 | flattening keeps both plane axes and puts both corners at the max (Plus) or min (Minus) on the normal axis; flattening twice is flattening once |
| Textures.NextPowerOfTwo | ui/src/gridview/render/textures.rs:34-35 | the result wraps to 0 exactly past 2^31 |
| Textures.NextPowerOfTwoSpec | ui/src/gridview/render/textures.rs:34-35 | without wrap, the result is the least power of two at least n |
| Textures.MinSizeSpec | ui/src/gridview/render/textures.rs:29-44 | the settled size covers the request; a covering current size is kept; otherwise both sides become the next powers of two |
| Textures.MinSizeIdempotent | ui/src/gridview/render/textures.rs:29-44 | asking again for the same size or less changes nothing |
| Textures.ReallocatesIffNotCovered | ui/src/gridview/render/textures.rs:36-51 | the size changes, and a texture is allocated, exactly when the current size does not cover the request |
| Textures.CachedTexture.constructor | ui/src/gridview/render/textures.rs:23-27 | no texture, no size |
| Textures.CachedTexture.SetSize | ui/src/gridview/render/textures.rs:46-52 | allocates iff the size differs from the current one; the size is then the requested one |
| Textures.CachedTexture.AtMinSize | ui/src/gridview/render/textures.rs:29-45 | the new size is `MinSize` of the old size and the request, allocating iff it changed |
| Textures.CachedTexture.Reset | ui/src/gridview/render/textures.rs:53-55 | back to no texture and no size |
| Grid2D.Span | ui/src/gridview/render/grid2d.rs:549-554 | the span is the least rectangle holding both corners |
| Grid2D.DivFloor | ui/src/gridview/render/grid2d.rs:535-536 | the quotient rounds down |
| Grid2D.ClipCellPos | ui/src/gridview/render/grid2d.rs:534-545 | the clipped render cell lies within the visible cells widened by 2 |
| Grid2D.ClipCellPosSpec | ui/src/gridview/render/grid2d.rs:534-545 | a render cell within the band is unchanged, and a component outside it moves to the nearer edge |
| Grid2D.ClipCellPosMonotone | ui/src/gridview/render/grid2d.rs:534-545 | clipping keeps the order of cells |
| Grid2D.ClipCellRectSpec | ui/src/gridview/render/grid2d.rs:549-554 | a clipped rectangle's corners are the clipped corners |
| Grid2D.SolidRect | ui/src/gridview/render/grid2d.rs:944-953 | a filled rectangle in one colour whose half-open extent holds exactly the rectangle's cells |
| Grid2D.SolidBorderRectsSpec | ui/src/gridview/render/grid2d.rs:668-716 | one line per column, all before one line per row; each spans the visible cells and one past along its axis, endpoints included |
| Grid2D.SolidBorders | ui/src/gridview/render/grid2d.rs:668-716 | the loops build exactly those lines |
| Grid2D.GradientRects | ui/src/gridview/render/grid2d.rs:720-765 | 0 rectangles for no stops, 2n - 1 for n stops |
| Grid2D.GradientRectsSnoc | ui/src/gridview/render/grid2d.rs:742-763 | each stop adds the line from the previous stop, if any, and then its own square |
| Grid2D.GradientBorder | ui/src/gridview/render/grid2d.rs:720-765 | the loop with its previous stop builds the gradient rectangles: squares at even positions, lines between neighbours at odd ones |
| Grid2D.GradientRectsOnLine | ui/src/gridview/render/grid2d.rs:720-765 | stops on one column or row give rectangles on that column or row |
| Grid2D.KeepBright | ui/src/gridview/render/grid2d.rs:605-614 | the filter keeps exactly the bright stops |
| Grid2D.KeepBrightAppend | ui/src/gridview/render/grid2d.rs:605-614 | the filter keeps order: filtering a concatenation filters each part, and a single stop is kept iff it is bright |
| Grid2D.StopsSpec | ui/src/gridview/render/grid2d.rs:587-615 | with crosshairs there are six stops; without, and with a faded colour unlike the bright one, the two on the rectangle |
| Grid2D.OutlineRectsSpec | ui/src/gridview/render/grid2d.rs:559-663 | the number of rectangles with and without crosshairs; a requested fill comes last, from the rectangle's first cell to the upper corner (one past its max iff a cell is over 1.5 pixels) |
| Grid2D.CellRectOutline | ui/src/gridview/render/grid2d.rs:559-663 | builds the gridlines under crosshairs, the two vertical and the two horizontal gradient borders, then the fill |
| Grid2D.QuadVerticesSpec | ui/src/gridview/render/grid2d.rs:845-863 | a quad is six vertices carrying its ID, reaching all four corners |
| Grid2D.Lookup | ui/src/gridview/render/grid2d.rs:208-210 | ID 0 names no target; ID i names target i - 1 when there is one |
| Grid2D.LookupAfterPush | ui/src/gridview/render/grid2d.rs:851-852 | the ID given to a new target (the new length) names it, and earlier IDs keep their targets |
| Grid2D.ToU32 | ui/src/gridview/render/grid2d.rs:205 | the conversion succeeds iff the value is above -1 and below 2^32, truncating toward zero |
| Grid2D.TargetUnderCursor | ui/src/gridview/render/grid2d.rs:201-211 | a target is found iff there is a cursor, both coordinates convert to `u32`, and the picker's ID at that pixel is from 1 to the number of targets; it is then target ID - 1 |
| Grid2D.MouseTargets.constructor | ui/src/gridview/render/grid2d.rs:69-72 | starts with no targets and no vertices |
| Grid2D.MouseTargets.AddTri | ui/src/gridview/render/grid2d.rs:864-879 | three vertices with the ID are appended iff the modifiers match |
| Grid2D.MouseTargets.AddQuad | ui/src/gridview/render/grid2d.rs:845-863 | the target is appended and its ID is the new length; exactly six vertices with that ID are added iff the modifiers match |

## Left out

- **The node cache, its garbage collection and parallelism.** The cache is
  stood in for by structural equality of node values. Garbage collection is a
  `TODO` in the source. Parallelism is not modelled.
- **Dimension.** The tree is modelled for D = 2 only.
- **Integer widths.** `isize` offsets and `BigInt` coordinates are unbounded
  integers.
- **Tree nodes.** `node.rs` and `cache.rs` of the tree are not part of this
  model. Their helpers are defined afresh in `quadnode.dfy`.
- **Leaf-level simulation.** The minimum-layer case of `advance_inner_node`
  (`core/src/sim/simulation.rs:146-164`) is `todo!` in the source. It is the
  `leafStep` parameter.
- **Multi-cell leaves.** The source's leaf nodes sit at `Layer::base`, which
  is not part of this model, and may hold several cells each. The case at
  `core/src/sim/simulation.rs:165-170` (also `todo!`) is for nodes whose
  children are such leaves. In the model every leaf is one cell at layer 0,
  so a node of layer 2 or more never has leaf children. That case cannot
  arise in the model and is not modelled. A node the source would send
  there goes to the overlap split instead.
- **Transition function.** The rule's transition function and its cell
  neighbourhoods are not modelled.
- **Re-centring in `step`.** `step` sets the advanced root with `set_root`,
  not `set_root_centered`, and the model does the same. So the model claims
  nothing about where the advanced pattern sits.
- Simulate.Advance: requires the generations to be in reach of the node's
  layer. The source asserts only the minimum layer, and relies on `step` for
  the rest.
- Simulate.Simulation.Step: requires a positive step size, where the source
  panics. It states the outcome through `Stepped`, not cell by cell.
- **LLVM.** Instruction building, JIT execution, basic blocks and terminators
  are left out. So are struct byte offsets (`offset_of_element`) and the
  function signature in `begin_extern_function`. The helpers are modelled on
  the values the instructions compute.
- Jit.VectorCast: the cell-state error is modelled without a span. The source
  raises it without one.
- Jit.BeginExternFunction: the iteration order of the variable `HashMap` is
  unspecified, so it is the parameter `varOrder`. The in/out struct's field
  order depends on that order.
- **Checked arithmetic.** `build_checked_int_arithmetic` and the
  experimental-intrinsic names of `build_reduce` are left out. Only the
  reductions' values are modelled.
- **Floating point.** These are left out:
  - `fract` in `at_min_size`;
  - `normal_fvec`;
  - the f32 colour arithmetic of the outline (dull and fill colours);
  - `TINY_OFFSET`;
  - `pixels_per_cell > 1.5`.

  They become parameters: the palette, `underZ` and `morePixelsThanCell`.
- **Cuboid coordinates.** Face cuboids have integer coordinates. The source's
  are `r64`, on which only comparisons and copies are made.
- **Textures.** The texture itself is its existence plus an allocation counter.
  `unwrap` and `make_fbo` are left out.
- Textures.NextPowerOfTwo: follows release builds, wrapping to 0 past 2^31.
  Debug builds panic there. The lemmas about covering need both sides to be
  at most 2^31.
- **Picker.** The picker readback of `render_mouse_targets` is a function
  parameter.
- Grid2D.LookupAfterPush: needs the target count below 2^32. `len as u32`
  truncates past that.
- **Rendering.** Drawing, vertex buffers, shaders and `CellOverlayRect::verts`
  are left out.
- Grid2D.CellRectOutline: the source loops over the two columns and the two
  rows. Both loops are unrolled here.

## Findings

| source | as written | input that shows it | evidently intended | confidence | as-written member | corrected member |
|---|---|---|---|---|---|---|
| core/src/sim/simulation.rs:123-126 | the result cached on a node is returned whatever number of generations is asked for | a live layer-2 node (four all-live layer-1 nodes), minimum layer 2, of a rule that kills every cell: advanced by 0 generations, then by 1, the second call returns the 0-generation inner node | a cached result answers only a request for the same number of generations | not executed | Simulate.AsWrittenIgnoresGenerations | Simulate.Simulation.AdvanceInnerNode |
| lang/src/compiler/mod.rs:656-664 | the vector bit-shift guard OR-reduces the per-lane "in range" flags, so it passes when any one lane is in range | shift amounts [1, 64]: lane 0 is in range, so the check passes, though the scalar check rejects 64 | every lane must be in range (AND-reduce) | not executed | Jit.VecBitshiftCheckAcceptsOutOfRange | Jit.VecBitshiftCheckCorrectedSpec |
