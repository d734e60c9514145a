/** Compact-frontier append-only proofs over the duplicate-last tree: building, bagging, appending, checking,
    and the proof that acceptance means exactly "the old leaf list is a proper prefix of the new one". */
module Frontier {
  import opened Prelude
  import opened Bits
  import opened MerkleTree
  import opened BlockShapes

  datatype Block<C> = Block(start: int, size: int, sha256: Hash<C>)

  datatype FrontierError =
    | SubtreeRangeInvalid
    | LeafInvalid
    | FrontierEmpty
    | FrontierShapeInvalid
    | AppendBlockInvalid
    | AppendBlockStartInvalid
    | AppendAlignmentInvalid
    | OldFrontierInvalid
    | OldRootMismatch
    | AppendBlocksInvalid
    | NewFrontierInvalid
    | NewRootMismatch

  /** The code's `value & (value - 1) == 0` test. */
  predicate PowerOfTwo(value: int) {
    value > 0 && And(value, value - 1) == 0
  }

  predicate ValidBlock<C>(b: Block<C>, strict: bool) {
    b.start >= 0 && PowerOfTwo(b.size) && Admissible(b.sha256, strict)
  }

  /** Same starts and sizes as the expected shapes. */
  predicate HasShapes<C>(blocks: seq<Block<C>>, shapes: seq<Shape>) {
    && |blocks| == |shapes|
    && forall i :: 0 <= i < |blocks| ==> blocks[i].start == shapes[i].start && blocks[i].size == shapes[i].size
  }

  predicate ValidBlockShapes<C>(blocks: seq<Block<C>>, shapes: seq<Shape>, strict: bool) {
    && HasShapes(blocks, shapes)
    && forall i :: 0 <= i < |blocks| ==> ValidBlock(blocks[i], strict)
  }

  predicate PositiveSizes<C>(blocks: seq<Block<C>>) {
    forall i :: 0 <= i < |blocks| ==> blocks[i].size > 0
  }

  // ---------------------------------------------------------------- building

  function SubtreeRoot<C(==)>(leaves: seq<Hash<C>>, start: int, size: int, strict: bool)
    : Result<Hash<C>, FrontierError>
    decreases size
  {
    if !PowerOfTwo(size) || start < 0 || start % size != 0 || start + size > |leaves| then Err(SubtreeRangeInvalid)
    else if size == 1 then
      if Admissible(leaves[start], strict) then Ok(leaves[start]) else Err(LeafInvalid)
    else
      var half := size / 2;
      match SubtreeRoot(leaves, start, half, strict)
      case Err(e) => Err(e)
      case Ok(left) =>
        match SubtreeRoot(leaves, start + half, half, strict)
        case Err(e) => Err(e)
        case Ok(right) => Ok(Node(left, right))
  }

  lemma {:induction false} AlignedHalves(start: nat, size: nat)
    requires IsPow2(size) && size > 1 && Aligned(start, size)
    ensures Aligned(start, size / 2) && Aligned(start + size / 2, size / 2)
    decreases size
  {
    AlignedSmaller(start, size, size / 2);
    if size > 2 {
      var half := size / 2;
      AlignedHalves(start / 2, half);
      assert half % 2 == 0 && (start + half) / 2 == start / 2 + half / 2;
    }
  }

  /** An aligned power-of-two range inside the list. */
  predicate SubtreeRange(start: int, size: int, n: nat) {
    size > 0 && IsPow2(size) && start >= 0 && start % size == 0 && start + size <= n
  }

  predicate LeavesAdmissible<C>(leaves: seq<Hash<C>>, start: nat, size: nat, strict: bool)
    requires start + size <= |leaves|
  {
    forall i :: start <= i < start + size ==> Admissible(leaves[i], strict)
  }

  /** The recursive subtree digest succeeds exactly on aligned power-of-two ranges inside the list whose leaves are
      admissible, and is then the tree's own node; otherwise the error says which of the two failed. */
  lemma {:induction false} SubtreeRootExact<C>(leaves: seq<Hash<C>>, start: int, size: int, strict: bool)
    ensures SubtreeRoot(leaves, start, size, strict)
         == if !SubtreeRange(start, size, |leaves|) then Err(SubtreeRangeInvalid)
            else if !LeavesAdmissible(leaves, start, size, strict) then Err(LeafInvalid)
            else Ok(Dup(leaves, start, size))
    decreases size
  {
    if size > 0 {
      AndPredecessorIsPow2(size);
      if SubtreeRange(start, size, |leaves|) && size > 1 {
        var half := size / 2;
        AlignedIsMod(start, size);
        AlignedHalves(start, size);
        AlignedIsMod(start, half);
        AlignedIsMod(start + half, half);
        SubtreeRootExact(leaves, start, half, strict);
        SubtreeRootExact(leaves, start + half, half, strict);
        assert LeavesAdmissible(leaves, start, size, strict)
          <==> LeavesAdmissible(leaves, start, half, strict) && LeavesAdmissible(leaves, start + half, half, strict);
      }
    }
  }

  lemma SubtreeRootIsNode<C>(leaves: seq<Hash<C>>, start: nat, size: nat, strict: bool)
    requires IsPow2(size) && Aligned(start, size) && start + size <= |leaves|
    requires AllAdmissible(leaves, strict)
    ensures SubtreeRoot(leaves, start, size, strict) == Ok(Dup(leaves, start, size))
  {
    AlignedIsMod(start, size);
    SubtreeRootExact(leaves, start, size, strict);
  }

  function BuildBlocks<C(==)>(leaves: seq<Hash<C>>, shapes: seq<Shape>, strict: bool)
    : Result<seq<Block<C>>, FrontierError>
  {
    if shapes == [] then Ok([])
    else
      match SubtreeRoot(leaves, shapes[0].start, shapes[0].size, strict)
      case Err(e) => Err(e)
      case Ok(h) =>
        match BuildBlocks(leaves, shapes[1..], strict)
        case Err(e) => Err(e)
        case Ok(rest) => Ok([Block(shapes[0].start, shapes[0].size, h)] + rest)
  }

  ghost predicate InRange(shapes: seq<Shape>, n: nat) {
    forall i :: 0 <= i < |shapes| ==> IsPow2(shapes[i].size) && shapes[i].start + shapes[i].size <= n
  }

  /** The tree's own blocks at the given shapes. */
  ghost function Blocks<C>(leaves: seq<Hash<C>>, shapes: seq<Shape>): seq<Block<C>>
    requires InRange(shapes, |leaves|)
  {
    if shapes == [] then []
    else
      var s := shapes[0];
      [Block(s.start, s.size, Dup(leaves, s.start, s.size))] + Blocks(leaves, shapes[1..])
  }

  lemma {:induction false} BlocksHaveShapes<C>(leaves: seq<Hash<C>>, shapes: seq<Shape>)
    requires InRange(shapes, |leaves|)
    ensures HasShapes(Blocks(leaves, shapes), shapes)
  {
    if shapes != [] {
      BlocksHaveShapes(leaves, shapes[1..]);
    }
  }

  lemma {:induction false} BlocksAppend<C>(leaves: seq<Hash<C>>, shapes: seq<Shape>, s: Shape)
    requires InRange(shapes, |leaves|) && IsPow2(s.size) && s.start + s.size <= |leaves|
    ensures InRange(shapes + [s], |leaves|)
    ensures Blocks(leaves, shapes + [s])
         == Blocks(leaves, shapes) + [Block(s.start, s.size, Dup(leaves, s.start, s.size))]
  {
    if shapes != [] {
      BlocksAppend(leaves, shapes[1..], s);
      assert (shapes + [s])[1..] == shapes[1..] + [s];
    }
  }

  lemma {:induction false} TilesInRange(shapes: seq<Shape>, lo: nat, hi: nat)
    requires Tiles(shapes, lo, hi)
    ensures lo <= hi && InRange(shapes, hi)
  {
    if shapes != [] {
      TilesInRange(shapes[1..], lo + shapes[0].size, hi);
      assert shapes == [shapes[0]] + shapes[1..];
    }
  }

  /** Building over a dyadic tiling never fails and yields the tree's own blocks. */
  lemma {:induction false} BuildBlocksExact<C>(leaves: seq<Hash<C>>, shapes: seq<Shape>, lo: nat, hi: nat, strict: bool)
    requires Tiles(shapes, lo, hi) && hi <= |leaves| && AllAdmissible(leaves, strict)
    ensures InRange(shapes, |leaves|)
    ensures BuildBlocks(leaves, shapes, strict) == Ok(Blocks(leaves, shapes))
  {
    TilesInRange(shapes, lo, hi);
    if shapes != [] {
      TilesInRange(shapes[1..], lo + shapes[0].size, hi);
      SubtreeRootIsNode(leaves, lo, shapes[0].size, strict);
      BuildBlocksExact(leaves, shapes[1..], lo + shapes[0].size, hi, strict);
    }
  }

  // ---------------------------------------------------------------- bagging

  /** Self-pairing doubles the accumulator until it is as wide as the next peak. */
  function Lift<C>(h: Hash<C>, size: int, target: int): (Hash<C>, int)
    requires size > 0
    decreases target - size
  {
    if size < target then Lift(Node(h, h), 2 * size, target) else (h, size)
  }

  function BagFrom<C>(blocks: seq<Block<C>>, h: Hash<C>, size: int): Result<Hash<C>, FrontierError>
    requires size > 0 && PositiveSizes(blocks)
    decreases |blocks|
  {
    if blocks == [] then Ok(h)
    else
      var last := blocks[|blocks| - 1];
      var (lifted, width) := Lift(h, size, last.size);
      if width != last.size then Err(FrontierShapeInvalid)
      else BagFrom(blocks[..|blocks| - 1], Node(last.sha256, lifted), 2 * width)
  }

  function Bag<C>(frontier: seq<Block<C>>): Result<Hash<C>, FrontierError>
    requires PositiveSizes(frontier)
  {
    if frontier == [] then Err(FrontierEmpty)
    else
      var last := frontier[|frontier| - 1];
      BagFrom(frontier[..|frontier| - 1], last.sha256, last.size)
  }

  method BagFrontierToMembershipRoot<C(==)>(frontier: seq<Block<C>>) returns (r: Result<Hash<C>, FrontierError>)
    requires PositiveSizes(frontier)
    ensures r == Bag(frontier)
  {
    if |frontier| == 0 {
      return Err(FrontierEmpty);
    }
    var left := |frontier| - 1;
    var accumulator, accumulatorSize := frontier[left].sha256, frontier[left].size;
    while left > 0
      invariant 0 <= left < |frontier| && accumulatorSize > 0
      invariant BagFrom(frontier[..left], accumulator, accumulatorSize) == Bag(frontier)
    {
      var block := frontier[left - 1];
      assert frontier[..left][..left - 1] == frontier[..left - 1];
      ghost var lifted := Lift(accumulator, accumulatorSize, block.size);
      while accumulatorSize < block.size
        invariant accumulatorSize > 0
        invariant Lift(accumulator, accumulatorSize, block.size) == lifted
        decreases block.size - accumulatorSize
      {
        accumulator := Node(accumulator, accumulator);
        accumulatorSize := accumulatorSize * 2;
      }
      if accumulatorSize != block.size {
        return Err(FrontierShapeInvalid);
      }
      accumulator := Node(block.sha256, accumulator);
      accumulatorSize := accumulatorSize * 2;
      left := left - 1;
    }
    return Ok(accumulator);
  }

  /** The tree's own peaks over its first c leaves. */
  ghost function Peaks<C>(leaves: seq<Hash<C>>, c: nat): (r: seq<Block<C>>)
    requires c <= |leaves|
    ensures PositiveSizes(r)
    decreases c
  {
    if c == 0 then []
    else
      var low := LowBit(c);
      Peaks(leaves, c - low) + [Block(c - low, low, Dup(leaves, c - low, low))]
  }

  lemma NoBlocks<C>(leaves: seq<Hash<C>>)
    ensures InRange([], |leaves|) && Blocks(leaves, []) == []
  {
  }

  /** The peaks are the tree's blocks at the prefix shapes. */
  lemma {:induction false} PeaksAreBlocks<C>(leaves: seq<Hash<C>>, c: nat)
    requires c <= |leaves|
    ensures InRange(PrefixShapes(c), |leaves|)
    ensures Peaks(leaves, c) == Blocks(leaves, PrefixShapes(c))
    decreases c
  {
    hide Blocks, InRange, Dup, LowBit;
    if c == 0 {
      NoBlocks(leaves);
    } else {
      PeaksAreBlocks(leaves, c - LowBit(c));
      BlocksAppend(leaves, PrefixShapes(c - LowBit(c)), Shape(c - LowBit(c), LowBit(c)));
    }
  }

  lemma {:induction false} LiftIsDup<C>(leaves: seq<Hash<C>>, c: nat, size: nat, target: nat)
    requires c < |leaves| <= c + size
    requires IsPow2(size) && IsPow2(target) && size <= target
    ensures Lift(Dup(leaves, c, size), size, target) == (Dup(leaves, c, target), target)
    decreases target - size
  {
    if size < target {
      Pow2Gap(size, target);
      LiftIsDup(leaves, c, 2 * size, target);
    }
  }

  lemma CeilPow2Unique(n: nat, size: nat)
    requires n > 0 && IsPow2(size) && n <= size < 2 * n
    ensures size == CeilPow2(n)
  {
    if size < CeilPow2(n) {
      Pow2Gap(size, CeilPow2(n));
    } else if CeilPow2(n) < size {
      Pow2Gap(CeilPow2(n), size);
    }
  }

  lemma Pow2Positive(size: nat)
    requires IsPow2(size)
    ensures size >= 1
  {
  }

  lemma PeaksGrow<C>(leaves: seq<Hash<C>>, c: nat, size: nat)
    requires IsPow2(size) && c + size <= |leaves| && LowBit(c + size) == size
    ensures Peaks(leaves, c + size) == Peaks(leaves, c) + [Block(c, size, Dup(leaves, c, size))]
  {
    hide Dup, LowBit, IsPow2, PositiveSizes;
    assert c + size > 0 by {
      Pow2Positive(size);
    }
  }

  lemma InitAndLast<T>(s: seq<T>, x: T)
    ensures (s + [x])[..|s + [x]| - 1] == s && (s + [x])[|s + [x]| - 1] == x
  {
  }

  lemma LastPeak<C>(leaves: seq<Hash<C>>, c: nat)
    requires 0 < c <= |leaves|
    ensures var peaks, low := Peaks(leaves, c), LowBit(c);
            && 1 <= low <= c && |peaks| > 0
            && peaks[..|peaks| - 1] == Peaks(leaves, c - low)
            && peaks[|peaks| - 1] == Block(c - low, low, Dup(leaves, c - low, low))
  {
    hide Peaks, Dup, LowBit, IsPow2, PositiveSizes;
    LowBitPositive(c);
    PeaksGrow(leaves, c - LowBit(c), LowBit(c));
    InitAndLast(Peaks(leaves, c - LowBit(c)), Block(c - LowBit(c), LowBit(c), Dup(leaves, c - LowBit(c), LowBit(c))));
  }

  lemma NoPeaks<C>(leaves: seq<Hash<C>>)
    ensures Peaks(leaves, 0) == []
  {
  }

  lemma DupSplit<C>(leaves: seq<Hash<C>>, start: nat, half: nat)
    requires IsPow2(half) && start + half < |leaves|
    ensures IsPow2(2 * half)
    ensures Dup(leaves, start, 2 * half) == Node(Dup(leaves, start, half), Dup(leaves, start + half, half))
  {
  }

  /** Taking the last peak widens the padded node to the left. */
  lemma BagLastPeak<C>(leaves: seq<Hash<C>>, c: nat, size: nat)
    requires 0 < c < |leaves| <= c + size && IsPow2(size) && size <= LowBit(c)
    ensures BagFrom(Peaks(leaves, c), Dup(leaves, c, size), size)
         == BagFrom(Peaks(leaves, c - LowBit(c)), Dup(leaves, c - LowBit(c), 2 * LowBit(c)), 2 * LowBit(c))
  {
    hide Lift, Dup, Peaks, IsPow2, LowBit;
    var low := LowBit(c);
    LastPeak(leaves, c);
    Pow2Positive(size);
    LiftIsDup(leaves, c, size, low);
    DupSplit(leaves, c - low, low);
  }

  /** Bagging peaks c leaves wide onto the padded node that starts at c yields the root. */
  lemma {:induction false} BagFromPeaks<C>(leaves: seq<Hash<C>>, c: nat, size: nat)
    requires c < |leaves| <= c + size && size < 2 * (|leaves| - c)
    requires IsPow2(size) && (c > 0 ==> size <= LowBit(c))
    ensures BagFrom(Peaks(leaves, c), Dup(leaves, c, size), size) == Ok(Root(leaves))
    decreases c
  {
    hide Lift, Root, Dup, Peaks, IsPow2, LowBit, CeilPow2;
    Pow2Positive(size);
    if c == 0 {
      CeilPow2Unique(|leaves|, size);
      RootIsDup(leaves);
      NoPeaks(leaves);
    } else {
      var low := LowBit(c);
      LastPeak(leaves, c);
      BagLastPeak(leaves, c, size);
      LowBitAligned(c);
      DoublePow2(low);
      if c > low {
        AlignedBelowLowBit(c - low, 2 * low);
      }
      BagFromPeaks(leaves, c - low, 2 * low);
    }
  }

  /** Bagging the peaks of any nonempty list gives the level-by-level root; the shape error never fires. */
  lemma BagIsRoot<C>(leaves: seq<Hash<C>>)
    requires |leaves| > 0
    ensures Bag(Peaks(leaves, |leaves|)) == Ok(Root(leaves))
  {
    hide BagFrom, Dup, Peaks, IsPow2, LowBit, Root;
    var n := |leaves|;
    var low := LowBit(n);
    LastPeak(leaves, n);
    LowBitAligned(n);
    DoublePow2(low);
    if n > low {
      AlignedSmaller(n - low, 2 * low, low);
      AlignedBelowLowBit(n - low, low);
    }
    BagFromPeaks(leaves, n - low, low);
  }

  // ---------------------------------------------------------------- appending

  function Covered<C>(blocks: seq<Block<C>>): int {
    if blocks == [] then 0 else Covered(blocks[..|blocks| - 1]) + blocks[|blocks| - 1].size
  }

  predicate Mergeable<C>(left: Block<C>, right: Block<C>) {
    left.size == right.size && left.start + left.size == right.start
  }

  function Merged<C>(left: Block<C>, right: Block<C>): Block<C> {
    Block(left.start, 2 * left.size, Node(left.sha256, right.sha256))
  }

  /** Cascading merge of the two last blocks while they are equal and adjacent. */
  function Collapse<C>(blocks: seq<Block<C>>): Result<seq<Block<C>>, FrontierError>
    requires PositiveSizes(blocks)
    decreases |blocks|
  {
    var n := |blocks|;
    if n < 2 || !Mergeable(blocks[n - 2], blocks[n - 1]) then Ok(blocks)
    else if blocks[n - 2].start % (2 * blocks[n - 2].size) != 0 then Err(AppendAlignmentInvalid)
    else Collapse(blocks[..n - 2] + [Merged(blocks[n - 2], blocks[n - 1])])
  }

  function AppendBlock<C>(frontier: seq<Block<C>>, block: Block<C>, strict: bool)
    : (r: Result<seq<Block<C>>, FrontierError>)
    requires PositiveSizes(frontier)
  {
    if !ValidBlock(block, strict) then Err(AppendBlockInvalid)
    else if block.start != Covered(frontier) then Err(AppendBlockStartInvalid)
    else Collapse(frontier + [block])
  }

  method AppendBlockInPlace<C(==)>(frontier: seq<Block<C>>, block: Block<C>, strict: bool)
    returns (r: Result<seq<Block<C>>, FrontierError>)
    requires PositiveSizes(frontier)
    ensures r == AppendBlock(frontier, block, strict)
  {
    if !ValidBlock(block, strict) {
      return Err(AppendBlockInvalid);
    }
    var result, covered := frontier, 0;
    for i := 0 to |frontier|
      invariant covered == Covered(frontier[..i])
    {
      assert frontier[..i + 1][..i] == frontier[..i];
      covered := covered + frontier[i].size;
    }
    assert frontier[..|frontier|] == frontier;
    if block.start != covered {
      return Err(AppendBlockStartInvalid);
    }
    result := result + [block];
    while |result| >= 2
      invariant PositiveSizes(result)
      invariant Collapse(result) == Collapse(frontier + [block])
      decreases |result|
    {
      var left, right := result[|result| - 2], result[|result| - 1];
      if left.size != right.size || left.start + left.size != right.start {
        break;
      }
      var parentSize := left.size * 2;
      if left.start % parentSize != 0 {
        return Err(AppendAlignmentInvalid);
      }
      result := result[..|result| - 2] + [Block(left.start, parentSize, Node(left.sha256, right.sha256))];
    }
    return Ok(result);
  }

  lemma {:induction false} CollapseKeepsPositive<C>(blocks: seq<Block<C>>)
    requires PositiveSizes(blocks) && Collapse(blocks).Ok?
    ensures PositiveSizes(Collapse(blocks).value)
    decreases |blocks|
  {
    var n := |blocks|;
    if n >= 2 && Mergeable(blocks[n - 2], blocks[n - 1]) {
      CollapseKeepsPositive(blocks[..n - 2] + [Merged(blocks[n - 2], blocks[n - 1])]);
    }
  }

  lemma AppendKeepsPositive<C>(frontier: seq<Block<C>>, block: Block<C>, strict: bool)
    requires PositiveSizes(frontier)
    ensures AppendBlock(frontier, block, strict).Ok? ==> PositiveSizes(AppendBlock(frontier, block, strict).value)
  {
    if AppendBlock(frontier, block, strict).Ok? {
      CollapseKeepsPositive(frontier + [block]);
    }
  }

  function AppendAll<C>(frontier: seq<Block<C>>, blocks: seq<Block<C>>, strict: bool)
    : Result<seq<Block<C>>, FrontierError>
    requires PositiveSizes(frontier)
    decreases |blocks|
  {
    if blocks == [] then Ok(frontier)
    else
      AppendKeepsPositive(frontier, blocks[0], strict);
      match AppendBlock(frontier, blocks[0], strict)
      case Err(e) => Err(e)
      case Ok(next) => AppendAll(next, blocks[1..], strict)
  }

  lemma {:induction false} PeaksCovered<C>(leaves: seq<Hash<C>>, c: nat)
    requires c <= |leaves|
    ensures Covered(Peaks(leaves, c)) == c
    decreases c
  {
    if c > 0 {
      PeaksCovered(leaves, c - LowBit(c));
      assert Peaks(leaves, c)[..|Peaks(leaves, c)| - 1] == Peaks(leaves, c - LowBit(c));
    }
  }

  /** Pushing the node [c, c + size) onto the peaks of c leaves collapses to the peaks of c + size leaves. */
  ghost predicate CollapsesToPeaks<C>(leaves: seq<Hash<C>>, c: nat, size: nat)
    requires IsPow2(size) && c + size <= |leaves|
  {
    Collapse(Peaks(leaves, c) + [Block(c, size, Dup(leaves, c, size))]) == Ok(Peaks(leaves, c + size))
  }

  lemma CollapseMerges<C>(front: seq<Block<C>>, left: Block<C>, right: Block<C>)
    requires PositiveSizes(front) && left.size > 0 && Mergeable(left, right)
    requires left.start % (2 * left.size) == 0
    ensures Collapse(front + [left] + [right]) == Collapse(front + [Merged(left, right)])
  {
    var blocks := front + [left] + [right];
    assert blocks[|blocks| - 2] == left && blocks[|blocks| - 1] == right;
    assert blocks[..|blocks| - 2] == front;
  }

  lemma CollapseStops<C>(front: seq<Block<C>>, block: Block<C>)
    requires PositiveSizes(front) && block.size > 0
    requires front != [] ==> front[|front| - 1].size != block.size
    ensures Collapse(front + [block]) == Ok(front + [block])
  {
  }

  /** One merge: the last peak and an equal neighbour become the node that covers both. */
  lemma MergeLastPeak<C>(leaves: seq<Hash<C>>, c: nat, low: nat)
    requires c > 0 && low == LowBit(c) && c + low <= |leaves|
    ensures Collapse(Peaks(leaves, c) + [Block(c, low, Dup(leaves, c, low))])
         == Collapse(Peaks(leaves, c - low) + [Block(c - low, 2 * low, Dup(leaves, c - low, 2 * low))])
  {
    LowBitAligned(c);
    AlignedIsMod(c - low, 2 * low);
    DupSplit(leaves, c - low, low);
    CollapseMerges(Peaks(leaves, c - low), Block(c - low, low, Dup(leaves, c - low, low)),
                   Block(c, low, Dup(leaves, c, low)));
  }

  /** No merge: a block smaller than the last peak becomes the new last peak. */
  lemma KeepLastPeak<C>(leaves: seq<Hash<C>>, c: nat, size: nat)
    requires IsPow2(size) && c + size <= |leaves| && (c == 0 || size < LowBit(c))
    ensures CollapsesToPeaks(leaves, c, size)
  {
    LowBitAdd(c, size);
    PeaksGrow(leaves, c, size);
    if c > 0 {
      LastPeak(leaves, c);
    }
    CollapseStops(Peaks(leaves, c), Block(c, size, Dup(leaves, c, size)));
  }

  lemma {:induction false} AlignedCollapses<C>(leaves: seq<Hash<C>>, c: nat, size: nat)
    requires IsPow2(size) && Aligned(c, size) && c + size <= |leaves|
    ensures CollapsesToPeaks(leaves, c, size)
    decreases c
  {
    if c > 0 {
      AlignedBelowLowBit(c, size);
      LowBitAligned(c);
    }
    if c == 0 || size < LowBit(c) {
      KeepLastPeak(leaves, c, size);
    } else {
      AlignedCollapses(leaves, c - size, 2 * size);
      MergeLastPeak(leaves, c, size);
    }
  }

  lemma {:induction false} PeaksAdmissible<C>(leaves: seq<Hash<C>>, start: nat, size: nat, strict: bool)
    requires IsPow2(size) && start + size <= |leaves| && AllAdmissible(leaves, strict)
    ensures Admissible(Dup(leaves, start, size), strict)
  {
  }

  lemma AppendOneBlock<C>(leaves: seq<Hash<C>>, c: nat, size: nat, strict: bool)
    requires IsPow2(size) && Aligned(c, size) && c + size <= |leaves| && AllAdmissible(leaves, strict)
    ensures AppendBlock(Peaks(leaves, c), Block(c, size, Dup(leaves, c, size)), strict) == Ok(Peaks(leaves, c + size))
  {
    AndPredecessorIsPow2(size);
    PeaksAdmissible(leaves, c, size, strict);
    PeaksCovered(leaves, c);
    AlignedCollapses(leaves, c, size);
  }

  lemma AppendAllStep<C>(frontier: seq<Block<C>>, block: Block<C>, rest: seq<Block<C>>, next: seq<Block<C>>,
                         strict: bool)
    requires PositiveSizes(frontier) && PositiveSizes(next)
    requires AppendBlock(frontier, block, strict) == Ok(next)
    ensures AppendAll(frontier, [block] + rest, strict) == AppendAll(next, rest, strict)
  {
    assert ([block] + rest)[1..] == rest;
  }

  /** Appending the suffix blocks [m, n) to the peaks of m leaves. */
  ghost function Extended<C>(leaves: seq<Hash<C>>, m: nat, n: nat, strict: bool): Result<seq<Block<C>>, FrontierError>
    requires m <= n <= |leaves|
  {
    SuffixTiles(m, n);
    TilesInRange(SuffixShapes(m, n), m, n);
    AppendAll(Peaks(leaves, m), Blocks(leaves, SuffixShapes(m, n)), strict)
  }

  lemma ExtendedStep<C>(leaves: seq<Hash<C>>, m: nat, n: nat, strict: bool)
    requires m < n <= |leaves| && AllAdmissible(leaves, strict)
    ensures Extended(leaves, m, n, strict) == Extended(leaves, m + SuffixSize(m, n - m), n, strict)
  {
    var size := SuffixSize(m, n - m);
    var shapes, rest := SuffixShapes(m, n), SuffixShapes(m + size, n);
    SuffixTiles(m, n);
    TilesInRange(shapes, m, n);
    SuffixSizeAligned(m, n - m);
    AppendOneBlock(leaves, m, size, strict);
    assert shapes[1..] == rest;
    AppendAllStep(Peaks(leaves, m), Block(m, size, Dup(leaves, m, size)), Blocks(leaves, rest),
                  Peaks(leaves, m + size), strict);
  }

  lemma NothingToExtend<C>(leaves: seq<Hash<C>>, n: nat, strict: bool)
    requires n <= |leaves|
    ensures Extended(leaves, n, n, strict) == Ok(Peaks(leaves, n))
  {
    hide Peaks;
    SuffixTiles(n, n);
    TilesInRange(SuffixShapes(n, n), n, n);
    assert Blocks(leaves, SuffixShapes(n, n)) == [];
  }

  /** Starting from the peaks of m leaves and appending the suffix blocks gives exactly the peaks of n leaves:
      no start, alignment or block error is possible. */
  lemma {:induction false} AppendReachesPeaks<C>(leaves: seq<Hash<C>>, m: nat, n: nat, strict: bool)
    requires m <= n <= |leaves| && AllAdmissible(leaves, strict)
    ensures Extended(leaves, m, n, strict) == Ok(Peaks(leaves, n))
    decreases n - m
  {
    hide Extended, Peaks, AllAdmissible;
    if m < n {
      ExtendedStep(leaves, m, n, strict);
      AppendReachesPeaks(leaves, m + SuffixSize(m, n - m), n, strict);
    } else {
      NothingToExtend(leaves, n, strict);
    }
  }

  // ---------------------------------------------------------------- injectivity

  ghost predicate SameShapes<C>(a: seq<Block<C>>, b: seq<Block<C>>) {
    && |a| == |b|
    && forall i :: 0 <= i < |a| ==> a[i].start == b[i].start && a[i].size == b[i].size
  }

  lemma {:induction false} LiftInjective<C>(a: Hash<C>, b: Hash<C>, size: int, target: int)
    requires size > 0
    ensures Lift(a, size, target).1 == Lift(b, size, target).1
    ensures Lift(a, size, target).0 == Lift(b, size, target).0 ==> a == b
    decreases target - size
  {
    if size < target {
      LiftInjective(Node(a, a), Node(b, b), 2 * size, target);
    }
  }

  lemma {:induction false} BagFromInjective<C>(a: seq<Block<C>>, ha: Hash<C>, b: seq<Block<C>>, hb: Hash<C>, size: int)
    requires size > 0 && PositiveSizes(a) && PositiveSizes(b) && SameShapes(a, b)
    requires BagFrom(a, ha, size).Ok? && BagFrom(a, ha, size) == BagFrom(b, hb, size)
    ensures a == b && ha == hb
    decreases |a|
  {
    if a != [] {
      var n := |a| - 1;
      var la, lb := Lift(ha, size, a[n].size), Lift(hb, size, b[n].size);
      LiftInjective(ha, hb, size, a[n].size);
      BagFromInjective(a[..n], Node(a[n].sha256, la.0), b[..n], Node(b[n].sha256, lb.0), 2 * la.1);
      assert a == a[..n] + [a[n]] && b == b[..n] + [b[n]];
    }
  }

  /** For fixed shapes the bagged root determines every peak. */
  lemma BagInjective<C>(a: seq<Block<C>>, b: seq<Block<C>>)
    requires PositiveSizes(a) && PositiveSizes(b) && SameShapes(a, b)
    requires Bag(a).Ok? && Bag(a) == Bag(b)
    ensures a == b
  {
    var n := |a| - 1;
    BagFromInjective(a[..n], a[n].sha256, b[..n], b[n].sha256, a[n].size);
    assert a == a[..n] + [a[n]] && b == b[..n] + [b[n]];
  }

  /** Which blocks merge depends on shapes only, and a merged frontier can be taken apart again. */
  lemma {:induction false} CollapseInjective<C>(a: seq<Block<C>>, b: seq<Block<C>>)
    requires PositiveSizes(a) && PositiveSizes(b) && SameShapes(a, b)
    ensures Collapse(a).Ok? <==> Collapse(b).Ok?
    ensures Collapse(a).Ok? ==> SameShapes(Collapse(a).value, Collapse(b).value)
    ensures Collapse(a).Ok? && Collapse(a) == Collapse(b) ==> a == b
    decreases |a|
  {
    var n := |a|;
    if n >= 2 && Mergeable(a[n - 2], a[n - 1]) {
      var na := a[..n - 2] + [Merged(a[n - 2], a[n - 1])];
      var nb := b[..n - 2] + [Merged(b[n - 2], b[n - 1])];
      CollapseInjective(na, nb);
      if na == nb {
        assert na[n - 2] == nb[n - 2] && na[..n - 2] == a[..n - 2] && nb[..n - 2] == b[..n - 2];
        assert a == a[..n - 2] + [a[n - 2], a[n - 1]] && b == b[..n - 2] + [b[n - 2], b[n - 1]];
      }
    }
  }

  lemma {:induction false} CoveredByShapes<C>(a: seq<Block<C>>, b: seq<Block<C>>)
    requires SameShapes(a, b)
    ensures Covered(a) == Covered(b)
    decreases |a|
  {
    if a != [] {
      CoveredByShapes(a[..|a| - 1], b[..|b| - 1]);
    }
  }

  /** Un-merging: the final frontier determines the initial frontier and every appended block. */
  lemma {:induction false} AppendAllInjective<C>(f: seq<Block<C>>, bs: seq<Block<C>>, g: seq<Block<C>>,
                                                 cs: seq<Block<C>>, strict: bool)
    requires PositiveSizes(f) && PositiveSizes(g) && SameShapes(f, g) && SameShapes(bs, cs)
    requires AppendAll(f, bs, strict).Ok? && AppendAll(f, bs, strict) == AppendAll(g, cs, strict)
    ensures f == g && bs == cs
    decreases |bs|
  {
    if bs != [] {
      AppendKeepsPositive(f, bs[0], strict);
      AppendKeepsPositive(g, cs[0], strict);
      CollapseInjective(f + [bs[0]], g + [cs[0]]);
      AppendAllInjective(AppendBlock(f, bs[0], strict).value, bs[1..], AppendBlock(g, cs[0], strict).value, cs[1..],
                         strict);
      assert f == (f + [bs[0]])[..|f|] && g == (g + [cs[0]])[..|g|];
      assert (f + [bs[0]])[|f|] == (g + [cs[0]])[|g|];
      assert bs == [bs[0]] + bs[1..] && cs == [cs[0]] + cs[1..];
    }
  }

  lemma {:induction false} DupInjective<C>(a: seq<Hash<C>>, b: seq<Hash<C>>, start: nat, size: nat)
    requires IsPow2(size) && start + size <= |a| && start + size <= |b|
    requires Dup(a, start, size) == Dup(b, start, size)
    ensures a[start..start + size] == b[start..start + size]
    decreases size
  {
    if size > 1 {
      var half := size / 2;
      DupInjective(a, b, start, half);
      DupInjective(a, b, start + half, half);
      assert a[start..start + size] == a[start..start + half] + a[start + half..start + size];
      assert b[start..start + size] == b[start..start + half] + b[start + half..start + size];
    }
  }

  lemma LastEqual<T>(a: seq<T>, x: T, b: seq<T>, y: T)
    requires a + [x] == b + [y]
    ensures a == b && x == y
  {
    assert a == (a + [x])[..|a|] && b == (b + [y])[..|b|];
    assert x == (a + [x])[|a|] && y == (b + [y])[|b|];
  }

  lemma PrefixStep<T>(a: seq<T>, b: seq<T>, lo: nat, hi: nat)
    requires lo <= hi <= |a| && hi <= |b|
    requires a[..lo] == b[..lo] && a[lo..hi] == b[lo..hi]
    ensures a[..hi] == b[..hi]
  {
    assert a[..hi] == a[..lo] + a[lo..hi] && b[..hi] == b[..lo] + b[lo..hi];
  }

  /** Equal peaks over c leaves mean equal first c leaves. */
  lemma {:induction false} PeaksInjective<C>(a: seq<Hash<C>>, b: seq<Hash<C>>, c: nat)
    requires c <= |a| && c <= |b| && Peaks(a, c) == Peaks(b, c)
    ensures a[..c] == b[..c]
    decreases c
  {
    if c > 0 {
      var low := LowBit(c);
      LastEqual(Peaks(a, c - low), Block(c - low, low, Dup(a, c - low, low)),
                Peaks(b, c - low), Block(c - low, low, Dup(b, c - low, low)));
      PeaksInjective(a, b, c - low);
      DupInjective(a, b, c - low, low);
      PrefixStep(a, b, c - low, c);
    }
  }

  lemma {:induction false} DupOfPrefix<C>(leaves: seq<Hash<C>>, m: nat, start: nat, size: nat)
    requires IsPow2(size) && start + size <= m <= |leaves|
    ensures Dup(leaves[..m], start, size) == Dup(leaves, start, size)
    decreases size
  {
    if size > 1 {
      DupOfPrefix(leaves, m, start, size / 2);
      DupOfPrefix(leaves, m, start + size / 2, size / 2);
    }
  }

  lemma {:induction false} PeaksOfPrefix<C>(leaves: seq<Hash<C>>, m: nat, c: nat)
    requires c <= m <= |leaves|
    ensures Peaks(leaves[..m], c) == Peaks(leaves, c)
    decreases c
  {
    if c > 0 {
      DupOfPrefix(leaves, m, c - LowBit(c), LowBit(c));
      PeaksOfPrefix(leaves, m, c - LowBit(c));
    }
  }

  // ---------------------------------------------------------------- the check

  ghost predicate BlocksAdmissible<C>(blocks: seq<Block<C>>, strict: bool) {
    forall i :: 0 <= i < |blocks| ==> Admissible(blocks[i].sha256, strict)
  }

  lemma {:induction false} CollapseAdmissible<C>(blocks: seq<Block<C>>, strict: bool)
    requires PositiveSizes(blocks) && BlocksAdmissible(blocks, strict) && Collapse(blocks).Ok?
    ensures BlocksAdmissible(Collapse(blocks).value, strict)
    decreases |blocks|
  {
    var n := |blocks|;
    if n >= 2 && Mergeable(blocks[n - 2], blocks[n - 1]) {
      CollapseAdmissible(blocks[..n - 2] + [Merged(blocks[n - 2], blocks[n - 1])], strict);
    }
  }

  /** Whether appending succeeds, and the shapes it ends with, depend on the shapes only. */
  lemma {:induction false} AppendAllShapes<C>(f: seq<Block<C>>, bs: seq<Block<C>>, g: seq<Block<C>>, cs: seq<Block<C>>,
                                              strict: bool)
    requires PositiveSizes(f) && PositiveSizes(g) && SameShapes(f, g) && SameShapes(bs, cs)
    requires BlocksAdmissible(f, strict) && BlocksAdmissible(bs, strict) && BlocksAdmissible(cs, strict)
    requires AppendAll(g, cs, strict).Ok?
    ensures AppendAll(f, bs, strict).Ok?
    ensures SameShapes(AppendAll(f, bs, strict).value, AppendAll(g, cs, strict).value)
    ensures BlocksAdmissible(AppendAll(f, bs, strict).value, strict)
    decreases |bs|
  {
    if bs != [] {
      AppendKeepsPositive(g, cs[0], strict);
      CoveredByShapes(f, g);
      AppendOneShapes(f, bs[0], g, cs[0], strict);
      AppendAllShapes(AppendBlock(f, bs[0], strict).value, bs[1..], AppendBlock(g, cs[0], strict).value, cs[1..],
                      strict);
    }
  }

  lemma AppendOneShapes<C>(f: seq<Block<C>>, b: Block<C>, g: seq<Block<C>>, c: Block<C>, strict: bool)
    requires PositiveSizes(f) && PositiveSizes(g) && SameShapes(f, g) && b.start == c.start && b.size == c.size
    requires BlocksAdmissible(f, strict) && Admissible(b.sha256, strict) && Covered(f) == Covered(g)
    requires AppendBlock(g, c, strict).Ok?
    ensures AppendBlock(f, b, strict).Ok?
    ensures PositiveSizes(AppendBlock(f, b, strict).value)
    ensures SameShapes(AppendBlock(f, b, strict).value, AppendBlock(g, c, strict).value)
    ensures BlocksAdmissible(AppendBlock(f, b, strict).value, strict)
  {
    CollapseInjective(f + [b], g + [c]);
    AppendKeepsPositive(f, b, strict);
    CollapseAdmissible(f + [b], strict);
  }

  lemma {:induction false} BagFromShapes<C>(a: seq<Block<C>>, ha: Hash<C>, b: seq<Block<C>>, hb: Hash<C>, size: int)
    requires size > 0 && PositiveSizes(a) && PositiveSizes(b) && SameShapes(a, b)
    requires BagFrom(b, hb, size).Ok?
    ensures BagFrom(a, ha, size).Ok?
    decreases |a|
  {
    if a != [] {
      var n := |a| - 1;
      var la, lb := Lift(ha, size, a[n].size), Lift(hb, size, b[n].size);
      LiftInjective(ha, hb, size, a[n].size);
      BagFromShapes(a[..n], Node(a[n].sha256, la.0), b[..n], Node(b[n].sha256, lb.0), 2 * la.1);
    }
  }

  function Placeholder<C>(n: nat): (r: seq<Hash<C>>)
    ensures |r| == n && AllAdmissible(r, true)
  {
    seq(n, _ => Other(0))
  }

  /** Any frontier with prefix shapes can be bagged: the empty and shape errors never fire. */
  lemma PrefixShapesBag<C>(frontier: seq<Block<C>>, n: nat)
    requires n > 0 && PositiveSizes(frontier) && HasShapes(frontier, PrefixShapes(n))
    ensures Bag(frontier).Ok?
  {
    hide Peaks, Dup, LowBit, IsPow2, Root, PrefixShapes;
    var leaves := Placeholder<C>(n);
    BagIsRoot(leaves);
    LastPeak(leaves, n);
    PeaksHaveShapes(leaves, n);
    var peaks, last := Peaks(leaves, n), |frontier| - 1;
    BagFromShapes(frontier[..last], frontier[last].sha256, peaks[..last], peaks[last].sha256, frontier[last].size);
  }

  lemma PrefixShapesValid<C>(blocks: seq<Block<C>>, n: nat, strict: bool)
    requires HasShapes(blocks, PrefixShapes(n)) && BlocksAdmissible(blocks, strict)
    ensures ValidBlockShapes(blocks, PrefixShapes(n), strict)
  {
    PrefixShapesExact(n);
    TilesInRange(PrefixShapes(n), 0, n);
    forall i | 0 <= i < |blocks| ensures ValidBlock(blocks[i], strict) {
      AndPredecessorIsPow2(PrefixShapes(n)[i].size);
    }
  }

  lemma ValidIsPositive<C>(blocks: seq<Block<C>>, shapes: seq<Shape>, strict: bool)
    requires ValidBlockShapes(blocks, shapes, strict)
    ensures PositiveSizes(blocks) && BlocksAdmissible(blocks, strict)
  {
  }

  /** Whatever digests a proof carries, once its block shapes pass, appending succeeds and ends in prefix shapes:
      the start, alignment, block and new-frontier errors never fire. */
  lemma ShapesSuffice<C>(m: nat, n: nat, oldFrontier: seq<Block<C>>, appendBlocks: seq<Block<C>>, strict: bool)
    requires 0 < m < n
    requires ValidBlockShapes(oldFrontier, PrefixShapes(m), strict)
    requires ValidBlockShapes(appendBlocks, SuffixShapes(m, n), strict)
    ensures PositiveSizes(oldFrontier)
    ensures AppendAll(oldFrontier, appendBlocks, strict).Ok?
    ensures ValidBlockShapes(AppendAll(oldFrontier, appendBlocks, strict).value, PrefixShapes(n), strict)
  {
    var leaves := Placeholder<C>(n);
    ValidIsPositive(oldFrontier, PrefixShapes(m), strict);
    ValidIsPositive(appendBlocks, SuffixShapes(m, n), strict);
    AppendReachesPeaks(leaves, m, n, strict);
    SuffixTiles(m, n);
    TilesInRange(SuffixShapes(m, n), m, n);
    var blocks := Blocks(leaves, SuffixShapes(m, n));
    PeaksHaveShapes(leaves, m);
    PeaksHaveShapes(leaves, n);
    BlocksHaveShapes(leaves, SuffixShapes(m, n));
    ValidBlocks(leaves, SuffixShapes(m, n), strict);
    ValidIsPositive(blocks, SuffixShapes(m, n), strict);
    ShapesAgree(oldFrontier, Peaks(leaves, m), PrefixShapes(m));
    ShapesAgree(appendBlocks, blocks, SuffixShapes(m, n));
    AppendAllShapes(oldFrontier, appendBlocks, Peaks(leaves, m), blocks, strict);
    PrefixShapesValid(AppendAll(oldFrontier, appendBlocks, strict).value, n, strict);
  }

  /** The frontier part of the verifiers, from the old-frontier shape test to the new-root comparison. Only four of
      its failures can occur. */
  function FrontierVerdict<C(==)>(m: nat, n: nat, oldRoot: Hash<C>, newRoot: Hash<C>, oldFrontier: seq<Block<C>>,
                                  appendBlocks: seq<Block<C>>, strict: bool): Result<(), FrontierError>
    requires 0 < m < n
  {
    if !ValidBlockShapes(oldFrontier, PrefixShapes(m), strict) then Err(OldFrontierInvalid)
    else if Bag(oldFrontier) != Ok(oldRoot) then Err(OldRootMismatch)
    else if !ValidBlockShapes(appendBlocks, SuffixShapes(m, n), strict) then Err(AppendBlocksInvalid)
    else
      ShapesSuffice(m, n, oldFrontier, appendBlocks, strict);
      if Bag(AppendAll(oldFrontier, appendBlocks, strict).value) != Ok(newRoot) then Err(NewRootMismatch)
      else Ok(())
  }

  predicate FrontierAccepts<C(==)>(m: nat, n: nat, oldRoot: Hash<C>, newRoot: Hash<C>, oldFrontier: seq<Block<C>>,
                                   appendBlocks: seq<Block<C>>, strict: bool)
    requires 0 < m < n
  {
    FrontierVerdict(m, n, oldRoot, newRoot, oldFrontier, appendBlocks, strict).Ok?
  }

  method FoldAppendBlocks<C(==)>(oldFrontier: seq<Block<C>>, appendBlocks: seq<Block<C>>, strict: bool)
    returns (r: Result<seq<Block<C>>, FrontierError>)
    requires PositiveSizes(oldFrontier)
    ensures r == AppendAll(oldFrontier, appendBlocks, strict)
  {
    var newFrontier := oldFrontier;
    for i := 0 to |appendBlocks|
      invariant PositiveSizes(newFrontier)
      invariant AppendAll(newFrontier, appendBlocks[i..], strict) == AppendAll(oldFrontier, appendBlocks, strict)
    {
      assert appendBlocks[i..][0] == appendBlocks[i] && appendBlocks[i..][1..] == appendBlocks[i + 1..];
      var appended := AppendBlockInPlace(newFrontier, appendBlocks[i], strict);
      AppendKeepsPositive(newFrontier, appendBlocks[i], strict);
      if appended.Err? {
        return Err(appended.error);
      }
      newFrontier := appended.value;
    }
    assert appendBlocks[|appendBlocks|..] == [];
    return Ok(newFrontier);
  }

  method CheckFrontier<C(==)>(oldSize: int, newSize: int, oldRoot: Hash<C>, newRoot: Hash<C>,
                              oldFrontier: seq<Block<C>>, appendBlocks: seq<Block<C>>, strict: bool)
    returns (r: Result<(), FrontierError>)
    requires 0 < oldSize < newSize
    ensures r == FrontierVerdict(oldSize, newSize, oldRoot, newRoot, oldFrontier, appendBlocks, strict)
  {
    var oldShapes := PrefixBlockShapes(oldSize);
    if !ValidBlockShapes(oldFrontier, oldShapes.value, strict) {
      return Err(OldFrontierInvalid);
    }
    PrefixShapesBag(oldFrontier, oldSize);
    var bagged := BagFrontierToMembershipRoot(oldFrontier);
    assert bagged.Ok?;  // so the raise inside bagging is dead here
    if bagged.value != oldRoot {
      return Err(OldRootMismatch);
    }
    var suffixShapes := SuffixBlockShapes(oldSize, newSize);
    if !ValidBlockShapes(appendBlocks, suffixShapes.value, strict) {
      return Err(AppendBlocksInvalid);
    }
    ShapesSuffice(oldSize, newSize, oldFrontier, appendBlocks, strict);
    var appended := FoldAppendBlocks(oldFrontier, appendBlocks, strict);
    assert appended.Ok?;  // so the raises inside appending are dead here
    var newFrontier := appended.value;
    var newShapes := PrefixBlockShapes(newSize);
    if !ValidBlockShapes(newFrontier, newShapes.value, strict) {
      return Err(NewFrontierInvalid);
    }
    PrefixShapesBag(newFrontier, newSize);
    bagged := BagFrontierToMembershipRoot(newFrontier);
    if bagged.value != newRoot {
      return Err(NewRootMismatch);
    }
    return Ok(());
  }

  // ---------------------------------------------------------------- main theorems

  lemma {:induction false} PeaksHaveShapes<C>(leaves: seq<Hash<C>>, c: nat)
    requires c <= |leaves|
    ensures HasShapes(Peaks(leaves, c), PrefixShapes(c))
    decreases c
  {
    if c > 0 {
      PeaksHaveShapes(leaves, c - LowBit(c));
    }
  }

  lemma ShapesAgree<C>(a: seq<Block<C>>, b: seq<Block<C>>, shapes: seq<Shape>)
    requires HasShapes(a, shapes) && HasShapes(b, shapes)
    ensures SameShapes(a, b)
  {
  }

  /** A well-shaped frontier that bags to the root of a list is the list's own frontier. */
  lemma RootDeterminesFrontier<C>(leaves: seq<Hash<C>>, frontier: seq<Block<C>>)
    requires |leaves| > 0 && PositiveSizes(frontier) && HasShapes(frontier, PrefixShapes(|leaves|))
    requires Bag(frontier) == Ok(Root(leaves))
    ensures frontier == Peaks(leaves, |leaves|)
  {
    PeaksHaveShapes(leaves, |leaves|);
    ShapesAgree(frontier, Peaks(leaves, |leaves|), PrefixShapes(|leaves|));
    BagIsRoot(leaves);
    BagInjective(frontier, Peaks(leaves, |leaves|));
  }

  /** Appending well-shaped suffix blocks can only reach the peaks of a list from its own earlier peaks. */
  lemma PeaksDeterminePast<C>(leaves: seq<Hash<C>>, m: nat, frontier: seq<Block<C>>, blocks: seq<Block<C>>,
                              strict: bool)
    requires 0 < m < |leaves| && AllAdmissible(leaves, strict)
    requires PositiveSizes(frontier) && HasShapes(frontier, PrefixShapes(m))
    requires HasShapes(blocks, SuffixShapes(m, |leaves|))
    requires AppendAll(frontier, blocks, strict) == Ok(Peaks(leaves, |leaves|))
    ensures frontier == Peaks(leaves, m)
    ensures InRange(SuffixShapes(m, |leaves|), |leaves|)
    ensures blocks == Blocks(leaves, SuffixShapes(m, |leaves|))
  {
    var n := |leaves|;
    SuffixTiles(m, n);
    TilesInRange(SuffixShapes(m, n), m, n);
    PeaksHaveShapes(leaves, m);
    ShapesAgree(frontier, Peaks(leaves, m), PrefixShapes(m));
    BlocksHaveShapes(leaves, SuffixShapes(m, n));
    ShapesAgree(blocks, Blocks(leaves, SuffixShapes(m, n)), SuffixShapes(m, n));
    AppendReachesPeaks(leaves, m, n, strict);
    AppendAllInjective(frontier, blocks, Peaks(leaves, m), Blocks(leaves, SuffixShapes(m, n)), strict);
  }

  lemma AcceptedParts<C>(m: nat, n: nat, oldRoot: Hash<C>, newRoot: Hash<C>, oldFrontier: seq<Block<C>>,
                         appendBlocks: seq<Block<C>>, strict: bool)
    requires 0 < m < n && FrontierAccepts(m, n, oldRoot, newRoot, oldFrontier, appendBlocks, strict)
    ensures PositiveSizes(oldFrontier) && HasShapes(oldFrontier, PrefixShapes(m)) && Bag(oldFrontier) == Ok(oldRoot)
    ensures HasShapes(appendBlocks, SuffixShapes(m, n)) && AppendAll(oldFrontier, appendBlocks, strict).Ok?
    ensures var reached := AppendAll(oldFrontier, appendBlocks, strict).value;
            PositiveSizes(reached) && HasShapes(reached, PrefixShapes(n)) && Bag(reached) == Ok(newRoot)
  {
    ShapesSuffice(m, n, oldFrontier, appendBlocks, strict);
  }

  lemma PartsDetermine<C>(prior: seq<Hash<C>>, later: seq<Hash<C>>, oldFrontier: seq<Block<C>>,
                          appendBlocks: seq<Block<C>>, reached: seq<Block<C>>, strict: bool)
    requires 0 < |prior| < |later| && AllAdmissible(later, strict)
    requires PositiveSizes(oldFrontier) && HasShapes(oldFrontier, PrefixShapes(|prior|))
    requires Bag(oldFrontier) == Ok(Root(prior))
    requires HasShapes(appendBlocks, SuffixShapes(|prior|, |later|))
    requires AppendAll(oldFrontier, appendBlocks, strict) == Ok(reached)
    requires PositiveSizes(reached) && HasShapes(reached, PrefixShapes(|later|)) && Bag(reached) == Ok(Root(later))
    ensures prior == later[..|prior|]
    ensures oldFrontier == Peaks(prior, |prior|)
    ensures InRange(SuffixShapes(|prior|, |later|), |later|)
    ensures appendBlocks == Blocks(later, SuffixShapes(|prior|, |later|))
  {
    hide Blocks, Bag, AppendAll, Peaks, Root, SuffixShapes, PrefixShapes, AllAdmissible, HasShapes;
    RootDeterminesFrontier(prior, oldFrontier);
    RootDeterminesFrontier(later, reached);
    PeaksDeterminePast(later, |prior|, oldFrontier, appendBlocks, strict);
    PeaksInjective(prior, later, |prior|);
    assert prior[..|prior|] == prior;
  }

  /** Soundness: acceptance against the roots of two leaf lists forces the old list to be the prefix of the new one,
      and the proof blocks to be the tree's own blocks. */
  lemma AppendOnlySound<C>(prior: seq<Hash<C>>, later: seq<Hash<C>>, oldFrontier: seq<Block<C>>,
                           appendBlocks: seq<Block<C>>, strict: bool)
    requires 0 < |prior| < |later| && AllAdmissible(later, strict)
    requires FrontierAccepts(|prior|, |later|, Root(prior), Root(later), oldFrontier, appendBlocks, strict)
    ensures prior == later[..|prior|]
    ensures oldFrontier == Peaks(prior, |prior|)
    ensures InRange(SuffixShapes(|prior|, |later|), |later|)
    ensures appendBlocks == Blocks(later, SuffixShapes(|prior|, |later|))
  {
    AcceptedParts(|prior|, |later|, Root(prior), Root(later), oldFrontier, appendBlocks, strict);
    PartsDetermine(prior, later, oldFrontier, appendBlocks, AppendAll(oldFrontier, appendBlocks, strict).value, strict);
  }

  lemma {:induction false} ValidBlocks<C>(leaves: seq<Hash<C>>, shapes: seq<Shape>, strict: bool)
    requires InRange(shapes, |leaves|) && AllAdmissible(leaves, strict)
    ensures ValidBlockShapes(Blocks(leaves, shapes), shapes, strict)
  {
    if shapes != [] {
      AndPredecessorIsPow2(shapes[0].size);
      PeaksAdmissible(leaves, shapes[0].start, shapes[0].size, strict);
      ValidBlocks(leaves, shapes[1..], strict);
    }
  }

  /** The builder's old frontier is the new list's own frontier at the old size. */
  lemma BuiltFrontier<C>(later: seq<Hash<C>>, m: nat, strict: bool)
    requires 0 < m <= |later| && AllAdmissible(later, strict)
    ensures BuildBlocks(later[..m], PrefixShapes(m), strict) == Ok(Peaks(later, m))
    ensures ValidBlockShapes(Peaks(later, m), PrefixShapes(m), strict)
  {
    PrefixShapesExact(m);
    TilesInRange(PrefixShapes(m), 0, m);
    BuildBlocksExact(later[..m], PrefixShapes(m), 0, m, strict);
    PeaksAreBlocks(later[..m], m);
    PeaksOfPrefix(later, m, m);
    ValidBlocks(later[..m], PrefixShapes(m), strict);
  }

  /** Completeness: the blocks the builder computes from a list and one of its proper prefixes are always accepted. */
  lemma AppendOnlyComplete<C>(later: seq<Hash<C>>, m: nat, strict: bool)
    requires 0 < m < |later| && AllAdmissible(later, strict)
    ensures BuildBlocks(later[..m], PrefixShapes(m), strict).Ok?
    ensures BuildBlocks(later, SuffixShapes(m, |later|), strict).Ok?
    ensures FrontierAccepts(m, |later|, Root(later[..m]), Root(later),
                            BuildBlocks(later[..m], PrefixShapes(m), strict).value,
                            BuildBlocks(later, SuffixShapes(m, |later|), strict).value, strict)
  {
    var n := |later|;
    BuiltFrontier(later, m, strict);
    BuiltFrontier(later, n, strict);
    SuffixTiles(m, n);
    BuildBlocksExact(later, SuffixShapes(m, n), m, n, strict);
    ValidBlocks(later, SuffixShapes(m, n), strict);
    BagIsRoot(later[..m]);
    PeaksOfPrefix(later, m, m);
    BagIsRoot(later);
    AppendReachesPeaks(later, m, n, strict);
  }

  ghost predicate Provable<C(!new)>(m: nat, n: nat, oldRoot: Hash<C>, newRoot: Hash<C>, strict: bool)
    requires 0 < m < n
  {
    exists oldFrontier, appendBlocks :: FrontierAccepts(m, n, oldRoot, newRoot, oldFrontier, appendBlocks, strict)
  }

  /** Exactness: some proof is accepted for two roots exactly when the old leaf list is a prefix of the new one. */
  lemma AppendOnlyExact<C(!new)>(prior: seq<Hash<C>>, later: seq<Hash<C>>, strict: bool)
    requires 0 < |prior| < |later| && AllAdmissible(later, strict)
    ensures Provable(|prior|, |later|, Root(prior), Root(later), strict) <==> prior == later[..|prior|]
  {
    if Provable(|prior|, |later|, Root(prior), Root(later), strict) {
      var oldFrontier, appendBlocks :|
        FrontierAccepts(|prior|, |later|, Root(prior), Root(later), oldFrontier, appendBlocks, strict);
      AppendOnlySound(prior, later, oldFrontier, appendBlocks, strict);
    }
    if prior == later[..|prior|] {
      AppendOnlyComplete(later, |prior|, strict);
    }
  }

  /** Whatever the two roots are, one pair of sizes and roots has at most one accepted frontier and block list. */
  lemma FrontierIsUnique<C>(m: nat, n: nat, oldRoot: Hash<C>, newRoot: Hash<C>, f: seq<Block<C>>, bs: seq<Block<C>>,
                            g: seq<Block<C>>, cs: seq<Block<C>>, strict: bool)
    requires 0 < m < n
    requires FrontierAccepts(m, n, oldRoot, newRoot, f, bs, strict)
             && FrontierAccepts(m, n, oldRoot, newRoot, g, cs, strict)
    ensures f == g && bs == cs
  {
    hide FrontierAccepts, PrefixShapes, SuffixShapes, AppendAll, Bag;
    AcceptedParts(m, n, oldRoot, newRoot, f, bs, strict);
    AcceptedParts(m, n, oldRoot, newRoot, g, cs, strict);
    ShapesAgree(f, g, PrefixShapes(m));
    ShapesAgree(bs, cs, SuffixShapes(m, n));
    var reachedF, reachedG := AppendAll(f, bs, strict).value, AppendAll(g, cs, strict).value;
    ShapesAgree(reachedF, reachedG, PrefixShapes(n));
    BagInjective(reachedF, reachedG);
    AppendAllInjective(f, bs, g, cs, strict);
  }
}
