/** Dyadic block shapes: the peaks of a prefix and the blocks that extend one prefix to a longer one. */
module BlockShapes {
  import opened Prelude
  import opened Bits

  datatype Shape = Shape(start: nat, size: nat)

  datatype ShapeError = TreeSizeInvalid | AppendRangeInvalid

  /** Consecutive blocks from lo to hi, each a power of two long and starting at a multiple of its size. */
  predicate Tiles(shapes: seq<Shape>, lo: nat, hi: nat) {
    if shapes == [] then lo == hi
    else
      && shapes[0].start == lo
      && IsPow2(shapes[0].size)
      && Aligned(lo, shapes[0].size)
      && Tiles(shapes[1..], lo + shapes[0].size, hi)
  }

  predicate Increasing(shapes: seq<Shape>) {
    forall i, j :: 0 <= i < j < |shapes| ==> shapes[i].size < shapes[j].size
  }

  predicate Decreasing(shapes: seq<Shape>) {
    forall i, j :: 0 <= i < j < |shapes| ==> shapes[i].size > shapes[j].size
  }

  // ---------------------------------------------------------------- prefix shapes

  /** The peaks of n leaves, read from the lowest set bit: the last peak is the lowest set bit of n. */
  function PrefixShapes(n: nat): seq<Shape> {
    if n == 0 then [] else PrefixShapes(n - LowBit(n)) + [Shape(n - LowBit(n), LowBit(n))]
  }

  /** The peaks from the highest set bit, as the loop finds them. */
  function PrefixFrom(start: nat, remaining: nat): seq<Shape>
    decreases remaining
  {
    if remaining == 0 then []
    else
      var size := FloorPow2(remaining);
      [Shape(start, size)] + PrefixFrom(start + size, remaining - size)
  }

  lemma PrefixFromStep(start: nat, remaining: nat)
    ensures remaining == 0 ==> PrefixFrom(start, remaining) == []
    ensures remaining > 0 ==>
              var size := FloorPow2(remaining);
              PrefixFrom(start, remaining) == [Shape(start, size)] + PrefixFrom(start + size, remaining - size)
  {
  }

  lemma {:induction false} PrefixFromLast(start: nat, remaining: nat)
    requires remaining > 0
    ensures PrefixFrom(start, remaining)
         == PrefixFrom(start, remaining - LowBit(remaining))
            + [Shape(start + remaining - LowBit(remaining), LowBit(remaining))]
    decreases remaining
  {
    hide PrefixFrom, LowBit, FloorPow2, Aligned, IsPow2;
    var high, low := FloorPow2(remaining), LowBit(remaining);
    PrefixFromStep(start, remaining);
    PrefixFromStep(start, remaining - low);
    if remaining == high {
      Pow2Floor(remaining);
      PrefixFromStep(start + high, 0);
    } else {
      HighLow(remaining);
      PrefixFromLast(start + high, remaining - high);
    }
  }

  lemma {:induction false} HighestFirst(n: nat)
    ensures PrefixFrom(0, n) == PrefixShapes(n)
  {
    if n > 0 {
      PrefixFromLast(0, n);
      HighestFirst(n - LowBit(n));
    }
  }

  method PrefixBlockShapes(treeSize: int) returns (r: Result<seq<Shape>, ShapeError>)
    ensures r.Ok? <==> treeSize > 0
    ensures r.Ok? ==> r.value == PrefixShapes(treeSize)
  {
    if treeSize <= 0 {
      return Err(ShapeError.TreeSizeInvalid);
    }
    var blocks := [];
    var start, remaining := 0, treeSize;
    while remaining != 0
      invariant start >= 0 && remaining >= 0
      invariant blocks + PrefixFrom(start, remaining) == PrefixFrom(0, treeSize)
    {
      BitLengthShift(remaining);
      var size := Pow2(BitLength(remaining) - 1);
      assert PrefixFrom(start, remaining)[0] == Shape(start, size);
      blocks := blocks + [Shape(start, size)];
      start := start + size;
      remaining := remaining - size;
    }
    HighestFirst(treeSize);
    return Ok(blocks);
  }

  lemma {:induction false} TilesAppend(shapes: seq<Shape>, lo: nat, mid: nat, last: Shape)
    requires Tiles(shapes, lo, mid)
    requires last.start == mid && IsPow2(last.size) && Aligned(mid, last.size)
    ensures Tiles(shapes + [last], lo, mid + last.size)
  {
    if shapes != [] {
      TilesAppend(shapes[1..], lo + shapes[0].size, mid, last);
      assert (shapes + [last])[1..] == shapes[1..] + [last];
    }
  }

  /** The peaks tile [0, n), shrink strictly, and there is exactly one per set bit of n. */
  lemma {:induction false} PrefixShapesExact(n: nat)
    ensures Tiles(PrefixShapes(n), 0, n)
    ensures Decreasing(PrefixShapes(n))
    ensures |PrefixShapes(n)| == PopCount(n)
    ensures n > 0 ==> PrefixShapes(n)[|PrefixShapes(n)| - 1].size == LowBit(n)
  {
    if n > 0 {
      var low := LowBit(n);
      PrefixShapesExact(n - low);
      LowBitRemoval(n);
      LowBitAligned(n);
      AlignedSmaller(n - low, 2 * low, low);
      TilesAppend(PrefixShapes(n - low), 0, n - low, Shape(n - low, low));
      if n > low {
        AlignedBelowLowBit(n - low, 2 * low);
        var shorter := PrefixShapes(n - low);
        assert forall i :: 0 <= i < |shorter| ==> shorter[i].size >= shorter[|shorter| - 1].size;
      }
    }
  }

  // ---------------------------------------------------------------- suffix shapes

  function Shrink(size: nat, remaining: nat): (r: nat)
    requires IsPow2(size) && remaining > 0
    ensures IsPow2(r) && r <= remaining && r <= size
    decreases size
  {
    if size <= remaining then size else Shrink(size / 2, remaining)
  }

  function SuffixSize(cursor: nat, remaining: nat): (r: nat)
    requires remaining > 0
    ensures IsPow2(r) && r <= remaining
  {
    if cursor == 0 then FloorPow2(remaining) else Shrink(LowBit(cursor), remaining)
  }

  /** The blocks that extend a prefix of `cursor` leaves to one of `end` leaves. */
  function SuffixShapes(cursor: nat, end: nat): seq<Shape>
    decreases end - cursor
  {
    if cursor >= end then []
    else
      var size := SuffixSize(cursor, end - cursor);
      [Shape(cursor, size)] + SuffixShapes(cursor + size, end)
  }

  /** The body of the outer loop: the block size at one cursor, from `cursor & -cursor` and repeated halving. */
  method SuffixBlockSize(cursor: int, remaining: int) returns (size: nat)
    requires cursor >= 0 && remaining > 0
    ensures size == SuffixSize(cursor, remaining)
  {
    if cursor == 0 {
      BitLengthShift(remaining);
      size := Pow2(BitLength(remaining) - 1);
    } else {
      AndNegateIsLowBit(cursor);
      size := And(cursor, -cursor);
    }
    while size > remaining
      invariant IsPow2(size)
      invariant Shrink(size, remaining) == SuffixSize(cursor, remaining)
    {
      size := size / 2;
    }
  }

  method SuffixBlockShapes(start: int, end: int) returns (r: Result<seq<Shape>, ShapeError>)
    ensures r.Ok? <==> 0 <= start < end
    ensures r.Ok? ==> r.value == SuffixShapes(start, end)
  {
    if start < 0 || end <= start {
      return Err(AppendRangeInvalid);
    }
    var blocks := [];
    var cursor := start;
    while cursor < end
      invariant start <= cursor
      invariant blocks + SuffixShapes(cursor, end) == SuffixShapes(start, end)
    {
      var size := SuffixBlockSize(cursor, end - cursor);
      assert SuffixShapes(cursor, end)[0] == Shape(cursor, size);
      blocks := blocks + [Shape(cursor, size)];
      cursor := cursor + size;
    }
    return Ok(blocks);
  }

  lemma {:induction false} SuffixSizeAligned(cursor: nat, remaining: nat)
    requires remaining > 0
    ensures Aligned(cursor, SuffixSize(cursor, remaining))
  {
    if cursor == 0 {
      AlignedZero(FloorPow2(remaining));
    } else {
      LowBitAligned(cursor);
      AlignedSmaller(cursor, LowBit(cursor), SuffixSize(cursor, remaining));
    }
  }

  lemma {:induction false} SuffixTiles(cursor: nat, end: nat)
    requires cursor <= end
    ensures Tiles(SuffixShapes(cursor, end), cursor, end)
    decreases end - cursor
  {
    if cursor < end {
      SuffixSizeAligned(cursor, end - cursor);
      SuffixTiles(cursor + SuffixSize(cursor, end - cursor), end);
    }
  }

  lemma {:induction false} ShrinkIsFloor(size: nat, remaining: nat)
    requires IsPow2(size) && remaining > 0 && size > remaining
    ensures Shrink(size, remaining) == FloorPow2(remaining)
    decreases size
  {
    if size / 2 <= remaining {
      var f := FloorPow2(remaining);
      if size / 2 < f {
        Pow2Gap(size / 2, f);
      } else if f < size / 2 {
        Pow2Gap(f, size / 2);
      }
    } else {
      ShrinkIsFloor(size / 2, remaining);
    }
  }

  /** The number of leading blocks taken at full lowest-bit size. */
  function Turn(cursor: nat, end: nat): nat
    requires cursor > 0
    decreases end - cursor
  {
    if cursor < end && LowBit(cursor) <= end - cursor then 1 + Turn(cursor + LowBit(cursor), end) else 0
  }

  /** Once it no longer fits, the next block is the largest power of two that does. */
  lemma FloorStep(cursor: nat, end: nat)
    requires 0 < cursor < end && LowBit(cursor) > end - cursor
    ensures var f := FloorPow2(end - cursor);
            && SuffixShapes(cursor, end) == [Shape(cursor, f)] + SuffixShapes(cursor + f, end)
            && LowBit(cursor + f) == f
  {
    hide LowBit, FloorPow2, IsPow2, Aligned;
    ShrinkIsFloor(LowBit(cursor), end - cursor);
    LowBitAdd(cursor, FloorPow2(end - cursor));
  }

  lemma {:induction false} ShrinkingPhase(cursor: nat, end: nat)
    requires 0 < cursor <= end && (cursor < end ==> LowBit(cursor) > end - cursor)
    ensures Decreasing(SuffixShapes(cursor, end))
    ensures |SuffixShapes(cursor, end)| <= BitLength(end - cursor)
    ensures forall i :: 0 <= i < |SuffixShapes(cursor, end)| ==> SuffixShapes(cursor, end)[i].size <= end - cursor
    decreases end - cursor
  {
    hide LowBit, FloorPow2, IsPow2, Aligned, SuffixSize;
    if cursor < end {
      var remaining := end - cursor;
      var f := FloorPow2(remaining);
      FloorStep(cursor, end);
      ShrinkingPhase(cursor + f, end);
      BitLengthMonotone(remaining - f, remaining / 2);
    }
  }

  lemma {:induction false} BitLengthBelow(small: nat, large: nat)
    requires 0 < small && 2 * small <= large
    ensures BitLength(small) + 1 <= BitLength(large)
  {
    BitLengthMonotone(small, large / 2);
  }

  /** While the lowest set bit fits, the next block has exactly that size. */
  lemma FullStep(cursor: nat, end: nat)
    requires 0 < cursor < end && LowBit(cursor) <= end - cursor
    ensures SuffixShapes(cursor, end) == [Shape(cursor, LowBit(cursor))] + SuffixShapes(cursor + LowBit(cursor), end)
    ensures Turn(cursor, end) == 1 + Turn(cursor + LowBit(cursor), end)
  {
    hide LowBit;
  }

  lemma NoStep(cursor: nat, end: nat)
    requires 0 < cursor <= end && (cursor < end ==> LowBit(cursor) > end - cursor)
    ensures Turn(cursor, end) == 0
    ensures cursor == end ==> SuffixShapes(cursor, end) == []
  {
    hide LowBit;
  }

  lemma {:induction false} GrowingPhase(cursor: nat, end: nat)
    requires 0 < cursor <= end
    ensures Turn(cursor, end) <= |SuffixShapes(cursor, end)|
    ensures Increasing(SuffixShapes(cursor, end)[..Turn(cursor, end)])
    ensures Decreasing(SuffixShapes(cursor, end)[Turn(cursor, end)..])
    ensures forall i :: 0 <= i < Turn(cursor, end) ==> SuffixShapes(cursor, end)[i].size >= LowBit(cursor)
    ensures |SuffixShapes(cursor, end)| - Turn(cursor, end) <= BitLength(end - cursor)
    ensures Turn(cursor, end) > 0 ==> Turn(cursor, end) + BitLength(LowBit(cursor)) <= BitLength(end - cursor) + 1
    decreases end - cursor
  {
    hide LowBit, SuffixShapes, Turn, BitLength, IsPow2, Aligned;
    var low, remaining := LowBit(cursor), end - cursor;
    if cursor < end && low <= remaining {
      var next := cursor + low;
      FullStep(cursor, end);
      GrowingPhase(next, end);
      LowBitCarry(cursor);
      BitLengthMonotone(remaining - low, remaining);
      BitLengthMonotone(low, remaining);
      BitLengthBelow(low, LowBit(next));
      var rest := SuffixShapes(next, end);
      assert SuffixShapes(cursor, end)[..Turn(cursor, end)] == [Shape(cursor, low)] + rest[..Turn(next, end)];
      assert SuffixShapes(cursor, end)[Turn(cursor, end)..] == rest[Turn(next, end)..];
    } else {
      NoStep(cursor, end);
      assert SuffixShapes(cursor, end)[0..] == SuffixShapes(cursor, end);
      if cursor < end {
        ShrinkingPhase(cursor, end);
      }
    }
  }

  /** Extending m leaves to n: a dyadic tiling of [m, n) whose sizes first grow strictly and then shrink strictly,
      so at most two blocks per bit of n - m. The last growing and the first shrinking block may be equal. */
  lemma SuffixShapesExact(m: nat, n: nat)
    requires 0 < m < n
    ensures Tiles(SuffixShapes(m, n), m, n)
    ensures Turn(m, n) <= |SuffixShapes(m, n)|
    ensures Increasing(SuffixShapes(m, n)[..Turn(m, n)]) && Decreasing(SuffixShapes(m, n)[Turn(m, n)..])
    ensures |SuffixShapes(m, n)| <= 2 * BitLength(n - m)
  {
    SuffixTiles(m, n);
    GrowingPhase(m, n);
    BitLengthMonotone(1, LowBit(m));
  }

  /** The growing and the shrinking phase can meet in two blocks of one size. */
  lemma SuffixSizesMayRepeat()
    ensures SuffixShapes(4, 12) == [Shape(4, 4), Shape(8, 4)]
  {
    assert SuffixShapes(12, 12) == [];
    assert LowBit(2) == 2 * LowBit(1) && LowBit(4) == 2 * LowBit(2) && LowBit(8) == 2 * LowBit(4);
    assert Shrink(8, 4) == Shrink(4, 4) == 4;
    assert SuffixShapes(8, 12) == [Shape(8, 4)] + SuffixShapes(12, 12);
    assert SuffixShapes(4, 12) == [Shape(4, 4)] + SuffixShapes(8, 12);
  }

  // ---------------------------------------------------------------- when the sizes have one strict peak

  /** Where the lowest set bit stops fitting: the end of the growing blocks. */
  function Pivot(cursor: nat, end: nat): nat
    requires cursor > 0
    decreases end - cursor
  {
    if cursor < end && LowBit(cursor) <= end - cursor then Pivot(cursor + LowBit(cursor), end) else cursor
  }

  /** Strictly growing up to block k and strictly shrinking from it. */
  predicate PeakAt(shapes: seq<Shape>, k: nat) {
    k < |shapes| && Increasing(shapes[..k + 1]) && Decreasing(shapes[k..])
  }

  /** The stretches on both sides of the pivot have the same bit length. */
  predicate BalancedAtPivot(m: nat, n: nat)
    requires 0 < m
  {
    m < Pivot(m, n) < n && FloorPow2(Pivot(m, n) - m) == FloorPow2(n - Pivot(m, n))
  }

  lemma {:induction false} LastGrowing(cursor: nat, end: nat)
    requires 0 < cursor <= end
    ensures cursor <= Pivot(cursor, end) <= end
    ensures Turn(cursor, end) <= |SuffixShapes(cursor, end)|
    ensures Turn(cursor, end) == 0 <==> Pivot(cursor, end) == cursor
    ensures SuffixShapes(cursor, end)[Turn(cursor, end)..] == SuffixShapes(Pivot(cursor, end), end)
    ensures Pivot(cursor, end) < end ==> LowBit(Pivot(cursor, end)) > end - Pivot(cursor, end)
    ensures Turn(cursor, end) > 0 ==>
              var size := SuffixShapes(cursor, end)[Turn(cursor, end) - 1].size;
              IsPow2(size) && size <= Pivot(cursor, end) - cursor <= 2 * size - LowBit(cursor)
    decreases end - cursor
  {
    hide LowBit, SuffixShapes, Turn, IsPow2, Aligned;
    var low := LowBit(cursor);
    if cursor < end && low <= end - cursor {
      FullStep(cursor, end);
      LowBitCarry(cursor);
      LastGrowing(cursor + low, end);
    } else {
      NoStep(cursor, end);
    }
  }

  lemma FloorPow2Unique(n: nat, size: nat)
    requires IsPow2(size) && size <= n < 2 * size
    ensures FloorPow2(n) == size
  {
    if size < FloorPow2(n) {
      Pow2Gap(size, FloorPow2(n));
    } else if FloorPow2(n) < size {
      Pow2Gap(FloorPow2(n), size);
    }
  }

  /** The last growing and the first shrinking block have the same size exactly when the pivot is balanced. */
  lemma PivotSizes(m: nat, n: nat)
    requires 0 < m < n && 0 < Turn(m, n) < |SuffixShapes(m, n)|
    ensures BalancedAtPivot(m, n)
       <==> SuffixShapes(m, n)[Turn(m, n) - 1].size == SuffixShapes(m, n)[Turn(m, n)].size
  {
    hide SuffixShapes, Turn, IsPow2, Aligned, LowBit, Pivot;
    var pivot, t := Pivot(m, n), Turn(m, n);
    LastGrowing(m, n);
    LowBitPositive(m);
    FloorPow2Unique(pivot - m, SuffixShapes(m, n)[t - 1].size);
    assert SuffixShapes(m, n)[t] == SuffixShapes(m, n)[t..][0];
    if pivot < n {
      FloorStep(pivot, n);
    } else {
      NoStep(pivot, n);
    }
  }

  lemma LowBitPositive(n: nat)
    requires n > 0
    ensures LowBit(n) >= 1
  {
  }

  /** The number in [m, n] with the greatest lowest set bit, in closed form: m when its bits below the highest differing
      bit are zero, and otherwise n with its bits below that bit cleared. */
  function MostAligned(m: nat, n: nat): nat
    requires m < n
  {
    var bit := HighestDifference(m, n);
    if m % bit == 0 then m else ClearBelow(n, bit)
  }

  /** It is the only one: every other number in [m, n] has a smaller lowest set bit. */
  lemma MostAlignedExact(m: nat, n: nat)
    requires 0 < m < n
    ensures m <= MostAligned(m, n) <= n
    ensures forall x :: m <= x <= n && x != MostAligned(m, n) ==> LowBit(x) < LowBit(MostAligned(m, n))
  {
    hide LowBit, Aligned, IsPow2, HighestDifference;
    var bit, c := HighestDifference(m, n), MostAligned(m, n);
    var base := DifferenceBase(m, n);
    DifferenceRemainders(m, n, base);
    PeakLowBit(base, bit);
    forall x | m <= x <= n && x != c ensures LowBit(x) < LowBit(c) {
      OtherLowBit(base, bit, x);
    }
  }

  lemma PeakLowBit(base: nat, bit: nat)
    requires IsPow2(bit) && IsPow2(2 * bit) && Aligned(base, 2 * bit)
    ensures LowBit(base + bit) == bit
    ensures base > 0 ==> LowBit(base) >= 2 * bit
  {
    if base > 0 {
      AlignedBelowLowBit(base, 2 * bit);
    }
    LowBitAdd(base, bit);
  }

  lemma OtherLowBit(base: nat, bit: nat, x: nat)
    requires IsPow2(bit) && IsPow2(2 * bit) && Aligned(base, 2 * bit)
    requires base < x < base + 2 * bit
    ensures LowBit(x) <= bit && (x != base + bit ==> LowBit(x) < bit)
  {
    hide LowBit, Aligned, IsPow2;
    LowBitOffset(base, x - base, 2 * bit);
    PeakLowBit(base, bit);
    if x > base + bit {
      AlignedSmaller(base, 2 * bit, bit);
      OffsetLowBit(bit, x - base - bit);
    }
  }

  lemma OffsetLowBit(bit: nat, z: nat)
    requires IsPow2(bit) && 0 < z < bit
    ensures LowBit(bit + z) == LowBit(z)
  {
    SelfAligned(bit);
    LowBitOffset(bit, z, bit);
  }

  lemma {:induction false} SelfAligned(bit: nat)
    requires IsPow2(bit)
    ensures Aligned(bit, bit)
  {
    if bit > 1 {
      SelfAligned(bit / 2);
    }
  }

  /** The growing blocks end at that number. */
  lemma {:induction false} PivotIsMaximal(cursor: nat, end: nat, x: nat)
    requires 0 < cursor <= x <= end && x != Pivot(cursor, end)
    ensures cursor <= Pivot(cursor, end) <= end
    ensures LowBit(x) < LowBit(Pivot(cursor, end))
    decreases end - cursor
  {
    hide LowBit, IsPow2, Aligned;
    var low := LowBit(cursor);
    if cursor < end && low <= end - cursor {
      var next := cursor + low;
      LowBitCarry(cursor);
      LastGrowing(next, end);
      if next <= x {
        PivotIsMaximal(next, end, x);
      } else {
        if next != Pivot(next, end) {
          PivotIsMaximal(next, end, next);
        }
        if cursor < x {
          WithinLowBit(cursor, x);
        }
      }
    } else {
      WithinLowBit(cursor, x);
    }
  }

  lemma WithinLowBit(cursor: nat, x: nat)
    requires 0 < cursor < x < cursor + LowBit(cursor)
    ensures LowBit(x) < LowBit(cursor)
  {
    LowBitAligned(cursor);
    LowBitOffset(cursor, x - cursor, LowBit(cursor));
  }

  lemma PivotIsMostAligned(m: nat, n: nat)
    requires 0 < m < n
    ensures Pivot(m, n) == MostAligned(m, n)
  {
    hide LowBit, Pivot, MostAligned;
    MostAlignedExact(m, n);
    LastGrowing(m, n);
    if Pivot(m, n) != MostAligned(m, n) {
      PivotIsMaximal(m, n, MostAligned(m, n));
    }
  }

  /** Both m and n have set bits below their highest differing bit, and the distance from m up to that bit's multiple
      has the same bit length as the distance from there up to n. */
  predicate Balanced(m: nat, n: nat)
    requires m < n
  {
    var bit := HighestDifference(m, n);
    m % bit != 0 && n % bit != 0 && FloorPow2(bit - m % bit) == FloorPow2(n % bit)
  }

  lemma BalancedExact(m: nat, n: nat)
    requires 0 < m < n
    ensures BalancedAtPivot(m, n) <==> Balanced(m, n)
  {
    hide HighestDifference, Pivot, FloorPow2, Aligned, IsPow2;
    PivotIsMostAligned(m, n);
    var base := DifferenceBase(m, n);
    DifferenceRemainders(m, n, base);
  }

  /** Exactly when the block sizes strictly grow to one peak and then strictly shrink. */
  lemma StrictPeakExact(m: nat, n: nat)
    requires 0 < m < n
    ensures (exists k :: PeakAt(SuffixShapes(m, n), k)) <==> !Balanced(m, n)
  {
    hide SuffixShapes, Turn, BalancedAtPivot, Balanced;
    var shapes, t := SuffixShapes(m, n), Turn(m, n);
    SuffixShapesExact(m, n);
    SuffixNotEmpty(m, n);
    PhasesHavePeak(shapes, t);
    BalancedExact(m, n);
    if 0 < t < |shapes| {
      PivotSizes(m, n);
    } else {
      OneSidedPivot(m, n);
    }
  }

  lemma SuffixNotEmpty(m: nat, n: nat)
    requires m < n
    ensures SuffixShapes(m, n) != []
  {
  }

  lemma OneSidedPivot(m: nat, n: nat)
    requires 0 < m < n && (Turn(m, n) == 0 || Turn(m, n) == |SuffixShapes(m, n)|)
    ensures !BalancedAtPivot(m, n)
  {
    hide SuffixShapes, Turn, FloorPow2, IsPow2, LowBit;
    LastGrowing(m, n);
    if Pivot(m, n) < n {
      SuffixNotEmpty(Pivot(m, n), n);
    }
  }

  /** A strictly growing prefix and a strictly shrinking rest have one strict peak unless they meet in equal sizes. */
  lemma PhasesHavePeak(shapes: seq<Shape>, t: nat)
    requires shapes != [] && t <= |shapes| && Increasing(shapes[..t]) && Decreasing(shapes[t..])
    ensures (exists k :: PeakAt(shapes, k)) <==> t == 0 || t == |shapes| || shapes[t - 1].size != shapes[t].size
  {
    if t == 0 {
      assert PeakAt(shapes, 0);
    } else if t == |shapes| {
      assert shapes[..t] == shapes;
      assert PeakAt(shapes, t - 1);
    } else if shapes[t - 1].size < shapes[t].size {
      assert PeakAt(shapes, t);
    } else if shapes[t - 1].size > shapes[t].size {
      assert PeakAt(shapes, t - 1);
    } else {
      forall k | PeakAt(shapes, k) ensures false {
        NoPeakOverRepeat(shapes, t, k);
      }
    }
  }

  lemma NoPeakOverRepeat(shapes: seq<Shape>, t: nat, k: nat)
    requires 0 < t < |shapes| && shapes[t - 1].size == shapes[t].size
    ensures !PeakAt(shapes, k)
  {
    if k < |shapes| {
      if t <= k {
        assert shapes[..k + 1][t - 1] == shapes[t - 1] && shapes[..k + 1][t] == shapes[t];
      } else {
        assert shapes[k..][t - 1 - k] == shapes[t - 1] && shapes[k..][t - k] == shapes[t];
      }
    }
  }
}
