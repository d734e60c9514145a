/** The duplicate-last Merkle tree of the two membership profiles: an odd level pairs its last node with itself.
    `strict` selects the handoff profile, whose checks also refuse the all-zero digest. */
module MerkleTree {
  import opened Prelude
  import opened Bits

  /** Collision-free Merkle digests; `Other` stands for any digest that is neither a leaf nor a node digest. */
  datatype Hash<C> =
    | ZeroHash
    | Other(id: nat)
    | Leaf(index: nat, commitment: C)
    | Node(left: Hash<C>, right: Hash<C>)

  datatype Side = Left | Right

  datatype PathEntry<C> = PathEntry(side: Side, sha256: Hash<C>)

  datatype TreeError = LeafSetInvalid | LeafIndexInvalid | TreeSizeInvalid

  predicate Admissible<C>(h: Hash<C>, strict: bool) {
    strict ==> !h.ZeroHash?
  }

  predicate AllAdmissible<C>(hashes: seq<Hash<C>>, strict: bool) {
    forall i :: 0 <= i < |hashes| ==> Admissible(hashes[i], strict)
  }

  // ---------------------------------------------------------------- levels and roots

  function Parent<C>(level: seq<Hash<C>>, i: nat): Hash<C>
    requires 2 * i < |level|
  {
    Node(level[2 * i], if 2 * i + 1 < |level| then level[2 * i + 1] else level[2 * i])
  }

  function NextLevel<C>(level: seq<Hash<C>>): (r: seq<Hash<C>>)
    ensures |r| == (|level| + 1) / 2
    ensures forall i :: 0 <= i < |r| ==> r[i] == Parent(level, i)
  {
    seq((|level| + 1) / 2, i requires 0 <= i < (|level| + 1) / 2 => Parent(level, i))
  }

  function Root<C>(level: seq<Hash<C>>): Hash<C>
    requires |level| > 0
    decreases |level|
  {
    if |level| == 1 then level[0] else Root(NextLevel(level))
  }

  method BuildNextLevel<C>(level: seq<Hash<C>>) returns (result: seq<Hash<C>>)
    ensures result == NextLevel(level)
  {
    result := [];
    var index := 0;
    while index < |level|
      invariant index == 2 * |result|
      invariant index <= |level| + 1
      invariant forall i :: 0 <= i < |result| ==> result[i] == Parent(level, i)
    {
      var left := level[index];
      var right := if index + 1 < |level| then level[index + 1] else left;
      assert Node(left, right) == Parent(level, |result|);
      result := result + [Node(left, right)];
      index := index + 2;
    }
  }

  method MerkleRoot<C(==)>(leafHashes: seq<Hash<C>>, strict: bool) returns (r: Result<Hash<C>, TreeError>)
    ensures r.Ok? <==> |leafHashes| > 0 && AllAdmissible(leafHashes, strict)
    ensures r.Ok? ==> r.value == Root(leafHashes)
  {
    if |leafHashes| == 0 || !AllAdmissible(leafHashes, strict) {
      return Err(LeafSetInvalid);
    }
    var level := leafHashes;
    while |level| > 1
      invariant |level| > 0
      invariant Root(level) == Root(leafHashes)
    {
      level := BuildNextLevel(level);
    }
    return Ok(level[0]);
  }

  // ---------------------------------------------------------------- paths

  function Sibling<C>(level: seq<Hash<C>>, index: nat): PathEntry<C>
    requires index < |level|
  {
    if index % 2 == 0 then PathEntry(Right, if index + 1 < |level| then level[index + 1] else level[index])
    else PathEntry(Left, level[index - 1])
  }

  function Path<C>(level: seq<Hash<C>>, index: nat): seq<PathEntry<C>>
    requires index < |level|
    decreases |level|
  {
    if |level| == 1 then [] else [Sibling(level, index)] + Path(NextLevel(level), index / 2)
  }

  lemma PathStep<C>(level: seq<Hash<C>>, index: nat, path: seq<PathEntry<C>>)
    requires |level| > 1 && index < |level|
    ensures path + Path(level, index) == (path + [Sibling(level, index)]) + Path(NextLevel(level), index / 2)
  {
  }

  method MerklePath<C(==)>(leafHashes: seq<Hash<C>>, leafIndex: int)
    returns (r: Result<seq<PathEntry<C>>, TreeError>)
    ensures r.Ok? <==> 0 <= leafIndex < |leafHashes|
    ensures r.Ok? ==> r.value == Path(leafHashes, leafIndex)
  {
    hide Path, NextLevel;
    if leafIndex < 0 || leafIndex >= |leafHashes| {
      return Err(LeafIndexInvalid);
    }
    var level, index := leafHashes, leafIndex;
    var path: seq<PathEntry<C>> := [];
    while |level| > 1
      invariant 0 <= index < |level|
      invariant path + Path(level, index) == Path(leafHashes, leafIndex)
    {
      var siblingIndex, side;
      if index % 2 == 0 {
        siblingIndex := if index + 1 < |level| then index + 1 else index;
        side := Right;
      } else {
        siblingIndex := index - 1;
        side := Left;
      }
      assert PathEntry(side, level[siblingIndex]) == Sibling(level, index);
      PathStep(level, index, path);
      path := path + [PathEntry(side, level[siblingIndex])];
      index := index / 2;
      level := BuildNextLevel(level);
    }
    PathOfOne(level, index);
    return Ok(path);
  }

  lemma PathOfOne<C>(level: seq<Hash<C>>, index: nat)
    requires |level| == 1 && index == 0
    ensures Path(level, index) == []
  {
  }

  function PathLength(width: nat): nat {
    if width <= 1 then 0 else 1 + PathLength((width + 1) / 2)
  }

  method ExpectedPathLength(treeSize: int) returns (r: Result<nat, TreeError>)
    ensures r.Ok? <==> treeSize > 0
    ensures r.Ok? ==> r.value == PathLength(treeSize)
  {
    if treeSize <= 0 {
      return Err(TreeSizeInvalid);
    }
    var length, width := 0, treeSize;
    while width > 1
      invariant width > 0
      invariant length + PathLength(width) == PathLength(treeSize)
    {
      width := (width + 1) / 2;
      length := length + 1;
    }
    return Ok(length);
  }

  /** One step of the path check: the entry's side, its zero test and the self-pairing test must all pass. */
  predicate EntryFits<C(==)>(current: Hash<C>, index: nat, width: nat, entry: PathEntry<C>, strict: bool) {
    && Admissible(entry.sha256, strict)
    && entry.side == (if index % 2 == 1 then Left else Right)
    && (index % 2 == 0 && index + 1 >= width ==> entry.sha256 == current)
  }

  function Join<C>(current: Hash<C>, entry: PathEntry<C>): Hash<C> {
    if entry.side.Left? then Node(entry.sha256, current) else Node(current, entry.sha256)
  }

  /** The root a path leads to, or None where an entry is refused or the closing test fails. */
  function Climb<C(==)>(current: Hash<C>, index: nat, width: nat, path: seq<PathEntry<C>>, strict: bool)
    : Option<Hash<C>>
    decreases |path|
  {
    if path == [] then (if width == 1 && index == 0 then Some(current) else None)
    else if !EntryFits(current, index, width, path[0], strict) then None
    else Climb(Join(current, path[0]), index / 2, (width + 1) / 2, path[1..], strict)
  }

  predicate PathAccepts<C(==)>(leaf: Hash<C>, index: int, size: int, path: seq<PathEntry<C>>, root: Hash<C>,
                               strict: bool)
  {
    && Admissible(leaf, strict)
    && Admissible(root, strict)
    && 0 <= index < size
    && |path| == PathLength(size)
    && Climb(leaf, index, size, path, strict) == Some(root)
  }

  method VerifyMerklePath<C(==)>(leaf: Hash<C>, leafIndex: int, treeSize: int, siblingPath: seq<PathEntry<C>>,
                                 expectedRoot: Hash<C>, strict: bool) returns (ok: bool)
    ensures ok <==> PathAccepts(leaf, leafIndex, treeSize, siblingPath, expectedRoot, strict)
  {
    if !Admissible(leaf, strict) || !Admissible(expectedRoot, strict) || treeSize <= 0 || leafIndex < 0
      || leafIndex >= treeSize
    {
      return false;
    }
    var expectedLength := ExpectedPathLength(treeSize);
    if |siblingPath| != expectedLength.value {
      return false;
    }
    var current, index, width := leaf, leafIndex, treeSize;
    for step := 0 to |siblingPath|
      invariant index >= 0 && width > 0
      invariant Climb(current, index, width, siblingPath[step..], strict)
             == Climb(leaf, leafIndex, treeSize, siblingPath, strict)
    {
      var entry := siblingPath[step];
      assert siblingPath[step..][0] == entry && siblingPath[step..][1..] == siblingPath[step + 1..];
      if !Admissible(entry.sha256, strict) {
        return false;
      }
      var expectedSide := if index % 2 == 1 then Left else Right;
      if entry.side != expectedSide {
        return false;
      }
      if index % 2 == 0 && index + 1 >= width && entry.sha256 != current {
        return false;
      }
      current := if entry.side.Left? then Node(entry.sha256, current) else Node(current, entry.sha256);
      index := index / 2;
      width := (width + 1) / 2;
    }
    assert siblingPath[|siblingPath|..] == [];
    return width == 1 && index == 0 && current == expectedRoot;
  }

  // ---------------------------------------------------------------- path theorems

  /** An accepted leaf is the leaf of the list at that index, and only one path is accepted. */
  lemma {:induction false} PathSound<C>(leaves: seq<Hash<C>>, x: Hash<C>, index: nat, path: seq<PathEntry<C>>,
                                        strict: bool)
    requires index < |leaves| && |path| == PathLength(|leaves|)
    requires Climb(x, index, |leaves|, path, strict) == Some(Root(leaves))
    ensures x == leaves[index]
    ensures path == Path(leaves, index)
    decreases |leaves|
  {
    hide NextLevel;
    if |leaves| == 1 {
      assert path == [] && Path(leaves, index) == [];
    } else {
      var next, entry := NextLevel(leaves), path[0];
      assert EntryFits(x, index, |leaves|, entry, strict);
      PathSound(next, Join(x, entry), index / 2, path[1..], strict);
      assert Join(x, entry) == next[index / 2] == Parent(leaves, index / 2);
      assert entry == Sibling(leaves, index);
      assert path == [entry] + path[1..];
    }
  }

  lemma {:induction false} PathClimbs<C>(leaves: seq<Hash<C>>, index: nat, strict: bool)
    requires index < |leaves| && AllAdmissible(leaves, strict)
    ensures |Path(leaves, index)| == PathLength(|leaves|)
    ensures Climb(leaves[index], index, |leaves|, Path(leaves, index), strict) == Some(Root(leaves))
    ensures Admissible(Root(leaves), strict)
    decreases |leaves|
  {
    if |leaves| > 1 {
      PathClimbs(NextLevel(leaves), index / 2, strict);
      assert NextLevel(leaves)[index / 2] == Parent(leaves, index / 2);
    }
  }

  /** For one admissible leaf list: the check accepts exactly the real leaf with the real path. */
  lemma {:induction false} PathExact<C>(leaves: seq<Hash<C>>, x: Hash<C>, index: int, path: seq<PathEntry<C>>,
                                        strict: bool)
    requires |leaves| > 0 && AllAdmissible(leaves, strict)
    ensures PathAccepts(x, index, |leaves|, path, Root(leaves), strict)
       <==> 0 <= index < |leaves| && x == leaves[index] && path == Path(leaves, index)
  {
    if 0 <= index < |leaves| {
      PathClimbs(leaves, index, strict);
      if PathAccepts(x, index, |leaves|, path, Root(leaves), strict) {
        PathSound(leaves, x, index, path, strict);
      }
    }
  }

  /** Whatever the root is, one index has one leaf and one path: two accepted climbs to the same digest are equal. */
  lemma {:induction false} ClimbInjective<C>(x: Hash<C>, p: seq<PathEntry<C>>, y: Hash<C>, q: seq<PathEntry<C>>,
                                             index: nat, width: nat, strict: bool)
    requires |p| == |q| && Climb(x, index, width, p, strict).Some?
    requires Climb(x, index, width, p, strict) == Climb(y, index, width, q, strict)
    ensures x == y && p == q
    decreases |p|
  {
    if p != [] {
      ClimbInjective(Join(x, p[0]), p[1..], Join(y, q[0]), q[1..], index / 2, (width + 1) / 2, strict);
      assert p == [p[0]] + p[1..] && q == [q[0]] + q[1..];
    }
  }

  /** `_expected_path_length(n)` is the least k with n <= 2^k. */
  lemma {:induction false} PathLengthIsCeilLog(n: nat, k: nat)
    requires n > 0
    ensures n <= Pow2(k) <==> PathLength(n) <= k
  {
    if n > 1 && k > 0 {
      PathLengthIsCeilLog((n + 1) / 2, k - 1);
    }
  }

  /** The climb without its closing `width == 1 and index == 0` test. */
  function OpenClimb<C(==)>(current: Hash<C>, index: nat, width: nat, path: seq<PathEntry<C>>, strict: bool)
    : Option<Hash<C>>
    decreases |path|
  {
    if path == [] then Some(current)
    else if !EntryFits(current, index, width, path[0], strict) then None
    else OpenClimb(Join(current, path[0]), index / 2, (width + 1) / 2, path[1..], strict)
  }

  /** Once the length and index tests have passed, the closing test never changes the verdict. */
  lemma {:induction false} ClosingTestImplied<C>(current: Hash<C>, index: nat, width: nat,
                                                 path: seq<PathEntry<C>>, strict: bool)
    requires index < width && |path| == PathLength(width)
    ensures Climb(current, index, width, path, strict) == OpenClimb(current, index, width, path, strict)
    decreases |path|
  {
    if path != [] && EntryFits(current, index, width, path[0], strict) {
      ClosingTestImplied(Join(current, path[0]), index / 2, (width + 1) / 2, path[1..], strict);
    }
  }

  // ---------------------------------------------------------------- what a root commits to

  /** Leaf digests of a commitment list; indices start at one. */
  function LeafHashes<C>(commitments: seq<C>): (r: seq<Hash<C>>)
    ensures |r| == |commitments|
    ensures forall i :: 0 <= i < |r| ==> r[i] == Leaf(i + 1, commitments[i])
  {
    seq(|commitments|, i requires 0 <= i < |commitments| => Leaf(i + 1, commitments[i]))
  }

  lemma {:induction false} NextLevelInjective<C>(a: seq<Hash<C>>, b: seq<Hash<C>>)
    requires |a| == |b| && NextLevel(a) == NextLevel(b)
    ensures a == b
  {
    forall i | 0 <= i < |a| ensures a[i] == b[i] {
      assert NextLevel(a)[i / 2] == Parent(a, i / 2);
      assert NextLevel(b)[i / 2] == Parent(b, i / 2);
    }
  }

  /** For a fixed length the root determines every leaf digest. */
  lemma {:induction false} RootInjectiveSameSize<C>(a: seq<Hash<C>>, b: seq<Hash<C>>)
    requires |a| == |b| > 0 && Root(a) == Root(b)
    ensures a == b
    decreases |a|
  {
    if |a| > 1 {
      RootInjectiveSameSize(NextLevel(a), NextLevel(b));
      NextLevelInjective(a, b);
    }
  }

  /** The digest reached by following right children only. */
  function Rightmost<C>(h: Hash<C>): Hash<C> {
    if h.Node? then Rightmost(h.right) else h
  }

  lemma {:induction false} RightmostOfRoot<C>(leaves: seq<Hash<C>>)
    requires |leaves| > 0
    ensures Rightmost(Root(leaves)) == Rightmost(leaves[|leaves| - 1])
    decreases |leaves|
  {
    if |leaves| > 1 {
      var next := NextLevel(leaves);
      RightmostOfRoot(next);
      assert next[|next| - 1] == Parent(leaves, |next| - 1);
    }
  }

  /** Equal roots of indexed leaf lists force equal lengths and equal commitments, whatever size is claimed. */
  lemma RootDeterminesHistory<C>(a: seq<C>, b: seq<C>)
    requires |a| > 0 && |b| > 0
    requires Root(LeafHashes(a)) == Root(LeafHashes(b))
    ensures a == b
  {
    RightmostOfRoot(LeafHashes(a));
    RightmostOfRoot(LeafHashes(b));
    RootInjectiveSameSize(LeafHashes(a), LeafHashes(b));
    LeafHashesInjective(a, b);
  }

  /** A path for the last index of any claimed width climbs along right edges only, so it exposes the rightmost leaf. */
  lemma {:induction false} LastPathIsRightmost<C>(x: Hash<C>, width: nat, path: seq<PathEntry<C>>, root: Hash<C>,
                                                  strict: bool)
    requires width > 0 && Climb(x, width - 1, width, path, strict) == Some(root)
    ensures Rightmost(root) == Rightmost(x)
    decreases |path|
  {
    if path != [] {
      assert (width - 1) / 2 == (width + 1) / 2 - 1;
      LastPathIsRightmost(Join(x, path[0]), (width + 1) / 2, path[1..], root, strict);
    }
  }

  /** An accepted path for "the last leaf of n" pins the size and the last commitment of the committed list,
      whatever size n the prover claims. */
  lemma LastPathPinsSize<C>(commitments: seq<C>, claimed: nat, last: C, path: seq<PathEntry<C>>, strict: bool)
    requires |commitments| > 0
    requires PathAccepts(Leaf(claimed, last), claimed - 1, claimed, path, Root(LeafHashes(commitments)), strict)
    ensures claimed == |commitments| && last == commitments[|commitments| - 1]
  {
    LastPathIsRightmost(Leaf(claimed, last), claimed, path, Root(LeafHashes(commitments)), strict);
    RightmostOfRoot(LeafHashes(commitments));
  }

  lemma LeafHashesPrefix<C>(commitments: seq<C>, m: nat)
    requires m <= |commitments|
    ensures LeafHashes(commitments)[..m] == LeafHashes(commitments[..m])
  {
  }

  lemma LeafHashesInjective<C>(a: seq<C>, b: seq<C>)
    requires LeafHashes(a) == LeafHashes(b)
    ensures a == b
  {
    assert |a| == |LeafHashes(a)| == |LeafHashes(b)| == |b|;
    forall i | 0 <= i < |a| ensures a[i] == b[i] {
      assert LeafHashes(a)[i] == LeafHashes(b)[i];
    }
  }

  // ---------------------------------------------------------------- top-down view of the same tree

  /** The node covering [start, start + size): a missing right half is replaced by the left one. */
  function Dup<C>(leaves: seq<Hash<C>>, start: nat, size: nat): Hash<C>
    requires IsPow2(size) && start < |leaves|
    decreases size
  {
    if size == 1 then leaves[start]
    else
      var half := size / 2;
      var left := Dup(leaves, start, half);
      Node(left, if start + half < |leaves| then Dup(leaves, start + half, half) else left)
  }

  lemma {:induction false} DupOfNextLevel<C>(leaves: seq<Hash<C>>, start: nat, size: nat)
    requires IsPow2(size) && IsPow2(2 * size) && start < |NextLevel(leaves)| && 2 * start < |leaves|
    ensures Dup(NextLevel(leaves), start, size) == Dup(leaves, 2 * start, 2 * size)
    decreases size
  {
    hide NextLevel;
    var next := NextLevel(leaves);
    if size == 1 {
      assert next[start] == Parent(leaves, start);
      assert Dup(leaves, 2 * start, 1) == leaves[2 * start];
    } else {
      var half := size / 2;
      assert size == 2 * half;
      DupOfNextLevel(leaves, start, half);
      assert start + half < |next| <==> 2 * (start + half) < |leaves|;
      if start + half < |next| {
        DupOfNextLevel(leaves, start + half, half);
      }
    }
  }

  /** The width of the padded tree: the least power of two that is at least n. */
  function CeilPow2(n: nat): (r: nat)
    requires n > 0
    ensures IsPow2(r) && n <= r < 2 * n
  {
    if n == 1 then 1 else 2 * CeilPow2((n + 1) / 2)
  }

  /** The level-by-level root is the top-down node over the whole padded width. */
  lemma {:induction false} RootIsDup<C>(leaves: seq<Hash<C>>)
    requires |leaves| > 0
    ensures Root(leaves) == Dup(leaves, 0, CeilPow2(|leaves|))
    decreases |leaves|
  {
    if |leaves| > 1 {
      RootIsDup(NextLevel(leaves));
      DupOfNextLevel(leaves, 0, CeilPow2((|leaves| + 1) / 2));
    }
  }
}
