/** Merkle commitments: the tree, its authentication paths, and why an honest opening verifies. */
module Merkle {
  import opened Powers
  import opened Bytes

  type Word = x: nat | x < WORD

  datatype MerkleTree = MerkleTree(levels: seq<seq<Digest>>, leafCount: nat, root: Digest)

  function HashLeaf(hash: Hash, index: Word, value: Word): Digest {
    hash(WordBytes(index) + WordBytes(value))
  }

  function HashNode(hash: Hash, left: Digest, right: Digest): Digest {
    hash(left + right)
  }

  // ----- specification -----

  function LeafLevel(hash: Hash, leaves: seq<Word>): (l: seq<Digest>)
    requires |leaves| <= WORD
    ensures |l| == |leaves|
    ensures forall i :: 0 <= i < |l| ==> l[i] == HashLeaf(hash, i, leaves[i])
  {
    seq(|leaves|, i requires 0 <= i < |leaves| => HashLeaf(hash, i, leaves[i]))
  }

  function NextLevel(hash: Hash, l: seq<Digest>): (n: seq<Digest>)
    ensures |n| == |l| / 2
    ensures forall i :: 0 <= i < |n| ==> n[i] == HashNode(hash, l[2 * i], l[2 * i + 1])
  {
    seq(|l| / 2, i requires 0 <= i < |l| / 2 => HashNode(hash, l[2 * i], l[2 * i + 1]))
  }

  /** All levels above and including l, bottom first. */
  function Levels(hash: Hash, l: seq<Digest>): (ls: seq<seq<Digest>>)
    requires l != []
    ensures |ls| >= 1 && ls[0] == l && |ls[|ls| - 1]| == 1
    decreases |l|
  {
    if |l| == 1 then [l] else [l] + Levels(hash, NextLevel(hash, l))
  }

  function TreeOf(hash: Hash, leaves: seq<Word>): (t: MerkleTree)
    requires 1 <= |leaves| <= WORD
    ensures t.levels != [] && t.leafCount == |t.levels[0]|
    ensures t.levels[|t.levels| - 1] == [t.root]
  {
    var ls := Levels(hash, LeafLevel(hash, leaves));
    MerkleTree(ls, |leaves|, ls[|ls| - 1][0])
  }

  /** The index of the sibling: `idx ^ 1`. */
  function Sibling(idx: nat): nat {
    if idx % 2 == 0 then idx + 1 else idx - 1
  }

  /** Every level but the last holds the index and its sibling. */
  ghost predicate PathFits(levels: seq<seq<Digest>>, idx: nat)
    decreases levels
  {
    levels != [] && (|levels| > 1 ==> Sibling(idx) < |levels[0]| && PathFits(levels[1..], idx / 2))
  }

  function AuthPath(levels: seq<seq<Digest>>, idx: nat): (path: seq<Digest>)
    requires PathFits(levels, idx)
    ensures |path| == |levels| - 1
    decreases levels
  {
    if |levels| == 1 then [] else [levels[0][Sibling(idx)]] + AuthPath(levels[1..], idx / 2)
  }

  /** The root reached from a node by hashing along a path. */
  function RootFromPath(hash: Hash, node: Digest, idx: nat, path: seq<Digest>): Digest
    decreases |path|
  {
    if path == [] then node
    else RootFromPath(hash, Parent(hash, node, idx, path[0]), idx / 2, path[1..])
  }

  /** A left child has an even index. */
  function Parent(hash: Hash, node: Digest, idx: nat, sibling: Digest): Digest {
    if idx % 2 == 0 then HashNode(hash, node, sibling) else HashNode(hash, sibling, node)
  }

  /** `MerkleTree::verify`. */
  predicate VerifyPath(hash: Hash, index: Word, value: Word, path: seq<Digest>, root: Digest) {
    RootFromPath(hash, HashLeaf(hash, index, value), index, path) == root
  }

  // ----- completeness -----

  lemma LevelsUnfold(hash: Hash, l: seq<Digest>)
    requires |l| > 1 && |l| % 2 == 0
    ensures Levels(hash, l)[0] == l && Levels(hash, l)[1..] == Levels(hash, NextLevel(hash, l))
  {
  }

  lemma {:induction false} LevelsFit(hash: Hash, l: seq<Digest>, idx: nat, k: nat)
    requires |l| == Pow2(k) && idx < |l|
    ensures PathFits(Levels(hash, l), idx)
    ensures |Levels(hash, l)| == k + 1
    decreases k
  {
    hide NextLevel;
    if k > 0 {
      LevelsUnfold(hash, l);
      hide Levels;
      LevelsFit(hash, NextLevel(hash, l), idx / 2, k - 1);
    }
  }

  lemma ParentInNextLevel(hash: Hash, l: seq<Digest>, idx: nat)
    requires |l| % 2 == 0 && idx < |l|
    ensures Sibling(idx) < |l| && idx / 2 < |NextLevel(hash, l)|
    ensures Parent(hash, l[idx], idx, l[Sibling(idx)]) == NextLevel(hash, l)[idx / 2]
  {
    hide HashNode;
    assert idx == 2 * (idx / 2) + idx % 2;
  }

  lemma AuthPathUnfold(levels: seq<seq<Digest>>, idx: nat)
    requires PathFits(levels, idx) && |levels| > 1
    ensures PathFits(levels[1..], idx / 2)
    ensures AuthPath(levels, idx)[0] == levels[0][Sibling(idx)]
    ensures AuthPath(levels, idx)[1..] == AuthPath(levels[1..], idx / 2)
  {
  }

  lemma RootUnfold(hash: Hash, node: Digest, idx: nat, path: seq<Digest>)
    requires path != []
    ensures RootFromPath(hash, node, idx, path) ==
            RootFromPath(hash, Parent(hash, node, idx, path[0]), idx / 2, path[1..])
  {
    hide Parent;
  }

  lemma {:induction false} HonestPath(hash: Hash, l: seq<Digest>, idx: nat, k: nat)
    requires |l| == Pow2(k) && idx < |l|
    requires PathFits(Levels(hash, l), idx)
    ensures var ls := Levels(hash, l);
            RootFromPath(hash, l[idx], idx, AuthPath(ls, idx)) == ls[|ls| - 1][0]
    decreases k
  {
    hide NextLevel, Parent, Sibling, HashNode, AuthPath, PathFits, RootFromPath, Levels, Pow2;
    if k == 0 {
      HonestLeaf(hash, l, idx);
    } else {
      var next := NextLevel(hash, l);
      LevelsFit(hash, l, idx, k);
      HalfLevel(hash, l, idx, k);
      LevelsUnfold(hash, l);
      ParentInNextLevel(hash, l, idx);
      AuthPathUnfold(Levels(hash, l), idx);
      RootUnfold(hash, l[idx], idx, AuthPath(Levels(hash, l), idx));
      LevelsFit(hash, next, idx / 2, k - 1);
      HonestPath(hash, next, idx / 2, k - 1);
      assert Levels(hash, l)[|Levels(hash, l)| - 1] == Levels(hash, next)[|Levels(hash, next)| - 1];
    }
  }

  lemma HonestLeaf(hash: Hash, l: seq<Digest>, idx: nat)
    requires |l| == Pow2(0) && idx < |l| && PathFits(Levels(hash, l), idx)
    ensures var ls := Levels(hash, l);
            RootFromPath(hash, l[idx], idx, AuthPath(ls, idx)) == ls[|ls| - 1][0]
  {
  }

  lemma HalfLevel(hash: Hash, l: seq<Digest>, idx: nat, k: nat)
    requires k >= 1 && |l| == Pow2(k) && idx < |l|
    ensures |l| > 1 && |l| % 2 == 0 && |NextLevel(hash, l)| == Pow2(k - 1) && idx / 2 < Pow2(k - 1)
  {
    hide NextLevel;
  }

  /** For every power-of-two leaf list and index, the authentication path verifies. */
  lemma OpeningVerifies(hash: Hash, leaves: seq<Word>, k: nat, index: nat)
    requires |leaves| == Pow2(k) <= WORD && index < |leaves|
    ensures var t := TreeOf(hash, leaves);
            && PathFits(t.levels, index)
            && |AuthPath(t.levels, index)| == k
            && VerifyPath(hash, index, leaves[index], AuthPath(t.levels, index), t.root)
  {
    LevelsFit(hash, LeafLevel(hash, leaves), index, k);
    HonestPath(hash, LeafLevel(hash, leaves), index, k);
  }

  // ----- loops -----

  method LeafLevelLoop(hash: Hash, leaves: seq<Word>) returns (cur: seq<Digest>)
    requires |leaves| <= WORD
    ensures cur == LeafLevel(hash, leaves)
  {
    hide HashLeaf;
    cur := [];
    for i := 0 to |leaves|
      invariant |cur| == i
      invariant forall j :: 0 <= j < i ==> cur[j] == HashLeaf(hash, j, leaves[j])
    {
      cur := cur + [HashLeaf(hash, i, leaves[i])];
    }
  }

  /** The chunks-of-two loop. */
  method NextLevelLoop(hash: Hash, cur: seq<Digest>) returns (next: seq<Digest>)
    ensures next == NextLevel(hash, cur)
  {
    hide HashNode;
    next := [];
    for i := 0 to |cur| / 2
      invariant |next| == i
      invariant forall j :: 0 <= j < i ==> next[j] == HashNode(hash, cur[2 * j], cur[2 * j + 1])
    {
      next := next + [HashNode(hash, cur[2 * i], cur[2 * i + 1])];
    }
  }

  /** The levels built so far end with cur, and completing cur gives the goal. */
  ghost predicate Building(hash: Hash, levels: seq<seq<Digest>>, cur: seq<Digest>, goal: seq<seq<Digest>>)
    requires cur != []
  {
    levels != [] && levels[|levels| - 1] == cur && levels[..|levels| - 1] + Levels(hash, cur) == goal
  }

  lemma BuildingStep(hash: Hash, levels: seq<seq<Digest>>, cur: seq<Digest>, goal: seq<seq<Digest>>, depth: nat)
    requires |cur| == Pow2(depth) && |cur| > 1 && Building(hash, levels, cur, goal)
    ensures depth > 0 && 1 <= |NextLevel(hash, cur)| == Pow2(depth - 1) < |cur|
    ensures Building(hash, levels + [NextLevel(hash, cur)], NextLevel(hash, cur), goal)
  {
    hide NextLevel;
    var next := NextLevel(hash, cur);
    assert Levels(hash, cur) == [cur] + Levels(hash, next);
    ConcatLevels(levels[..|levels| - 1], cur, Levels(hash, next));
    assert levels == levels[..|levels| - 1] + [cur];
    assert (levels + [next])[..|levels|] == levels;
  }

  lemma BuildingDone(hash: Hash, levels: seq<seq<Digest>>, cur: seq<Digest>, goal: seq<seq<Digest>>)
    requires |cur| == 1 && Building(hash, levels, cur, goal)
    ensures levels == goal
  {
  }

  lemma BuildingStart(hash: Hash, cur: seq<Digest>)
    requires cur != []
    ensures Building(hash, [cur], cur, Levels(hash, cur))
  {
    hide Levels;
  }

  /** `MerkleTree::new`. */
  method NewTree(hash: Hash, leaves: seq<Word>, ghost k: nat) returns (tree: MerkleTree)
    requires |leaves| == Pow2(k) <= WORD
    ensures tree == TreeOf(hash, leaves)
  {
    hide Levels, NextLevel, LeafLevel, Pow2, Building;
    var cur := LeafLevelLoop(hash, leaves);
    var levels := [cur];
    ghost var goal := Levels(hash, cur);
    ghost var depth := k;
    BuildingStart(hash, cur);
    while |cur| > 1
      invariant 1 <= |cur| == Pow2(depth)
      invariant Building(hash, levels, cur, goal)
      decreases |cur|
    {
      BuildingStep(hash, levels, cur, goal, depth);
      cur := NextLevelLoop(hash, cur);
      levels := levels + [cur];
      depth := depth - 1;
    }
    BuildingDone(hash, levels, cur, goal);
    tree := MerkleTree(levels, |leaves|, levels[|levels| - 1][0]);
  }

  lemma ConcatLevels<T>(a: seq<T>, x: T, b: seq<T>)
    ensures a + ([x] + b) == (a + [x]) + b
  {
  }

  /** `auth_path`. */
  method AuthPathLoop(levels: seq<seq<Digest>>, index: nat) returns (path: seq<Digest>)
    requires PathFits(levels, index)
    ensures path == AuthPath(levels, index)
  {
    var idx: nat := index;
    path := [];
    for i := 0 to |levels| - 1
      invariant PathFits(levels[i..], idx)
      invariant path + AuthPath(levels[i..], idx) == AuthPath(levels, index)
    {
      assert levels[i..][1..] == levels[i + 1..];
      path := path + [levels[i][Sibling(idx)]];
      idx := idx / 2;
    }
  }

  /** `verify`. */
  method VerifyLoop(hash: Hash, index: Word, value: Word, path: seq<Digest>, root: Digest) returns (ok: bool)
    ensures ok == VerifyPath(hash, index, value, path, root)
  {
    hide Parent, HashLeaf;
    var h: Digest := HashLeaf(hash, index, value);
    var idx: nat := index;
    for depth := 0 to |path|
      invariant RootFromPath(hash, h, idx, path[depth..]) ==
                RootFromPath(hash, HashLeaf(hash, index, value), index, path)
    {
      assert path[depth..][1..] == path[depth + 1..];
      h := Parent(hash, h, idx, path[depth]);
      idx := idx / 2;
    }
    ok := h == root;
  }
}
