/** What a Merkle root binds.

    Every statement names the messages that the openings themselves hash: two accepted
    openings whose paths take the same turns from the root are one opening, or the messages
    at some equal distance from the root differ and have one hash.  `verify` does not check
    the length of a path, and where the turns differ nothing is bound. */
module MerkleBinding {
  import opened Powers
  import opened Primality
  import opened Bytes
  import opened Merkle

  // ----- the messages of an opening -----

  /** Whether the node at height j above a leaf is a right child. */
  function Turn(index: nat, j: nat): (b: nat)
    ensures b <= 1
  {
    (index / Pow2(j)) % 2
  }

  function Ordered(turn: nat, node: Digest, sibling: Digest): (m: Bytes)
    ensures |m| == 64
  {
    if turn == 0 then node + sibling else sibling + node
  }

  function LeafMessage(index: Word, value: Word): (m: Bytes)
    ensures |m| == 16
  {
    WordBytes(index) + WordBytes(value)
  }

  /** The messages that `verify` hashes for an opening, the one that gives the root first. */
  function OpeningInputs(hash: Hash, index: Word, value: Word, path: seq<Digest>): (ms: seq<Bytes>)
    ensures |ms| == |path| + 1
    decreases |path|
  {
    if path == [] then [LeafMessage(index, value)]
    else
      var n := |path| - 1;
      var below := OpeningInputs(hash, index, value, path[..n]);
      [Ordered(Turn(index, n), hash(below[0]), path[n])] + below
  }

  lemma HalfThenPow(i: nat, j: nat)
    ensures (i / 2) / Pow2(j) == i / Pow2(j + 1)
  {
    var h := Pow2(j);
    var q, r := (i / 2) / h, (i / 2) % h;
    assert i / 2 == h * q + r;
    assert (2 * h) * q == 2 * (h * q);
    ModUnique(i, q, 2 * r + i % 2, 2 * h);
  }

  /** The last sibling is hashed last. */
  lemma {:induction false} RootFromInit(hash: Hash, node: Digest, idx: nat, path: seq<Digest>)
    requires path != []
    ensures var n := |path| - 1;
            RootFromPath(hash, node, idx, path) ==
            hash(Ordered(Turn(idx, n), RootFromPath(hash, node, idx, path[..n]), path[n]))
    decreases |path|
  {
    var n := |path| - 1;
    if n > 0 {
      hide Parent;
      RootFromInit(hash, Parent(hash, node, idx, path[0]), idx / 2, path[1..]);
      assert path[..n][1..] == path[1..][..n - 1];
      HalfThenPow(idx, n - 1);
    }
  }

  lemma {:induction false} RootIsHash(hash: Hash, index: Word, value: Word, path: seq<Digest>)
    ensures RootFromPath(hash, HashLeaf(hash, index, value), index, path) ==
            hash(OpeningInputs(hash, index, value, path)[0])
    decreases |path|
  {
    hide RootFromPath, Turn, Ordered;
    if path == [] {
      EmptyPath(hash, HashLeaf(hash, index, value), index);
    } else {
      RootIsHash(hash, index, value, path[..|path| - 1]);
      RootFromInit(hash, HashLeaf(hash, index, value), index, path);
    }
  }

  lemma EmptyPath(hash: Hash, node: Digest, idx: nat)
    ensures RootFromPath(hash, node, idx, []) == node
  {
  }

  // ----- binding -----

  /** At some distance from the root the two openings hash different messages to one value. */
  ghost predicate Clash(hash: Hash, xs: seq<Bytes>, ys: seq<Bytes>) {
    exists d :: 0 <= d < |xs| && d < |ys| && Collision(hash, xs[d], ys[d])
  }

  /** Both paths take the same turns from the root as far as both go. */
  ghost predicate SameTurns(index: nat, n: nat, index': nat, n': nat) {
    n > 0 && n' > 0 ==> Turn(index, n - 1) == Turn(index', n' - 1) && SameTurns(index, n - 1, index', n' - 1)
  }

  lemma TopBit(i: nat, n: nat)
    ensures i % Pow2(n + 1) == Pow2(n) * Turn(i, n) + i % Pow2(n)
  {
    var h := Pow2(n);
    var q, r, b := i / h / 2, i % h, i / h % 2;
    assert i == h * (i / h) + r;
    assert h * (2 * q + b) == (2 * h) * q + h * b;
    assert b == 0 || b == 1;
    assert h * b == if b == 0 then 0 else h;
    ModUnique(i, q, h * b + r, 2 * h);
  }

  /** For paths of one length: the indices agree modulo 2^length. */
  lemma {:induction false} SameTurnsExact(index: nat, index': nat, n: nat)
    ensures SameTurns(index, n, index', n) <==> index % Pow2(n) == index' % Pow2(n)
  {
    hide Turn, Pow2;
    if n == 0 {
      assert Pow2(0) == 1 by { PowZero(); }
    } else {
      SameTurnsExact(index, index', n - 1);
      TopBit(index, n - 1);
      TopBit(index', n - 1);
      var h, b, b' := Pow2(n - 1), Turn(index, n - 1), Turn(index', n - 1);
      assert h * b == if b == 0 then 0 else h;
      assert h * b' == if b' == 0 then 0 else h;
    }
  }

  lemma PowZero()
    ensures Pow2(0) == 1
  {
  }

  lemma OrderedInjective(turn: nat, node: Digest, sibling: Digest, node': Digest, sibling': Digest)
    requires Ordered(turn, node, sibling) == Ordered(turn, node', sibling')
    ensures node == node' && sibling == sibling'
  {
    var m, m' := Ordered(turn, node, sibling), Ordered(turn, node', sibling');
    if turn == 0 {
      assert m[..32] == node && m[32..] == sibling && m'[..32] == node' && m'[32..] == sibling';
    } else {
      assert m[..32] == sibling && m[32..] == node && m'[..32] == sibling' && m'[32..] == node';
    }
  }

  lemma LeafInjective(index: Word, value: Word, index': Word, value': Word)
    requires LeafMessage(index, value) == LeafMessage(index', value')
    ensures index == index' && value == value'
  {
    hide WordBytes;
    var m, m' := LeafMessage(index, value), LeafMessage(index', value');
    assert m[..8] == WordBytes(index) && m'[..8] == WordBytes(index');
    assert m[8..] == WordBytes(value) && m'[8..] == WordBytes(value');
    WordBytesInjective(index, index');
    WordBytesInjective(value, value');
  }

  lemma {:induction false} InputsBinding(
    hash: Hash, index: Word, value: Word, path: seq<Digest>, index': Word, value': Word, path': seq<Digest>)
    requires SameTurns(index, |path|, index', |path'|)
    requires hash(OpeningInputs(hash, index, value, path)[0]) == hash(OpeningInputs(hash, index', value', path')[0])
    ensures Clash(hash, OpeningInputs(hash, index, value, path), OpeningInputs(hash, index', value', path'))
            || (index == index' && value == value' && path == path')
    decreases |path|
  {
    hide Turn, Ordered, LeafMessage;
    var xs, ys := OpeningInputs(hash, index, value, path), OpeningInputs(hash, index', value', path');
    if (path == []) != (path' == []) {
      assert |xs[0]| != |ys[0]|;
      assert Collision(hash, xs[0], ys[0]);
    } else if xs[0] != ys[0] {
      assert Collision(hash, xs[0], ys[0]);
    } else if path == [] {
      LeafInjective(index, value, index', value');
    } else {
      var n, n' := |path| - 1, |path'| - 1;
      var below, below' :=
        OpeningInputs(hash, index, value, path[..n]), OpeningInputs(hash, index', value', path'[..n']);
      OrderedInjective(Turn(index, n), hash(below[0]), path[n], hash(below'[0]), path'[n']);
      InputsBinding(hash, index, value, path[..n], index', value', path'[..n']);
      if Clash(hash, below, below') {
        var d :| 0 <= d < |below| && d < |below'| && Collision(hash, below[d], below'[d]);
        assert Collision(hash, xs[d + 1], ys[d + 1]);
      } else {
        assert path == path[..n] + [path[n]] && path' == path'[..n'] + [path'[n']];
      }
    }
  }

  /** Two accepted openings under one root whose paths take the same turns are one opening,
      or hash two different messages at one distance from the root to one value. */
  lemma OpeningBinding(
    hash: Hash, index: Word, value: Word, path: seq<Digest>,
    index': Word, value': Word, path': seq<Digest>, root: Digest)
    requires VerifyPath(hash, index, value, path, root)
    requires VerifyPath(hash, index', value', path', root)
    requires SameTurns(index, |path|, index', |path'|)
    ensures Clash(hash, OpeningInputs(hash, index, value, path), OpeningInputs(hash, index', value', path'))
            || (index == index' && value == value' && path == path')
  {
    hide RootFromPath, OpeningInputs, Clash, SameTurns, HashLeaf;
    RootIsHash(hash, index, value, path);
    RootIsHash(hash, index', value', path');
    InputsBinding(hash, index, value, path, index', value', path');
  }

  /** No two of the messages share a hash. */
  ghost predicate InjectiveOn(hash: Hash, ms: seq<Bytes>) {
    forall m, m' :: m in ms && m' in ms && hash(m) == hash(m') ==> m == m'
  }

  /** So where the hash is injective on those messages the openings are equal. */
  lemma OpeningUnique(
    hash: Hash, index: Word, value: Word, path: seq<Digest>,
    index': Word, value': Word, path': seq<Digest>, root: Digest)
    requires VerifyPath(hash, index, value, path, root)
    requires VerifyPath(hash, index', value', path', root)
    requires SameTurns(index, |path|, index', |path'|)
    requires InjectiveOn(hash, OpeningInputs(hash, index, value, path) + OpeningInputs(hash, index', value', path'))
    ensures index == index' && value == value' && path == path'
  {
    hide VerifyPath, SameTurns, OpeningInputs;
    OpeningBinding(hash, index, value, path, index', value', path', root);
  }

  /** Two lists of 2^k leaves with one root agree at every index, or their openings there clash. */
  lemma RootBinding(hash: Hash, leaves: seq<Word>, leaves': seq<Word>, k: nat, i: nat)
    requires |leaves| == |leaves'| == Pow2(k) <= WORD && i < |leaves|
    requires TreeOf(hash, leaves).root == TreeOf(hash, leaves').root
    ensures PathFits(TreeOf(hash, leaves).levels, i) && PathFits(TreeOf(hash, leaves').levels, i)
    ensures leaves[i] == leaves'[i] ||
            Clash(hash, OpeningInputs(hash, i, leaves[i], AuthPath(TreeOf(hash, leaves).levels, i)),
                  OpeningInputs(hash, i, leaves'[i], AuthPath(TreeOf(hash, leaves').levels, i)))
  {
    hide TreeOf, VerifyPath, SameTurns, OpeningInputs, Clash, PathFits, AuthPath;
    OpeningVerifies(hash, leaves, k, i);
    OpeningVerifies(hash, leaves', k, i);
    SameTurnsExact(i, i, k);
    OpeningBinding(hash, i, leaves[i], AuthPath(TreeOf(hash, leaves).levels, i),
                   i, leaves'[i], AuthPath(TreeOf(hash, leaves').levels, i), TreeOf(hash, leaves).root);
  }

  // ----- where nothing is bound -----

  lemma InputsAppend(hash: Hash, index: Word, value: Word, path: seq<Digest>, s: Digest)
    ensures OpeningInputs(hash, index, value, path + [s])[0] ==
            Ordered(Turn(index, |path|), hash(OpeningInputs(hash, index, value, path)[0]), s)
  {
    hide Turn, Ordered;
    assert (path + [s])[..|path|] == path;
  }

  /** Where the turns differ, every hash has paths of these lengths that open the two indices
      to any two values under one root. */
  lemma {:induction false} OpeningsUnbound(
    hash: Hash, index: Word, value: Word, n: nat, index': Word, value': Word, n': nat)
    returns (path: seq<Digest>, path': seq<Digest>, root: Digest)
    requires !SameTurns(index, n, index', n')
    ensures |path| == n && |path'| == n'
    ensures VerifyPath(hash, index, value, path, root) && VerifyPath(hash, index', value', path', root)
    decreases n
  {
    hide Turn, Ordered, OpeningInputs, RootFromPath, HashLeaf;
    var zero: Digest := seq(32, _ => 0);
    var below, below', s, s';
    if Turn(index, n - 1) == Turn(index', n' - 1) {
      var r;
      below, below', r := OpeningsUnbound(hash, index, value, n - 1, index', value', n' - 1);
      s, s' := zero, zero;
    } else {
      below, below' := seq(n - 1, _ => zero), seq(n' - 1, _ => zero);
      s := hash(OpeningInputs(hash, index', value', below')[0]);
      s' := hash(OpeningInputs(hash, index, value, below)[0]);
    }
    path, path' := below + [s], below' + [s'];
    RootIsHash(hash, index, value, below);
    RootIsHash(hash, index', value', below');
    InputsAppend(hash, index, value, below, s);
    InputsAppend(hash, index', value', below', s');
    RootIsHash(hash, index, value, path);
    RootIsHash(hash, index', value', path');
    root := hash(OpeningInputs(hash, index, value, path)[0]);
    if Turn(index, n - 1) != Turn(index', n' - 1) {
      OrderedSwaps(Turn(index, n - 1), Turn(index', n' - 1), s', s);
    }
  }

  lemma OrderedSwaps(turn: nat, turn': nat, a: Digest, b: Digest)
    requires turn <= 1 && turn' <= 1 && turn != turn'
    ensures Ordered(turn, a, b) == Ordered(turn', b, a)
  {
  }

  /** Index 1 is the least example: a path of any length n >= 1 and one a step longer. */
  lemma LongerPathTurns(n: nat)
    requires n >= 1
    ensures !SameTurns(1, n, 1, n + 1)
    decreases n
  {
    if n == 1 {
      assert Turn(1, 0) == 1 && Turn(1, 1) == 0 by {
        PowZero();
        assert Pow2(1) == 2 * Pow2(0);
      }
    } else {
      LongerPathTurns(n - 1);
    }
  }
}
