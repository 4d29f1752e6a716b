/** The Merkle root of a block's transactions (main.go, merkleRoot): a
    binary hash tree built level by level, the last node of an odd level
    paired with a copy of itself. */
module Merkle {
  import opened Primitives

  /** A leaf: the digest of a transaction's bytes. */
  function Leaf(sha: Sha256, tx: string): Digest {
    sha(Utf8(tx))
  }

  /** An inner node: the digest of its children's concatenation, left first. */
  function Parent(sha: Sha256, left: Digest, right: Digest): Digest {
    var joined: Bytes := left + right;
    sha(joined)
  }

  /** The leaf level, in transaction order. */
  function Leaves(sha: Sha256, txs: seq<string>): (leaves: seq<Digest>)
    ensures |leaves| == |txs|
    ensures forall i :: 0 <= i < |txs| ==> leaves[i] == sha(Utf8(txs[i]))
  {
    seq(|txs|, i requires 0 <= i < |txs| => Leaf(sha, txs[i]))
  }

  /** A level of odd length with a copy of its last node appended. */
  function PadOdd(level: seq<Digest>): (padded: seq<Digest>)
    ensures |padded| == |level| + |level| % 2
    ensures forall k :: 0 <= k < |level| ==> padded[k] == level[k]
    ensures |level| % 2 == 1 ==> padded[|level|] == level[|level| - 1]
  {
    if |level| % 2 == 1 then level + [level[|level| - 1]] else level
  }

  /** The parents of an even-length level: each adjacent pair replaced by
      the digest of its concatenation, in order. */
  function Pairs(sha: Sha256, level: seq<Digest>): (parents: seq<Digest>)
    requires |level| % 2 == 0
    ensures 2 * |parents| == |level|
    decreases |level|
  {
    if level == [] then [] else [Parent(sha, level[0], level[1])] + Pairs(sha, level[2..])
  }

  lemma {:induction false} PairsAt(sha: Sha256, level: seq<Digest>, i: nat)
    requires |level| % 2 == 0 && 2 * i < |level|
    ensures Pairs(sha, level)[i] == Parent(sha, level[2 * i], level[2 * i + 1])
    decreases |level|
  {
    if i > 0 {
      PairsAt(sha, level[2..], i - 1);
    }
  }

  /** One round of merkleRoot: pad an odd level, then pair it up. */
  function NextLevel(sha: Sha256, level: seq<Digest>): (next: seq<Digest>)
    ensures |next| == (|level| + 1) / 2
  {
    Pairs(sha, PadOdd(level))
  }

  /** Node i of the next level pairs nodes 2i and 2i + 1, the last node of
      an odd level with itself. */
  lemma NextLevelAt(sha: Sha256, level: seq<Digest>, i: nat)
    requires i < (|level| + 1) / 2
    ensures NextLevel(sha, level)[i]
      == Parent(sha, level[2 * i], if 2 * i + 1 < |level| then level[2 * i + 1] else level[2 * i])
  {
    PairsAt(sha, PadOdd(level), i);
  }

  /** Rounds applied until one node remains; that node. */
  function Collapse(sha: Sha256, level: seq<Digest>): Digest
    requires |level| >= 1
    decreases |level|
  {
    if |level| == 1 then level[0] else Collapse(sha, NextLevel(sha, level))
  }

  /** The root the ledger stores: the hex digest of the empty byte string
      for no transactions, else the hex rendering of the collapsed leaves. */
  function MerkleRootOf(sha: Sha256, txs: seq<string>): (root: string)
    ensures |root| == 64 && IsHexString(root)
  {
    if txs == [] then Hex(sha([])) else Hex(Collapse(sha, Leaves(sha, txs)))
  }

  /** The loop of merkleRoot: leaves first, then rounds over a shrinking level. */
  method MerkleRoot(sha: Sha256, txs: seq<string>) returns (root: string)
    ensures root == MerkleRootOf(sha, txs)
  {
    if |txs| == 0 {
      return Hex(sha([]));
    }
    var level: seq<Digest> := [];
    for i := 0 to |txs|
      invariant |level| == i
      invariant forall k :: 0 <= k < i ==> level[k] == Leaf(sha, txs[k])
    {
      level := level + [Leaf(sha, txs[i])];
    }
    assert level == Leaves(sha, txs);
    while |level| > 1
      invariant |level| >= 1
      invariant Collapse(sha, level) == Collapse(sha, Leaves(sha, txs))
      decreases |level|
    {
      ghost var before := level;
      if |level| % 2 == 1 {
        level := level + [level[|level| - 1]];
      }
      var next := PairUp(sha, level);
      PairUpIsNextLevel(sha, before, level, next);
      level := next;
    }
    root := Hex(level[0]);
  }

  /** The inner loop of merkleRoot: each adjacent pair of an even-length
      level replaced by its parent, in order. */
  method PairUp(sha: Sha256, level: seq<Digest>) returns (next: seq<Digest>)
    requires |level| % 2 == 0
    ensures 2 * |next| == |level|
    ensures forall k :: 0 <= k < |next| ==> next[k] == Parent(sha, level[2 * k], level[2 * k + 1])
  {
    next := [];
    var i := 0;
    while i < |level|
      invariant 0 <= i <= |level| && i == 2 * |next|
      invariant forall k :: 0 <= k < |next| ==> next[k] == Parent(sha, level[2 * k], level[2 * k + 1])
    {
      next := next + [Parent(sha, level[i], level[i + 1])];
      i := i + 2;
    }
  }

  /** Pairing up the padded level is one round. */
  lemma PairUpIsNextLevel(sha: Sha256, level: seq<Digest>, padded: seq<Digest>, next: seq<Digest>)
    requires padded == PadOdd(level)
    requires 2 * |next| == |padded|
    requires forall k :: 0 <= k < |next| ==> next[k] == Parent(sha, padded[2 * k], padded[2 * k + 1])
    ensures next == NextLevel(sha, level)
  {
    forall k | 0 <= k < |next| ensures next[k] == NextLevel(sha, level)[k] {
      PairsAt(sha, padded, k);
    }
  }

  /** Every root is 64 lowercase hexadecimal characters. */
  lemma MerkleRootShape(sha: Sha256, txs: seq<string>)
    ensures |MerkleRootOf(sha, txs)| == 64 && IsHexString(MerkleRootOf(sha, txs))
  {
  }

  /** No transactions: the digest of the empty byte string. */
  lemma MerkleRootEmpty(sha: Sha256)
    ensures MerkleRootOf(sha, []) == Hex(sha([]))
  {
  }

  /** One transaction: its own leaf digest is the root. */
  lemma MerkleRootSingle(sha: Sha256, tx: string)
    ensures MerkleRootOf(sha, [tx]) == Hex(sha(Utf8(tx)))
  {
  }

  /** Two transactions: the digest of the two leaf digests. */
  lemma MerkleRootPair(sha: Sha256, a: string, b: string)
    ensures MerkleRootOf(sha, [a, b]) == Hex(Parent(sha, Leaf(sha, a), Leaf(sha, b)))
  {
    var leaves := Leaves(sha, [a, b]);
    assert leaves == [Leaf(sha, a), Leaf(sha, b)];
    var up := NextLevel(sha, leaves);
    NextLevelAt(sha, leaves, 0);
    assert |up| == 1 && up[0] == Parent(sha, leaves[0], leaves[1]);
    assert Collapse(sha, leaves) == Collapse(sha, up) == up[0];
  }

  /** Three transactions: the third leaf is paired with a copy of itself. */
  lemma MerkleRootThree(sha: Sha256, a: string, b: string, c: string)
    ensures var la, lb, lc := Leaf(sha, a), Leaf(sha, b), Leaf(sha, c);
            MerkleRootOf(sha, [a, b, c]) == Hex(Parent(sha, Parent(sha, la, lb), Parent(sha, lc, lc)))
  {
    var leaves := Leaves(sha, [a, b, c]);
    assert leaves == [Leaf(sha, a), Leaf(sha, b), Leaf(sha, c)];
    var up := NextLevel(sha, leaves);
    NextLevelAt(sha, leaves, 0);
    NextLevelAt(sha, leaves, 1);
    assert |up| == 2 && up[0] == Parent(sha, leaves[0], leaves[1]) && up[1] == Parent(sha, leaves[2], leaves[2]);
    var top := NextLevel(sha, up);
    NextLevelAt(sha, up, 0);
    assert |top| == 1 && top[0] == Parent(sha, up[0], up[1]);
    assert Collapse(sha, leaves) == Collapse(sha, up) == Collapse(sha, top) == top[0];
  }

  // An independent, top-down reading of the same tree: the node at height h
  // and position pos hashes its two children, and a node whose right child
  // would fall past the end of its level is paired with its left child.

  /** The number of nodes at height h above n leaves. */
  function Width(n: nat, h: nat): (w: nat)
    ensures n >= 1 ==> w >= 1
  {
    if h == 0 then n else (Width(n, h - 1) + 1) / 2
  }

  function Node(sha: Sha256, leaves: seq<Digest>, h: nat, pos: nat): Digest
    requires pos < Width(|leaves|, h)
    decreases h
  {
    if h == 0 then leaves[pos]
    else
      var below := Width(|leaves|, h - 1);
      assert pos < (below + 1) / 2;
      assert 2 * pos < below;
      var left := Node(sha, leaves, h - 1, 2 * pos);
      var right := if 2 * pos + 1 < below then Node(sha, leaves, h - 1, 2 * pos + 1) else left;
      Parent(sha, left, right)
  }

  /** How many rounds the loop of merkleRoot runs on n >= 1 leaves. */
  function Rounds(n: nat): nat
    decreases n
  {
    if n <= 1 then 0 else 1 + Rounds((n + 1) / 2)
  }

  function TreeRoot(sha: Sha256, leaves: seq<Digest>): Digest
    requires |leaves| >= 1
  {
    Node(sha, leaves, Rounds(|leaves|), 0)
  }

  /** The level reached after h rounds. */
  function LevelAt(sha: Sha256, leaves: seq<Digest>, h: nat): seq<Digest>
    decreases h
  {
    if h == 0 then leaves else NextLevel(sha, LevelAt(sha, leaves, h - 1))
  }

  /** After h rounds the level holds exactly the top-down nodes of height h. */
  lemma {:induction false} LevelAtIsNodes(sha: Sha256, leaves: seq<Digest>, h: nat)
    ensures |LevelAt(sha, leaves, h)| == Width(|leaves|, h)
    ensures forall pos :: 0 <= pos < Width(|leaves|, h) ==>
      LevelAt(sha, leaves, h)[pos] == Node(sha, leaves, h, pos)
    decreases h
  {
    if h > 0 {
      LevelAtIsNodes(sha, leaves, h - 1);
      var below := LevelAt(sha, leaves, h - 1);
      forall pos | 0 <= pos < Width(|leaves|, h)
        ensures LevelAt(sha, leaves, h)[pos] == Node(sha, leaves, h, pos)
      {
        NextLevelAt(sha, below, pos);
      }
    }
  }

  /** Running one round first and h rounds after is h + 1 rounds. */
  lemma {:induction false} LevelAtShift(sha: Sha256, leaves: seq<Digest>, h: nat)
    ensures LevelAt(sha, NextLevel(sha, leaves), h) == LevelAt(sha, leaves, h + 1)
    decreases h
  {
    if h > 0 {
      LevelAtShift(sha, leaves, h - 1);
    }
  }

  /** The loop stops after Rounds(|level|) rounds, on the node that level left. */
  lemma {:induction false} CollapseIsLevelAt(sha: Sha256, level: seq<Digest>)
    requires |level| >= 1
    ensures |LevelAt(sha, level, Rounds(|level|))| == 1
    ensures Collapse(sha, level) == LevelAt(sha, level, Rounds(|level|))[0]
    decreases |level|
  {
    if |level| > 1 {
      var next := NextLevel(sha, level);
      CollapseIsLevelAt(sha, next);
      LevelAtShift(sha, level, Rounds(|next|));
    }
  }

  /** The level-by-level loop and the top-down tree agree on every input. */
  lemma MerkleRootIsTreeRoot(sha: Sha256, txs: seq<string>)
    requires txs != []
    ensures MerkleRootOf(sha, txs) == Hex(TreeRoot(sha, Leaves(sha, txs)))
  {
    var leaves := Leaves(sha, txs);
    CollapseIsLevelAt(sha, leaves);
    LevelAtIsNodes(sha, leaves, Rounds(|leaves|));
  }
}
