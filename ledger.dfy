/** The ledger engine (main.go): blocks, header hashing, the difficulty
    predicate, the proof-of-work search and the Blockchain object that owns
    the chain and the pool of pending transactions. */
module Ledger {
  import opened Primitives
  import opened Text
  import opened Merkle

  /** One block; its hash covers the five header fields, not the batch itself. */
  datatype Block = Block(
    index: int,
    timestamp: string,
    txs: seq<string>,
    merkleRoot: string,
    prevHash: string,
    hash: string,
    nonce: int)

  /** The ledger's caller-correctable failures. */
  datatype Error =
    | EmptyTransaction  // "transaction cannot be empty"
    | EmptyPool         // "no pending transactions to put in a block"
    | EmptyQuery        // "missing query param q"

  datatype Option<T> = None | Some(value: T)

  datatype Result<T> = Ok(value: T) | Err(error: Error)

  // ---------------------------------------------------------------------
  // Header hashing

  /** The record calculateHash digests: the header fields joined by '|',
      the integers in decimal. */
  function HeaderRecord(index: int, timestamp: string, merkleRoot: string, prevHash: string, nonce: int): string {
    Decimal(index) + "|" + timestamp + "|" + merkleRoot + "|" + prevHash + "|" + Decimal(nonce)
  }

  /** calculateHash: the hex SHA-256 digest of the header record. */
  function CalculateHash(sha: Sha256, index: int, timestamp: string, merkleRoot: string, prevHash: string, nonce: int): (h: string)
    ensures |h| == 64 && IsHexString(h)
    ensures Unhex(h) == sha(Utf8(HeaderRecord(index, timestamp, merkleRoot, prevHash, nonce)))
  {
    var digest := sha(Utf8(HeaderRecord(index, timestamp, merkleRoot, prevHash, nonce)));
    UnhexHex(digest);
    Hex(digest)
  }

  /** The hash b's header would have with the given nonce. */
  function HashAt(sha: Sha256, b: Block, nonce: int): string {
    CalculateHash(sha, b.index, b.timestamp, b.merkleRoot, b.prevHash, nonce)
  }

  /** Each nonce the miner tries yields a different record to digest: the
      record ends with the nonce's decimal rendering. */
  lemma HeaderRecordNonceInjective(index: int, timestamp: string, merkleRoot: string, prevHash: string, n1: int, n2: int)
    requires HeaderRecord(index, timestamp, merkleRoot, prevHash, n1) == HeaderRecord(index, timestamp, merkleRoot, prevHash, n2)
    ensures n1 == n2
  {
    var prefix := Decimal(index) + "|" + timestamp + "|" + merkleRoot + "|" + prevHash + "|";
    var r1 := HeaderRecord(index, timestamp, merkleRoot, prevHash, n1);
    var r2 := HeaderRecord(index, timestamp, merkleRoot, prevHash, n2);
    assert r1 == prefix + Decimal(n1) && r2 == prefix + Decimal(n2);
    assert Decimal(n1) == r1[|prefix|..] == r2[|prefix|..] == Decimal(n2);
    DecimalInjective(n1, n2);
  }

  // ---------------------------------------------------------------------
  // The difficulty predicate

  /** strings.Repeat of one character. */
  function Repeat(c: char, n: nat): (s: string)
    ensures |s| == n && forall i :: 0 <= i < n ==> s[i] == c
  {
    seq(n, _ => c)
  }

  /** hasLeadingZeros: trivially true for a non-positive difficulty, else a
      prefix test against that many '0' characters. */
  function HasLeadingZeros(hash: string, difficulty: int): (ok: bool)
    ensures ok <==> difficulty <= 0
                    || (difficulty <= |hash| && forall i :: 0 <= i < difficulty ==> hash[i] == '0')
  {
    difficulty <= 0 || Repeat('0', difficulty) <= hash
  }

  /** A hash that meets a difficulty meets every lower one. */
  lemma LeadingZerosMonotone(hash: string, d: int, d': int)
    requires HasLeadingZeros(hash, d) && d' <= d
    ensures HasLeadingZeros(hash, d')
  {
  }

  /** Header hashes are 64 characters long, so no difficulty above 64 can
      be met and the search for one never ends. */
  lemma DifficultyAbove64Unmeetable(sha: Sha256, b: Block, nonce: int, d: int)
    requires d > 64
    ensures !HasLeadingZeros(HashAt(sha, b, nonce), d)
  {
  }

  /** The hash at a nonce depends on the header alone, not on the hash or
      nonce a block currently carries. */
  lemma HashAtIgnoresSeal(sha: Sha256, b: Block, nonce: int, hash: string, n: int)
    ensures HashAt(sha, b.(nonce := nonce, hash := hash), n) == HashAt(sha, b, n)
  {
  }

  // ---------------------------------------------------------------------
  // Proof of work

  /** Some nonce from b's own onwards gives a hash meeting the difficulty:
      exactly the inputs on which the search of MineBlock comes back. */
  ghost predicate Mineable(sha: Sha256, b: Block, difficulty: int) {
    exists n :: b.nonce <= n && HasLeadingZeros(HashAt(sha, b, n), difficulty)
  }

  /** MineBlock: rehash with nonce, nonce + 1, ... and return the block
      with the first nonce whose hash meets the difficulty. */
  method MineBlock(sha: Sha256, b: Block, difficulty: int) returns (mined: Block)
    requires Mineable(sha, b, difficulty)
    ensures mined == b.(nonce := mined.nonce, hash := mined.hash)
    ensures mined.hash == HashAt(sha, b, mined.nonce)
    ensures HasLeadingZeros(mined.hash, difficulty)
    ensures b.nonce <= mined.nonce
    ensures forall k :: b.nonce <= k < mined.nonce ==> !HasLeadingZeros(HashAt(sha, b, k), difficulty)
    ensures difficulty <= 0 ==> mined.nonce == b.nonce
  {
    ghost var goal :| b.nonce <= goal && HasLeadingZeros(HashAt(sha, b, goal), difficulty);
    mined := b;
    while true
      invariant mined == b.(nonce := mined.nonce, hash := mined.hash)
      invariant b.nonce <= mined.nonce <= goal
      invariant difficulty <= 0 ==> mined.nonce == b.nonce
      invariant forall k :: b.nonce <= k < mined.nonce ==> !HasLeadingZeros(HashAt(sha, b, k), difficulty)
      decreases goal - mined.nonce
    {
      mined := mined.(hash := CalculateHash(sha, mined.index, mined.timestamp, mined.merkleRoot, mined.prevHash, mined.nonce));
      if HasLeadingZeros(mined.hash, difficulty) {
        return;
      }
      mined := mined.(nonce := mined.nonce + 1);
    }
  }

  // ---------------------------------------------------------------------
  // Chain invariants

  /** A block whose stored root and hash are the ones its fields determine. */
  ghost predicate Consistent(sha: Sha256, b: Block) {
    b.merkleRoot == MerkleRootOf(sha, b.txs) && b.hash == HashAt(sha, b, b.nonce)
  }

  /** The shape NewBlockchain gives the first block. */
  ghost predicate IsGenesis(sha: Sha256, b: Block) {
    b.index == 0 && b.prevHash == "0" && |b.txs| == 1 && b.nonce == 0 && Consistent(sha, b)
  }

  /** The genesis block is hashed but never mined, so its hash need not
      meet the difficulty: under any hash function whose digests begin
      with the byte 0xff, no header hash meets even difficulty 1. */
  lemma GenesisNeedNotMeetDifficulty(sha: Sha256, b: Block, nonce: int)
    requires forall m :: sha(m)[0] == 0xff as byte
    ensures HashAt(sha, b, nonce)[0] == 'f'
    ensures !HasLeadingZeros(HashAt(sha, b, nonce), 1)
  {
    var digest := sha(Utf8(HeaderRecord(b.index, b.timestamp, b.merkleRoot, b.prevHash, nonce)));
    assert Hex(digest)[0] == HexDigit(digest[0] as int / 16);
  }

  /** b may follow prev: the next index, prev's hash as link, a non-empty
      batch, consistent, and sealed at the difficulty. */
  ghost predicate Follows(sha: Sha256, prev: Block, b: Block, difficulty: int) {
    b.index == prev.index + 1 && b.prevHash == prev.hash && b.txs != []
    && Consistent(sha, b) && HasLeadingZeros(b.hash, difficulty)
  }

  /** A genesis block followed by blocks each following its predecessor. */
  ghost predicate ValidChain(sha: Sha256, chain: seq<Block>, difficulty: int) {
    |chain| >= 1 && IsGenesis(sha, chain[0])
    && forall i :: 0 < i < |chain| ==> Follows(sha, chain[i - 1], chain[i], difficulty)
  }

  /** In a valid chain every block sits at its own index and links to the
      hash of the block before it. */
  lemma {:induction false} ValidChainIndexed(sha: Sha256, chain: seq<Block>, difficulty: int)
    requires ValidChain(sha, chain, difficulty)
    ensures forall i :: 0 <= i < |chain| ==> chain[i].index == i
    ensures forall i :: 0 < i < |chain| ==> chain[i].prevHash == chain[i - 1].hash
    decreases |chain|
  {
    if |chain| > 1 {
      var init := chain[..|chain| - 1];
      ValidChainPrefix(sha, chain, difficulty, |chain| - 1);
      ValidChainIndexed(sha, init, difficulty);
      assert Follows(sha, chain[|chain| - 2], chain[|chain| - 1], difficulty);
      forall i | 0 <= i < |chain| ensures chain[i].index == i {
        if i < |chain| - 1 {
          assert chain[i] == init[i];
        }
      }
    }
  }

  /** Validity is closed under taking a non-empty prefix: the ledger's
      history, cut at any point, is itself a valid ledger. */
  lemma ValidChainPrefix(sha: Sha256, chain: seq<Block>, difficulty: int, k: nat)
    requires ValidChain(sha, chain, difficulty) && 1 <= k <= |chain|
    ensures ValidChain(sha, chain[..k], difficulty)
  {
    var p := chain[..k];
    forall i | 0 < i < |p| ensures Follows(sha, p[i - 1], p[i], difficulty) {
      assert p[i - 1] == chain[i - 1] && p[i] == chain[i];
    }
  }

  /** Appending keeps a chain valid exactly when the new block follows the
      last one. */
  lemma ValidChainSnoc(sha: Sha256, chain: seq<Block>, b: Block, difficulty: int)
    requires ValidChain(sha, chain, difficulty)
    ensures ValidChain(sha, chain + [b], difficulty) <==> Follows(sha, chain[|chain| - 1], b, difficulty)
  {
    var c := chain + [b];
    assert c[|chain|] == b && c[|chain| - 1] == chain[|chain| - 1];
    if Follows(sha, chain[|chain| - 1], b, difficulty) {
      forall i | 0 < i < |c| ensures Follows(sha, c[i - 1], c[i], difficulty) {
        if i < |chain| {
          assert c[i - 1] == chain[i - 1] && c[i] == chain[i];
        }
      }
    }
  }

  /** A transaction as AddTransaction admits it: non-empty and already
      trimmed. */
  predicate IsToken(tx: string) {
    tx != "" && TrimSpace(tx) == tx
  }

  predicate AllTokens(txs: seq<string>) {
    forall tx :: tx in txs ==> IsToken(tx)
  }

  /** Trimming any non-blank text gives a token. */
  lemma TrimmedIsToken(tx: string)
    requires !AllSpace(tx)
    ensures IsToken(TrimSpace(tx))
  {
    TrimSpaceEmpty(tx);
    TrimSpaceIdempotent(tx);
  }

  /** A genesis block can fail the difficulty: for the hash function whose
      every digest is 32 bytes of 0xff, the genesis block of any roll and
      timestamp has a hash starting with 'f'. */
  lemma GenesisCanFailDifficulty(roll: string, now: string)
    ensures exists sha: Sha256, g: Block :: IsGenesis(sha, g) && g.txs == [roll] && !HasLeadingZeros(g.hash, 1)
  {
    var allOnes: Sha256 := m => seq(32, _ => 0xff as byte);
    var g := Block(0, now, [roll], MerkleRootOf(allOnes, [roll]), "0", "", 0);
    g := g.(hash := HashAt(allOnes, g, 0));
    GenesisNeedNotMeetDifficulty(allOnes, g, 0);
    assert IsGenesis(allOnes, g);
  }

  // ---------------------------------------------------------------------
  // Block construction

  /** newGenesisBlock: index 0, the single transaction roll, link "0", nonce 0. */
  method NewGenesisBlock(sha: Sha256, roll: string, now: string) returns (g: Block)
    ensures IsGenesis(sha, g)
    ensures g.txs == [roll] && g.timestamp == now
    ensures g.merkleRoot == Hex(Leaf(sha, roll))
  {
    var txs := [roll];
    var mr := MerkleRoot(sha, txs);
    MerkleRootSingle(sha, roll);
    g := Block(0, now, txs, mr, "0", "", 0);
    g := g.(hash := CalculateHash(sha, g.index, g.timestamp, g.merkleRoot, g.prevHash, g.nonce));
  }

  /** The block BuildNextBlock makes after prev from a batch, before mining. */
  function Candidate(sha: Sha256, prev: Block, txs: seq<string>, now: string): (b: Block)
    ensures b.index == prev.index + 1 && b.prevHash == prev.hash && b.timestamp == now
    ensures b.txs == txs && b.nonce == 0 && Consistent(sha, b)
  {
    var b := Block(prev.index + 1, now, txs, MerkleRootOf(sha, txs), prev.hash, "", 0);
    b.(hash := HashAt(sha, b, 0))
  }

  /** Sealing a candidate built on prev yields a block that follows prev,
      and whose hash at any nonce is the candidate's. */
  lemma SealedCandidateFollows(sha: Sha256, prev: Block, candidate: Block, sealed: Block, difficulty: int)
    requires candidate.index == prev.index + 1 && candidate.prevHash == prev.hash
    requires candidate.txs != [] && candidate.merkleRoot == MerkleRootOf(sha, candidate.txs)
    requires sealed == candidate.(nonce := sealed.nonce, hash := sealed.hash)
    requires sealed.hash == HashAt(sha, candidate, sealed.nonce)
    requires HasLeadingZeros(sealed.hash, difficulty)
    ensures Follows(sha, prev, sealed, difficulty)
    ensures forall k :: HashAt(sha, sealed, k) == HashAt(sha, candidate, k)
  {
    forall k ensures HashAt(sha, sealed, k) == HashAt(sha, candidate, k) {
      HashAtIgnoresSeal(sha, candidate, sealed.nonce, sealed.hash, k);
    }
  }

  // ---------------------------------------------------------------------
  // The ledger

  /** Blockchain: the chain and the pending pool, changed in place; the
      name and difficulty fixed at construction. */
  class Blockchain {
    const sha: Sha256
    const name: string
    const difficulty: int
    var chain: seq<Block>
    var pendingTxs: seq<string>

    /** A positive difficulty, a valid chain, and only trimmed non-empty
        transactions in the pool and in every block after the first. */
    ghost predicate Valid()
      reads this
    {
      && difficulty > 0
      && ValidChain(sha, chain, difficulty)
      && (forall i :: 0 < i < |chain| ==> AllTokens(chain[i].txs))
      && AllTokens(pendingTxs)
    }

    /** NewBlockchain: a non-positive difficulty becomes 3; the chain holds
        only the genesis block carrying roll; the pool is empty. */
    constructor (sha: Sha256, name: string, roll: string, difficulty: int, now: string)
      ensures Valid()
      ensures this.sha == sha && this.name == name
      ensures this.difficulty == if difficulty <= 0 then 3 else difficulty
      ensures |chain| == 1 && chain[0].txs == [roll] && chain[0].timestamp == now
      ensures pendingTxs == []
    {
      var genesis := NewGenesisBlock(sha, roll, now);
      this.sha := sha;
      this.name := name;
      this.difficulty := if difficulty <= 0 then 3 else difficulty;
      chain := [genesis];
      pendingTxs := [];
    }

    /** AddTransaction: a blank transaction is refused; any other is
        trimmed and queued after the ones already pending. */
    method AddTransaction(tx: string) returns (err: Option<Error>)
      modifies this`pendingTxs
      ensures chain == old(chain)
      ensures err == None || err == Some(EmptyTransaction)
      ensures err.Some? <==> AllSpace(tx)
      ensures err.Some? ==> pendingTxs == old(pendingTxs)
      ensures err.None? ==> pendingTxs == old(pendingTxs) + [TrimSpace(tx)]
      ensures old(Valid()) ==> Valid()
    {
      var trimmed := TrimSpace(tx);
      TrimSpaceEmpty(tx);
      if trimmed == "" {
        return Some(EmptyTransaction);
      }
      TrimmedIsToken(tx);
      pendingTxs := pendingTxs + [trimmed];
      err := None;
    }

    /** BuildNextBlock: with nothing pending it fails and changes nothing;
        otherwise it builds the unmined successor of the last block from a
        copy of the whole pool and then empties the pool. */
    method BuildNextBlock(now: string) returns (r: Result<Block>)
      requires pendingTxs != [] ==> chain != []
      modifies this`pendingTxs
      ensures chain == old(chain)
      ensures old(pendingTxs) == [] ==> r == Err(EmptyPool) && pendingTxs == old(pendingTxs)
      ensures old(pendingTxs) != [] ==>
        && r.Ok?
        && var prev, b := chain[|chain| - 1], r.value;
        && b.index == prev.index + 1
        && b.prevHash == prev.hash
        && b.timestamp == now
        && b.txs == old(pendingTxs)
        && b.merkleRoot == MerkleRootOf(sha, b.txs)
        && b.nonce == 0
        && b.hash == HashAt(sha, b, 0)
        && b == Candidate(sha, prev, old(pendingTxs), now)
        && pendingTxs == []
      ensures old(Valid()) ==> Valid()
    {
      if |pendingTxs| == 0 {
        return Err(EmptyPool);
      }
      var prev := chain[|chain| - 1];
      var index := prev.index + 1;
      var txs := pendingTxs;
      var mr := MerkleRoot(sha, txs);
      var b := Block(index, now, txs, mr, prev.hash, "", 0);
      b := b.(hash := CalculateHash(sha, b.index, b.timestamp, b.merkleRoot, b.prevHash, b.nonce));
      pendingTxs := [];
      r := Ok(b);
    }

    /** AppendBlock: appends without any check, so the ledger stays valid
        exactly when the block follows the last one and holds only trimmed
        non-empty transactions. */
    method AppendBlock(b: Block)
      modifies this`chain
      ensures chain == old(chain) + [b]
      ensures pendingTxs == old(pendingTxs)
      ensures old(Valid()) ==>
        (Valid() <==> Follows(sha, old(chain)[|old(chain)| - 1], b, difficulty) && AllTokens(b.txs))
    {
      if Valid() {
        ValidChainSnoc(sha, chain, b, difficulty);
      }
      ghost var before := chain;
      chain := chain + [b];
      assert chain[|before|] == b;
      assert forall i :: 0 < i < |before| ==> chain[i] == before[i];
    }

    /** MineNextBlock: fails on an empty pool and changes nothing; otherwise
        builds the next block from the whole pool, seals it with the first
        nonce from 0 whose hash meets the difficulty, appends it and leaves
        the pool empty. The requirement is the search's termination
        condition: without a sealing nonce the source loops forever. */
    method MineNextBlock(now: string) returns (r: Result<Block>)
      requires pendingTxs != [] ==>
        chain != [] && Mineable(sha, Candidate(sha, chain[|chain| - 1], pendingTxs, now), difficulty)
      modifies this`pendingTxs, this`chain
      ensures old(pendingTxs) == [] ==>
        r == Err(EmptyPool) && chain == old(chain) && pendingTxs == old(pendingTxs)
      ensures old(pendingTxs) != [] ==>
        && r.Ok?
        && var prev, b := old(chain)[|old(chain)| - 1], r.value;
        && chain == old(chain) + [b]
        && pendingTxs == []
        && Follows(sha, prev, b, difficulty)
        && b.txs == old(pendingTxs)
        && b.timestamp == now
        && 0 <= b.nonce
        && forall k :: 0 <= k < b.nonce ==> !HasLeadingZeros(HashAt(sha, b, k), difficulty)
      ensures old(Valid()) ==> Valid()
    {
      var built := BuildNextBlock(now);
      if built.Err? {
        return built;
      }
      ghost var prev := chain[|chain| - 1];
      var mined := MineBlock(sha, built.value, difficulty);
      SealedCandidateFollows(sha, prev, built.value, mined, difficulty);
      AppendBlock(mined);
      r := Ok(mined);
    }
  }
}
