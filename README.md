# Ledger engine of a teaching blockchain

A Dafny model of the ledger at the heart of `talal_blockchain/backend/main.go`, with proofs. The model covers:

- A `Blockchain` object that owns a chain of blocks and a pool of pending transactions (plain strings).
- A Merkle root over each block's transactions.
- A header hash over each block's index, timestamp, Merkle root, previous hash and nonce.
- A proof-of-work search for a nonce whose hash starts with `difficulty` zero characters.
- The case-insensitive transaction search of the `/search` endpoint.

The model has five modules:

- `Primitives`: bytes, lowercase hexadecimal (section 8 of RFC 4648), the UTF-8 bytes of a Go string, Go's `%d` rendering, and SHA-256 as a parameter.
- `Text`: Go's `strings.TrimSpace`, `strings.ToLower` and `strings.Contains`.
- `Merkle`: the tree-building loop, its specification and an independent top-down tree.
- `Ledger`: blocks, header hashing, the difficulty test, mining, the chain invariant and the `Blockchain` class.
- `Search`: the filter loop of the search handler.

SHA-256 (FIPS 180-4) is not defined. Every operation that hashes takes a function `sha: Bytes -> Digest` that returns 32 bytes, and the ledger object keeps one as a constant. Every property here holds for any such function.

The ledger invariant `Blockchain.Valid()` says:

- The difficulty is positive.
- Block 0 has the genesis shape.
- Every later block has its predecessor's index plus one and links to its predecessor's hash.
- Every later block has a non-empty batch and carries the Merkle root and hash its fields determine.
- Every later block's hash meets the difficulty.
- Every transaction in the pending pool, and in every block after the first, is trimmed and non-empty. Transactions enter the pool only through `AddTransaction` (main.go:134-141), and `BuildNextBlock` copies the pool into the block.

The constructor establishes the invariant. `AddTransaction`, `BuildNextBlock` and `MineNextBlock` preserve it. `AppendBlock` performs no check, and it preserves the invariant exactly when the appended block follows the last one and holds only trimmed non-empty transactions.

Two facts about the code shape the model:

- `BuildNextBlock` empties the pending pool itself (main.go:170), as its comment at main.go:143-144 says. The model proves the pool is empty afterwards, so `MineNextBlock` has no clearing step of its own.
- The genesis block is hashed but never mined (main.go:103-118). The comments at main.go:188-189 and main.go:351 describe the difficulty as the number of leading zeros a hash must have, but only the blocks `MineNextBlock` produces are searched for such a hash. `Ledger.GenesisCanFailDifficulty` supplies a hash function under which the genesis hash fails even difficulty 1. The chain invariant therefore demands the difficulty only of blocks after the first.

## Model

| member | source | states |
|---|---|---|
| `Primitives.HexDigit` | talal_blockchain/backend/main.go:54 | each nibble renders as a lowercase hex character |
| `Primitives.HexValue` | talal_blockchain/backend/main.go:54 | reading a hex character gives a nibble that renders back as that character |
| `Primitives.Hex` | talal_blockchain/backend/main.go:54 | `hex.EncodeToString` gives two lowercase hex characters per byte |
| `Primitives.Unhex` | talal_blockchain/backend/main.go:54 | decoding an even-length hex string gives half as many bytes |
| `Primitives.HexValueOfDigit` | talal_blockchain/backend/main.go:54 | reading back a rendered nibble gives the nibble |
| `Primitives.UnhexHex` | talal_blockchain/backend/main.go:54 | decoding the hex rendering of any bytes gives those bytes |
| `Primitives.HexUnhex` | talal_blockchain/backend/main.go:54 | every even-length lowercase hex string is the rendering of its decoding |
| `Primitives.HexInjective` | talal_blockchain/backend/main.go:54 | distinct digests render to distinct hex strings |
| `Primitives.EncodeChar` | talal_blockchain/backend/main.go:53 | a character's UTF-8 form is 1 to 4 bytes, and a single byte exactly for ASCII |
| `Primitives.Utf8` | talal_blockchain/backend/main.go:53 | `[]byte(s)` has at least as many bytes as `s` has characters |
| `Primitives.Utf8OfAscii` | talal_blockchain/backend/main.go:74 | on ASCII text `[]byte(s)` is the character codes, one byte each |
| `Primitives.Digits` | talal_blockchain/backend/main.go:52 | `%d` of a natural number is a non-empty string of digits with no leading zero |
| `Primitives.Decimal` | talal_blockchain/backend/main.go:52 | `%d` of any integer is non-empty |
| `Primitives.DigitsValueOfDigits` | talal_blockchain/backend/main.go:52 | the digits `%d` writes for n read back as n |
| `Primitives.ParseDecimalOfDecimal` | talal_blockchain/backend/main.go:52 | a `%d` rendering, sign included, parses back to the integer |
| `Primitives.DecimalInjective` | talal_blockchain/backend/main.go:52 | distinct integers render to distinct decimal strings |
| `Text.TrimLeft` | talal_blockchain/backend/main.go:135 | the result is a suffix of the input; everything dropped is white space; it starts with a non-space or is empty |
| `Text.TrimRight` | talal_blockchain/backend/main.go:135 | the result is a prefix of the input; everything dropped is white space; it ends with a non-space or is empty |
| `Text.TrimSpaceSlice` | talal_blockchain/backend/main.go:135 | `TrimSpace` keeps one slice of its input, cuts only white space, and neither end of the slice is white space |
| `Text.TrimSpaceEmpty` | talal_blockchain/backend/main.go:321-322 | a string trims to "" exactly when it is all white space |
| `Text.TrimSpaceIdempotent` | talal_blockchain/backend/main.go:135 | trimming a trimmed string changes nothing |
| `Text.TrimLeftNoop` | talal_blockchain/backend/main.go:135 | a string that starts with a non-space loses nothing at the left |
| `Text.IsSpace` | talal_blockchain/backend/main.go:135 | defined as Go's `unicode.IsSpace`: the characters 0x09-0x0D, 0x20, 0x85, 0xA0, 0x1680, 0x2000-0x200A, 0x2028, 0x2029, 0x202F, 0x205F and 0x3000 |
| `Text.TrimSpace` | talal_blockchain/backend/main.go:135 | `strings.TrimSpace` as used at main.go:135 and 321: the result is no longer than the input, and is empty or neither starts nor ends with white space |
| `Text.TrimRightNoop` | talal_blockchain/backend/main.go:135 | a string that ends with a non-space loses nothing at the right |
| `Text.LowerChar` | talal_blockchain/backend/main.go:326 | the result is never an upper-case ASCII letter; it is the input, or the input's lower-case letter 32 code points above it |
| `Text.ToLower` | talal_blockchain/backend/main.go:326 | lower-casing keeps the length |
| `Text.ToLowerIdempotent` | talal_blockchain/backend/main.go:326 | lower-casing twice is lower-casing once, and no upper-case ASCII letter remains |
| `Text.Contains` | talal_blockchain/backend/main.go:334 | true exactly when the needle occurs at some offset of the text |
| `Text.ContainsShift` | talal_blockchain/backend/main.go:334 | the occurrences after the first character are those of the tail, shifted by one |
| `Merkle.Leaf` | talal_blockchain/backend/main.go:73-74 | defined as the digest of the UTF-8 bytes of one transaction |
| `Merkle.Parent` | talal_blockchain/backend/main.go:91-92 | defined as the digest of the left child's 32 bytes followed by the right child's |
| `Merkle.Leaves` | talal_blockchain/backend/main.go:72-78 | one leaf per transaction, in order: leaf i is the digest of transaction i's bytes |
| `Merkle.PadOdd` | talal_blockchain/backend/main.go:82-87 | an odd level gains one node, a copy of its last; an even level is unchanged; the result is one node longer exactly when the level is odd |
| `Merkle.Collapse` | talal_blockchain/backend/main.go:81-100 | defined as: rounds applied until one node remains; that node |
| `Merkle.Pairs` | talal_blockchain/backend/main.go:89-97 | pairing an even level gives half as many parents |
| `Merkle.PairsAt` | talal_blockchain/backend/main.go:89-97 | parent i is the digest of nodes 2i and 2i+1 joined, left first |
| `Merkle.NextLevel` | talal_blockchain/backend/main.go:81-98 | one round turns n nodes into ceil(n/2) |
| `Merkle.NextLevelAt` | talal_blockchain/backend/main.go:81-98 | node i of the next round hashes nodes 2i and 2i+1; the last node of an odd level is paired with itself |
| `Merkle.MerkleRootOf` | talal_blockchain/backend/main.go:64-101 | the specified root: `hex(sha(""))` for no transactions, else the hex of the leaves collapsed round by round; always 64 lowercase hex characters |
| `Merkle.MerkleRoot` | talal_blockchain/backend/main.go:64-101 | the loop returns the specified root: `hex(sha(""))` for no transactions, else the leaves collapsed round by round |
| `Merkle.PairUp` | talal_blockchain/backend/main.go:89-97 | the inner loop replaces each adjacent pair by its parent, in order |
| `Merkle.PairUpIsNextLevel` | talal_blockchain/backend/main.go:81-98 | padding an odd level and then pairing it up is exactly one round |
| `Merkle.MerkleRootShape` | talal_blockchain/backend/main.go:64-101 | every root is 64 lowercase hex characters |
| `Merkle.MerkleRootEmpty` | talal_blockchain/backend/main.go:65-69 | no transactions give the hex digest of the empty byte string |
| `Merkle.MerkleRootSingle` | talal_blockchain/backend/main.go:72-80 | one transaction gives the hex digest of its own bytes |
| `Merkle.MerkleRootPair` | talal_blockchain/backend/main.go:80-98 | two transactions give the digest of their two leaf digests joined |
| `Merkle.MerkleRootThree` | talal_blockchain/backend/main.go:82-86 | with three transactions the third leaf is paired with a copy of itself |
| `Merkle.Width` | talal_blockchain/backend/main.go:80-98 | a non-empty leaf level leaves at least one node at every height |
| `Merkle.LevelAtIsNodes` | talal_blockchain/backend/main.go:72-98 | after h rounds the level has the top-down tree's width, and each node is the tree node at height h |
| `Merkle.LevelAtShift` | talal_blockchain/backend/main.go:80-98 | one round and then h more rounds is h+1 rounds |
| `Merkle.CollapseIsLevelAt` | talal_blockchain/backend/main.go:80-100 | the loop stops after `Rounds(n)` rounds with exactly one node, and that node is the result |
| `Merkle.MerkleRootIsTreeRoot` | talal_blockchain/backend/main.go:64-101 | for any non-empty batch the level-by-level loop and the top-down binary tree give the same root |
| `Ledger.HeaderRecord` | talal_blockchain/backend/main.go:52 | defined as the `%d|%s|%s|%s|%d` record of index, timestamp, Merkle root, previous hash and nonce |
| `Ledger.CalculateHash` | talal_blockchain/backend/main.go:51-55 | the header hash is 64 lowercase hex characters and decodes to the SHA-256 of the UTF-8 header record |
| `Ledger.HashAt` | talal_blockchain/backend/main.go:192 | defined as the header hash of a block's fields at a given nonce |
| `Ledger.HeaderRecordNonceInjective` | talal_blockchain/backend/main.go:52 | different nonces give different header records |
| `Ledger.Repeat` | talal_blockchain/backend/main.go:184 | `strings.Repeat` of one character: n copies of it |
| `Ledger.HasLeadingZeros` | talal_blockchain/backend/main.go:180-186 | true when difficulty <= 0; otherwise true exactly when the hash has at least `difficulty` characters and each of the first `difficulty` is '0' |
| `Ledger.LeadingZerosMonotone` | talal_blockchain/backend/main.go:180-186 | meeting a difficulty implies meeting every lower one |
| `Ledger.DifficultyAbove64Unmeetable` | talal_blockchain/backend/main.go:180-198 | no header hash meets a difficulty above 64, so mining at such a difficulty never returns |
| `Ledger.HashAtIgnoresSeal` | talal_blockchain/backend/main.go:192 | the hash tried at a nonce does not depend on the hash and nonce the block carried before |
| `Ledger.Mineable` | talal_blockchain/backend/main.go:190-198 | defined as: some nonce from the block's own onwards gives a hash meeting the difficulty, which is exactly when the loop returns |
| `Ledger.MineBlock` | talal_blockchain/backend/main.go:190-198 | only hash and nonce change; the hash is the header hash at the returned nonce and meets the difficulty; that nonce is the least one from the starting nonce that does; difficulty <= 0 keeps the starting nonce |
| `Ledger.GenesisCanFailDifficulty` | talal_blockchain/backend/main.go:103-118 | for every roll and timestamp there is a hash function and a genesis block for that roll whose hash fails difficulty 1 |
| `Ledger.Consistent` | talal_blockchain/backend/main.go:159-167 | defined as: the block's Merkle root is that of its transactions, and its hash is the header hash at its own nonce |
| `Ledger.IsGenesis` | talal_blockchain/backend/main.go:103-118 | defined as: index 0, link "0", one transaction, nonce 0, consistent |
| `Ledger.Follows` | talal_blockchain/backend/main.go:201-211 | defined as: the next index, the predecessor's hash as link, a non-empty batch, consistent, and a hash meeting the difficulty |
| `Ledger.ValidChain` | talal_blockchain/backend/main.go:201-218 | defined as: a genesis block, then blocks that each follow their predecessor |
| `Ledger.GenesisNeedNotMeetDifficulty` | talal_blockchain/backend/main.go:103-118 | the unmined genesis hash can fail difficulty 1: under a hash whose digests start with 0xff, every header hash starts with 'f' |
| `Ledger.ValidChainIndexed` | talal_blockchain/backend/main.go:150-151 | in a valid chain block i has index i, and every later block links to its predecessor's hash |
| `Ledger.ValidChainPrefix` | talal_blockchain/backend/main.go:176-178 | every non-empty prefix of a valid chain is valid |
| `Ledger.ValidChainSnoc` | talal_blockchain/backend/main.go:176-178 | appending to a valid chain keeps it valid exactly when the new block follows the last one |
| `Ledger.IsToken` | talal_blockchain/backend/main.go:134-141 | defined as: non-empty and unchanged by trimming, as every transaction `AddTransaction` queues is |
| `Ledger.AllTokens` | talal_blockchain/backend/main.go:134-141 | defined as: every transaction of the batch is a token |
| `Ledger.TrimmedIsToken` | talal_blockchain/backend/main.go:135-139 | trimming any text that is not all white space gives a non-empty string that trimming leaves unchanged |
| `Ledger.NewGenesisBlock` | talal_blockchain/backend/main.go:103-118 | the genesis block has index 0, the single transaction roll, link "0", nonce 0, a consistent hash and the leaf digest of roll as its Merkle root |
| `Ledger.SealedCandidateFollows` | talal_blockchain/backend/main.go:201-211 | a candidate built on the last block and then mined follows that block, and its hash at any nonce is the candidate's |
| `Ledger.Candidate` | talal_blockchain/backend/main.go:150-167 | the block built after prev has the next index, prev's hash as link, the given timestamp and batch, nonce 0, and is consistent |
| `Ledger.Blockchain.Valid` | talal_blockchain/backend/main.go:25-30 | the ledger invariant: a positive difficulty, a valid chain, and only trimmed non-empty transactions in the pool and in every block after the first |
| `Ledger.Blockchain.constructor` | talal_blockchain/backend/main.go:120-131 | a non-positive difficulty becomes 3; the chain is only the genesis block carrying roll; the pool is empty; the invariant holds |
| `Ledger.Blockchain.AddTransaction` | talal_blockchain/backend/main.go:134-141 | a blank transaction is refused with nothing changed; otherwise the trimmed transaction is appended to the pool, without deduplication; the chain never changes |
| `Ledger.Blockchain.BuildNextBlock` | talal_blockchain/backend/main.go:145-173 | an empty pool fails with nothing changed; otherwise the result has the next index, the last hash as link, the whole old pool as batch, its Merkle root, nonce 0 and the hash of those fields; the pool becomes empty; the chain is unchanged |
| `Ledger.Blockchain.AppendBlock` | talal_blockchain/backend/main.go:176-178 | the chain gains exactly the block; with no check made, the ledger stays valid exactly when the block follows the last one and holds only trimmed non-empty transactions |
| `Ledger.Blockchain.MineNextBlock` | talal_blockchain/backend/main.go:201-218 | an empty pool fails with nothing changed; otherwise exactly the returned block is appended, earlier blocks are kept, the pool is emptied, the block follows the last one, is sealed with the least nonce from 0, and the invariant is preserved |
| `Search.Matches` | talal_blockchain/backend/main.go:334 | defined as: the lower-cased transaction contains the needle |
| `Search.BlockHits` | talal_blockchain/backend/main.go:333-336 | defined as the matches among a block's transactions, in order, each with the block's index and the transaction as stored |
| `Search.ChainHits` | talal_blockchain/backend/main.go:332-337 | defined as the matches over the chain, block after block |
| `Search.SearchChain` | talal_blockchain/backend/main.go:321-338 | a query that trims to nothing is refused; otherwise the reply carries the trimmed query, the match count and the matches in chain order, then in-block order |
| `Search.BlockHitsStep` | talal_blockchain/backend/main.go:333-336 | one more transaction adds exactly its hit when it matches, and nothing otherwise |
| `Search.ChainHitsStep` | talal_blockchain/backend/main.go:332-337 | one more block adds exactly that block's matches |
| `Search.BlockHitsMembership` | talal_blockchain/backend/main.go:333-336 | a hit is in a block's matches exactly when it names that block's index and one of its transactions, in original case, whose lower-cased text contains the needle |
| `Search.ChainHitsMembership` | talal_blockchain/backend/main.go:332-337 | a hit is in the chain's matches exactly when some block of the chain has its index and a matching transaction |
| `Search.ChainHitsAppend` | talal_blockchain/backend/main.go:332-337 | the matches over two chains joined are the first chain's matches followed by the second's |
| `Search.BlockHitsBound` | talal_blockchain/backend/main.go:333-336 | a block yields at most one match per transaction |

## Left out

- The HTTP layer is not modelled: routing, CORS, JSON bodies and replies, the method checks and the listening address are I/O. Only the filter loop of the search handler is extracted, as `Search.SearchChain`, with its blank-query check and its reply fields.
- The mutex is not modelled. The ledger object's methods run one at a time.
- Timestamps are not read from the clock. `time.Now().UTC().Format(time.RFC3339)` becomes a `now` parameter.
- `MineNextBlock` does not time or log the mining. That output is a side effect only.
- SHA-256 is a parameter and its internals are not modelled. No collision resistance is assumed, so no property depends on it.
- Ledger.Blockchain.MineNextBlock: requires that a sealing nonce exists for the candidate block. Without one the source loops forever, and its termination is not modelled.
- Ledger.MineBlock: requires that a sealing nonce exists from the starting nonce on. This covers exactly the inputs on which the source's unbounded loop returns.
- Ledger.MineBlock: the nonce is an unbounded integer. Go's `int` would wrap after 2^63 increments, which is not modelled.
- Text.ToLower: lower-cases ASCII letters only. Go's `strings.ToLower` also lower-cases non-ASCII letters and may change a string's byte length; neither is modelled.
- Search.SearchChain: a query that is not valid UTF-8 is not modelled. The query is percent-decoded from the URL (main.go:321), so it may hold any bytes, and `strings.ToLower` (main.go:326) turns each invalid byte into U+FFFD. Such a query then matches every transaction that contains U+FFFD. Here strings are sequences of Unicode characters, so that query cannot be written.
- Ledger.Blockchain.BuildNextBlock: requires a non-empty chain when the pool is non-empty, and so does Ledger.Blockchain.MineNextBlock. This rules out the index-out-of-range panic at main.go:150. No ledger built by the constructor can reach it, because the chain always holds the genesis block.
- JSON field names and the serialised shape of blocks and the ledger are not modelled.
