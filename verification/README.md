# Proof-of-work block chain — Dafny model

This project models a minimal append-only ledger of blocks. Each block records
its position (`index`), its creation time (`timestamp`), a proof-of-work nonce
(`proof_of_work`), the hash it links to (`previous_hash`) and its own `hash`.
A `Blockchain` owns a non-empty vector of blocks that starts with a fixed
genesis block, together with a mining `difficulty`. Appending a block builds
the next block, mines it (a nonce search until the hash starts with
`difficulty` copies of `'0'`), and pushes it.

Two modules follow the two source files:

- `BlockModel` (`block.dfy`) models `src/models/block.rs`: the `Block` datatype,
  `New`, `CalculateHash`, the prefix test `MeetsDifficulty` and the mining loop
  `Mine`. The predicate `MinedFrom` is the reference description of what mining
  produces, and `Mine` is proved to meet it.
- `Chain` (`blockchain.dfy`) models `src/models/blockchain.rs`: the `Blockchain`
  datatype, `New`, `AddBlock`, and the invariant `Valid` that every reachable
  chain keeps.

SHA-256 over the JSON serialisation is not modelled. The hash function is a
parameter `H: Block -> string`, and nothing is assumed about it.
`CalculateHash` applies `H` to a copy whose `hash` field is blanked, as the
source does. The clock read `Utc::now()` becomes a `timestamp` parameter.

Two behaviours of the code are modelled literally:

- The mining loop tests the current hash before it increments the nonce. A
  fresh block mined at difficulty 0 therefore keeps nonce 0 and the empty
  hash. At a positive difficulty, the first nonce ever hashed is 1. A loop
  that hashed before testing would leave a 64-character hash at difficulty 0;
  `Block::mine` tests first, so the hash stays empty.
- `add_block` copies the last block's `previous_hash`, not its `hash`. Every
  block therefore links to the genesis block's empty string. The model keeps
  this behaviour and proves it as a chain invariant (`Chain.ValidChainShape`).

## Model

| member | source | states |
|---|---|---|
| BlockModel.New | src/models/block.rs:23-33 | a new block has the given index, timestamp and previous hash, nonce 0 and an empty hash |
| BlockModel.Repeat | src/models/block.rs:53 | `c` repeated `n` times, as in `"0".repeat(d)`, has length `n` and every character is `c` |
| BlockModel.CalculateHash | src/models/block.rs:36-48 | every block that differs from `b` only in `hash` has the same digest as `b`: the digest never reads `hash` |
| BlockModel.DigestIgnoresHash | src/models/block.rs:38-39 | two blocks that differ only in `hash` have the same digest, for every hash function |
| BlockModel.MeetsDifficulty | src/models/block.rs:53 | `starts_with("0".repeat(d))` holds exactly when the hash has at least `d` characters and the first `d` are all `'0'` |
| BlockModel.Mine | src/models/block.rs:51-60 | the result passes the difficulty and keeps index, timestamp and previous hash; if the input already passes it is returned unchanged; otherwise the nonce grows, the hash is the digest at the final nonce, and every nonce tried before it failed |
| BlockModel.MinedFromUnique | src/models/block.rs:52-58 | the outcome of mining is determined by the block, the difficulty and the hash function |
| BlockModel.UnminedFailsPositiveDifficulty | src/models/block.rs:30 | the empty hash of a fresh block passes difficulty `d` exactly when `d == 0` |
| BlockModel.MineFreshAtZero | src/models/block.rs:52-58 | mining a fresh block at difficulty 0 returns it unchanged: nonce 0, empty hash |
| BlockModel.MineFreshAtPositive | src/models/block.rs:52-58 | mining a fresh block at a positive difficulty yields the least nonce `n >= 1` whose digest passes, with that digest as the hash |
| Chain.GenesisBlock | src/models/blockchain.rs:22-28 | the genesis block has index 0, nonce 0, and empty previous hash and hash |
| Chain.NextCandidate | src/models/blockchain.rs:44-47 | the block `add_block` builds is unmined, sits at the next position (the old length), carries the given timestamp and inherits the last block's previous hash rather than its hash |
| Chain.New | src/models/blockchain.rs:20-39 | a new chain holds exactly the genesis block, records the difficulty, and satisfies the chain invariant for every hash function |
| Chain.AddBlock | src/models/blockchain.rs:42-53 | the chain grows by one and its old blocks, difficulty and genesis block are unchanged; the new block has index equal to the old length, copies the last block's previous hash, is the mined form of the fresh candidate and passes the difficulty; the chain invariant is preserved |
| Chain.ValidChainShape | src/models/blockchain.rs:26-46 | in a valid chain `chain[i].index == i`, each block's previous hash equals its predecessor's, every previous hash is empty, and every block after genesis passes the difficulty |
| Chain.PreviousHashEmpty | src/models/blockchain.rs:46 | the empty previous hash of genesis is copied to every later block |
| Chain.NextCandidateOfValid | src/models/blockchain.rs:44-47 | in a valid chain the block `add_block` builds is a fresh block at the next index linked to the empty string |

## Left out

- SHA-256 and the JSON serialisation are foreign libraries. They are the hash-function parameter `H`, so no property depends on what they compute.
- `Utc::now()` is a clock read. It is a `timestamp` parameter, and the `as u64` cast of a negative millisecond count is not modelled.
- The `println!` in `add_block` is output only and is not modelled.
- `mine` receives a clone of the whole blockchain but reads only its `difficulty`. The model passes the difficulty alone.
- BlockModel.Mine: requires that some nonce stops the loop (`Minable`): either the current hash already passes or a later nonce does. The source has no such precondition and loops forever otherwise; the model proves the result correct whenever the loop ends.
- Chain.AddBlock: requires the fresh candidate to be minable, for the same reason as `BlockModel.Mine`.
- Chain.AddBlock: requires a non-empty chain; the source panics on an empty one when it indexes the last block, which `new` and `add_block` never produce (`Chain.Valid`), though a caller could empty the public `chain` field.
- `proof_of_work` and `index` are `u64` and `difficulty` is `usize`; the model uses unbounded naturals, so `u64` overflow of the nonce and the `usize` to `u64` cast are not modelled.
- Purity and determinism of `calculate_hash` need no lemma: a Dafny function cannot change its argument and always returns the same value for the same inputs.
