/**
 A model of the chain of blocks (src/models/blockchain.rs): a non-empty
 sequence that starts with a fixed genesis block, plus the difficulty every
 appended block is mined at.
 */
module Chain {
  import opened BlockModel

  datatype Blockchain = Blockchain(genesisBlock: Block, chain: seq<Block>, difficulty: nat)

  /** The shape of the genesis block: position 0, never mined, linked to nothing. */
  predicate IsGenesis(g: Block) {
    g.index == 0 && g.previousHash == "" && Unmined(g)
  }

  /** The genesis block `Blockchain::new` builds; the clock read is `timestamp`. */
  function GenesisBlock(timestamp: nat): (g: Block)
    ensures IsGenesis(g) && g.timestamp == timestamp
  {
    Block(0, timestamp, 0, "", "")
  }

  /** The last block of a non-empty chain, `chain[chain.len() - 1]`. */
  function Last(chain: seq<Block>): Block
    requires |chain| > 0
  {
    chain[|chain| - 1]
  }

  /** The unmined block `add_block` builds: its index is the current length,
      and its `previousHash` is copied from the last block's `previousHash`
      (not from the last block's `hash`). */
  function NextCandidate(bc: Blockchain, timestamp: nat): (c: Block)
    requires |bc.chain| > 0
    ensures Unmined(c) && c.index == |bc.chain| && c.timestamp == timestamp
    ensures c.previousHash == Last(bc.chain).previousHash
  {
    BlockModel.New(|bc.chain|, timestamp, Last(bc.chain).previousHash)
  }

  /** The invariant every chain reachable through `New` and `AddBlock` keeps:
      it is non-empty, starts with the genesis block, and each later block is
      what mining at the chain's difficulty makes of the candidate built from
      its position, its timestamp and its predecessor. */
  predicate Valid(H: Digest, bc: Blockchain) {
    && |bc.chain| > 0
    && IsGenesis(bc.genesisBlock)
    && bc.chain[0] == bc.genesisBlock
    && forall i :: 0 < i < |bc.chain| ==>
         MinedFrom(H, BlockModel.New(i, bc.chain[i].timestamp, bc.chain[i - 1].previousHash),
                   bc.difficulty, bc.chain[i])
  }

  /** `Blockchain::new`: a one-block chain holding the genesis block. */
  function New(difficulty: nat, timestamp: nat): (bc: Blockchain)
    ensures bc.chain == [bc.genesisBlock] && IsGenesis(bc.genesisBlock)
    ensures bc.genesisBlock.timestamp == timestamp
    ensures bc.difficulty == difficulty
    ensures forall H: Digest :: Valid(H, bc)
  {
    var genesis := GenesisBlock(timestamp);
    Blockchain(genesis, [genesis], difficulty)
  }

  /** `Blockchain::add_block`: build the next block, mine it at the chain's
      difficulty, and append it. The source indexes the last block, so it
      needs a non-empty chain; mining needs a nonce that stops the loop. */
  method AddBlock(H: Digest, bc: Blockchain, timestamp: nat) returns (next: Blockchain)
    requires |bc.chain| > 0
    requires Minable(H, NextCandidate(bc, timestamp), bc.difficulty)
    ensures |next.chain| == |bc.chain| + 1
    ensures next.chain[..|bc.chain|] == bc.chain
    ensures next.difficulty == bc.difficulty && next.genesisBlock == bc.genesisBlock
    ensures Last(next.chain).index == |bc.chain|
    ensures Last(next.chain).timestamp == timestamp
    ensures Last(next.chain).previousHash == Last(bc.chain).previousHash
    ensures MeetsDifficulty(Last(next.chain).hash, bc.difficulty)
    ensures MinedFrom(H, NextCandidate(bc, timestamp), bc.difficulty, Last(next.chain))
    ensures Valid(H, bc) ==> Valid(H, next)
  {
    var newBlock := BlockModel.New(|bc.chain|, timestamp, Last(bc.chain).previousHash);
    newBlock := Mine(H, newBlock, bc.difficulty);
    next := bc.(chain := bc.chain + [newBlock]);
  }

  /** Position and linkage in a valid chain: `chain[i].index == i`, every
      block copies its predecessor's `previousHash`, so every `previousHash`
      is the genesis block's empty string, and every block after genesis
      passes the chain's difficulty. */
  lemma {:induction false} ValidChainShape(H: Digest, bc: Blockchain)
    requires Valid(H, bc)
    ensures forall i :: 0 <= i < |bc.chain| ==> bc.chain[i].index == i
    ensures forall i :: 0 < i < |bc.chain| ==>
              bc.chain[i].previousHash == bc.chain[i - 1].previousHash
    ensures forall i :: 0 <= i < |bc.chain| ==> bc.chain[i].previousHash == ""
    ensures forall i :: 0 < i < |bc.chain| ==> MeetsDifficulty(bc.chain[i].hash, bc.difficulty)
  {
    forall i | 0 <= i < |bc.chain|
      ensures bc.chain[i].index == i && bc.chain[i].previousHash == ""
      ensures i > 0 ==> MeetsDifficulty(bc.chain[i].hash, bc.difficulty)
    {
      PreviousHashEmpty(H, bc, i);
      if i > 0 {
        assert MinedFrom(H, BlockModel.New(i, bc.chain[i].timestamp, bc.chain[i - 1].previousHash),
                         bc.difficulty, bc.chain[i]);
      }
    }
  }

  /** Induction on the position: the empty `previousHash` of genesis is
      copied forward block by block. */
  lemma {:induction false} PreviousHashEmpty(H: Digest, bc: Blockchain, i: nat)
    requires Valid(H, bc) && i < |bc.chain|
    ensures bc.chain[i].previousHash == ""
    decreases i
  {
    if i > 0 {
      PreviousHashEmpty(H, bc, i - 1);
      assert MinedFrom(H, BlockModel.New(i, bc.chain[i].timestamp, bc.chain[i - 1].previousHash),
                       bc.difficulty, bc.chain[i]);
    }
  }

  /** In a valid chain the next candidate is a fresh block at the next
      position linked to "", whatever the chain's contents. */
  lemma NextCandidateOfValid(H: Digest, bc: Blockchain, timestamp: nat)
    requires Valid(H, bc)
    ensures NextCandidate(bc, timestamp) == BlockModel.New(|bc.chain|, timestamp, "")
  {
    ValidChainShape(H, bc);
  }
}
