/**
 A model of one block of the ledger and of its proof-of-work mining loop
 (src/models/block.rs).

 The block's digest is SHA-256 over the JSON serialisation of a copy of the
 block whose `hash` field has been blanked. Neither SHA-256 nor the JSON
 encoding is modelled: the digest is a parameter `H` of type `Digest`, about
 which nothing is assumed, so every property proved here holds for any hash
 function whatsoever.
 */
module BlockModel {

  /** One block: its position in the chain, its creation time (milliseconds),
      its proof-of-work nonce, the hash it links to, and its own hash. */
  datatype Block = Block(
    index: nat,
    timestamp: nat,
    proofOfWork: nat,
    previousHash: string,
    hash: string
  )

  /** SHA-256 of the serialised block, rendered as lowercase hex. */
  type Digest = Block -> string

  /** A block as `Block::new` leaves it: no nonce tried, no hash computed. */
  predicate Unmined(b: Block) {
    b.proofOfWork == 0 && b.hash == ""
  }

  /** The fields mining never touches agree between `b` and `m`. */
  predicate SameContent(b: Block, m: Block) {
    && m.index == b.index
    && m.timestamp == b.timestamp
    && m.previousHash == b.previousHash
  }

  /** `Block::new`; the clock read is the `timestamp` parameter. */
  function New(index: nat, timestamp: nat, previousHash: string): (b: Block)
    ensures b.index == index && b.timestamp == timestamp && b.previousHash == previousHash
    ensures Unmined(b)
  {
    Block(index, timestamp, 0, previousHash, "")
  }

  /** `c` repeated `n` times, as Rust's `str::repeat`. */
  function Repeat(c: char, n: nat): (r: string)
    ensures |r| == n
    ensures forall i :: 0 <= i < n ==> r[i] == c
  {
    if n == 0 then "" else [c] + Repeat(c, n - 1)
  }

  /** `hash.starts_with(&"0".repeat(difficulty))`; Dafny's `<=` on
      sequences is the prefix relation. */
  predicate MeetsDifficulty(hash: string, difficulty: nat)
    ensures MeetsDifficulty(hash, difficulty) <==>
              difficulty <= |hash| && forall i :: 0 <= i < difficulty ==> hash[i] == '0'
  {
    Repeat('0', difficulty) <= hash
  }

  /** `Block::calculate_hash`: the digest of a copy whose `hash` is blanked,
      so every block that differs from `b` only in `hash` hashes alike. */
  function CalculateHash(H: Digest, b: Block): (r: string)
    ensures forall c: Block :: c.(hash := b.hash) == b ==> r == H(c.(hash := ""))
  {
    var blanked := b.(hash := "");
    H(blanked)
  }

  /** The digest of `b` once its nonce is set to `nonce`. */
  function DigestAt(H: Digest, b: Block, nonce: nat): string {
    CalculateHash(H, b.(proofOfWork := nonce))
  }

  /** The mining loop can stop: either the current hash already passes, or
      some later nonce does. The source loops forever otherwise. */
  ghost predicate Minable(H: Digest, b: Block, difficulty: nat) {
    || MeetsDifficulty(b.hash, difficulty)
    || exists n :: b.proofOfWork < n && MeetsDifficulty(DigestAt(H, b, n), difficulty)
  }

  /** What `mine(difficulty)` turns `b` into. The loop tests the CURRENT hash
      before doing anything, so a block that already passes is returned as is.
      Otherwise the nonce is incremented and the block rehashed until the hash
      passes: the result carries the first nonce after `b.proofOfWork` whose
      digest passes, and the digest at that nonce. Only the nonce and the hash
      change. */
  predicate MinedFrom(H: Digest, b: Block, difficulty: nat, m: Block) {
    && SameContent(b, m)
    && MeetsDifficulty(m.hash, difficulty)
    && if MeetsDifficulty(b.hash, difficulty) then m == b
       else
         && b.proofOfWork < m.proofOfWork
         && m.hash == DigestAt(H, b, m.proofOfWork)
         && forall n :: b.proofOfWork < n < m.proofOfWork ==>
                          !MeetsDifficulty(DigestAt(H, b, n), difficulty)
  }

  /** The digest reads every field except `hash`: two blocks that differ only
      in `hash` have the same digest, whatever the hash function. */
  lemma DigestIgnoresHash(H: Digest, b1: Block, b2: Block)
    requires SameContent(b1, b2) && b1.proofOfWork == b2.proofOfWork
    ensures CalculateHash(H, b1) == CalculateHash(H, b2)
  {
  }

  /** `Block::mine`. The loop and its order of steps follow the source: test
      the current hash, and only if it fails increment the nonce and rehash. */
  method Mine(H: Digest, b: Block, difficulty: nat) returns (m: Block)
    requires Minable(H, b, difficulty)
    ensures MinedFrom(H, b, difficulty, m)
  {
    // A nonce at which the loop is sure to stop bounds the search.
    ghost var bound: nat := b.proofOfWork;
    if !MeetsDifficulty(b.hash, difficulty) {
      bound :| b.proofOfWork < bound && MeetsDifficulty(DigestAt(H, b, bound), difficulty);
    }
    m := b;
    while !MeetsDifficulty(m.hash, difficulty)
      invariant SameContent(b, m)
      invariant b.proofOfWork <= m.proofOfWork <= bound
      invariant m.proofOfWork == b.proofOfWork ==> m == b
      invariant b.proofOfWork < m.proofOfWork ==> m.hash == DigestAt(H, b, m.proofOfWork)
      invariant forall n :: b.proofOfWork < n < m.proofOfWork ==>
                              !MeetsDifficulty(DigestAt(H, b, n), difficulty)
      decreases bound - m.proofOfWork
    {
      m := m.(proofOfWork := m.proofOfWork + 1);
      m := m.(hash := CalculateHash(H, m));
    }
  }

  /** Mining is a function of its inputs: any two outcomes allowed by
      `MinedFrom` are the same block. */
  lemma MinedFromUnique(H: Digest, b: Block, difficulty: nat, m1: Block, m2: Block)
    requires MinedFrom(H, b, difficulty, m1) && MinedFrom(H, b, difficulty, m2)
    ensures m1 == m2
  {
  }

  /** An unmined block fails every positive difficulty, since its hash is empty. */
  lemma UnminedFailsPositiveDifficulty(b: Block, difficulty: nat)
    requires Unmined(b)
    ensures MeetsDifficulty(b.hash, difficulty) <==> difficulty == 0
  {
  }

  /** Mining a fresh block at difficulty 0 stops before hashing anything:
      the nonce stays 0 and the hash stays empty. */
  lemma MineFreshAtZero(H: Digest, b: Block, m: Block)
    requires Unmined(b)
    requires MinedFrom(H, b, 0, m)
    ensures m == b && m.proofOfWork == 0 && m.hash == ""
  {
  }

  /** Mining a fresh block at a positive difficulty yields the least nonce
      n >= 1 whose digest passes; nonce 0 is never hashed. */
  lemma MineFreshAtPositive(H: Digest, b: Block, difficulty: nat, m: Block)
    requires Unmined(b) && 0 < difficulty
    requires MinedFrom(H, b, difficulty, m)
    ensures 1 <= m.proofOfWork
    ensures m.hash == DigestAt(H, b, m.proofOfWork) && MeetsDifficulty(m.hash, difficulty)
    ensures forall n :: 1 <= n < m.proofOfWork ==> !MeetsDifficulty(DigestAt(H, b, n), difficulty)
  {
  }
}
