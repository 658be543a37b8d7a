/** The `Blockchain` class: a genesis block, a fixed difficulty, and `add_block`,
    which links a candidate to the current tail, mines it and appends it. */
module Chains {
  import opened Wrappers
  import opened Digest
  import opened Blocks

  /** `chain` and `difficulty`. Nothing in the type forbids an empty sequence;
      `Valid` states what construction and appending maintain. */
  datatype Chain = Chain(blocks: seq<Block>, difficulty: nat)

  /** Why `add_block` does not return: the tail lookup raised `IndexError` on
      an empty chain, or the nonce search had not finished within its fuel. */
  datatype AddError = EmptyChain | MiningUnfinished

  const GenesisPreviousHash: string := "0"
  const GenesisData: string := "Genesis Block"
  const GenesisTimestamp: string := "01/01/2022"
  const InitialDifficulty: nat := 4

  /** Every block after the first names its predecessor's stored hash. */
  predicate Linked(c: Chain) {
    forall i :: 0 < i < |c.blocks| ==> c.blocks[i].previousHash == c.blocks[i - 1].hash
  }

  /** Every block after the first has a hash meeting the chain's difficulty;
      genesis is never mined and is exempt. */
  predicate Sealed(c: Chain) {
    forall i :: 0 < i < |c.blocks| ==> MeetsDifficulty(c.blocks[i].hash, c.difficulty)
  }

  /** What construction establishes and `add_block` keeps. */
  predicate Valid(c: Chain) {
    |c.blocks| > 0 && Linked(c) && Sealed(c)
  }

  /** Every block's stored hash is the digest of its own fields. */
  predicate Intact(sha: DigestFn, c: Chain) {
    forall i :: 0 <= i < |c.blocks| ==> Consistent(sha, c.blocks[i])
  }

  /** `create_genesis_block()`: built like any block, and not mined. */
  function CreateGenesisBlock(sha: DigestFn): (g: Block)
    ensures g.index == 0 && g.previousHash == GenesisPreviousHash
    ensures g.data == GenesisData && g.timestamp == GenesisTimestamp
    ensures g.nonce == 0 && Consistent(sha, g)
  {
    NewBlock(sha, 0, GenesisPreviousHash, GenesisData, GenesisTimestamp)
  }

  /** `Blockchain()`: the genesis block alone, at difficulty 4. */
  function NewChain(sha: DigestFn): (c: Chain)
    ensures c.blocks == [CreateGenesisBlock(sha)]
    ensures c.difficulty == 4
    ensures Valid(c) && Intact(sha, c)
  {
    Chain([CreateGenesisBlock(sha)], InitialDifficulty)
  }

  /** `get_latest_block()`: `chain[-1]`, which raises on an empty chain. */
  function LatestBlock(c: Chain): (r: Option<Block>)
    ensures r.Some? <==> |c.blocks| > 0
    ensures r.Some? ==> r.value == c.blocks[|c.blocks| - 1]
  {
    if |c.blocks| == 0 then None else Some(c.blocks[|c.blocks| - 1])
  }

  /** `add_block(new_block)`: overwrite the candidate's `previous_hash` with the
      tail's hash, mine it (with at most `fuel` iterations), append it. The
      stored hash is NOT recomputed after the overwrite, so mining starts from
      the hash the candidate already carried. */
  function AddBlock(sha: DigestFn, c: Chain, candidate: Block, fuel: nat): (r: Result<Chain, AddError>)
    ensures r == Failure(EmptyChain) <==> |c.blocks| == 0
    ensures r.Success? ==> Appended(c, candidate, r.value)
    ensures r.Success? && !MeetsDifficulty(candidate.hash, c.difficulty) ==>
              Consistent(sha, r.value.blocks[|c.blocks|])
    ensures r.Success? && MeetsDifficulty(candidate.hash, c.difficulty) ==>
              r.value.blocks[|c.blocks|] == candidate.(previousHash := c.blocks[|c.blocks| - 1].hash)
  {
    match LatestBlock(c)
    case None => Failure(EmptyChain)
    case Some(tail) =>
      var linked := candidate.(previousHash := tail.hash);
      match Mine(sha, linked, c.difficulty, fuel)
      case None => Failure(MiningUnfinished)
      case Some(mined) => Success(Chain(c.blocks + [mined], c.difficulty))
  }

  /** `after` is `before` with one mined block appended: earlier blocks and the
      difficulty untouched, the new block linked to the old tail, carrying the
      candidate's index, data and timestamp as given, and meeting the difficulty. */
  predicate Appended(before: Chain, candidate: Block, after: Chain) {
    var n := |before.blocks|;
    n > 0 && |after.blocks| == n + 1 &&
    after.blocks[..n] == before.blocks &&
    after.difficulty == before.difficulty &&
    after.blocks[n].previousHash == before.blocks[n - 1].hash &&
    after.blocks[n].index == candidate.index &&
    after.blocks[n].data == candidate.data &&
    after.blocks[n].timestamp == candidate.timestamp &&
    after.blocks[n].nonce >= candidate.nonce &&
    MeetsDifficulty(after.blocks[n].hash, before.difficulty)
  }

  /** `add_block` gives up only on an empty chain or when every nonce within
      the fuel fails for the linked candidate; it never rejects an index. */
  lemma AddBlockUnfinishedIff(sha: DigestFn, c: Chain, candidate: Block, fuel: nat)
    requires |c.blocks| > 0
    ensures var linked := candidate.(previousHash := c.blocks[|c.blocks| - 1].hash);
            AddBlock(sha, c, candidate, fuel) == Failure(MiningUnfinished) <==>
            Exhausted(sha, linked, c.difficulty, fuel)
  {
    MineNoneIff(sha, candidate.(previousHash := c.blocks[|c.blocks| - 1].hash), c.difficulty, fuel);
  }

  /** Appending keeps a chain valid: linked, and sealed after genesis. */
  lemma AppendedKeepsValid(before: Chain, candidate: Block, after: Chain)
    requires Valid(before)
    requires Appended(before, candidate, after)
    ensures Valid(after)
  {
  }

  /** `add_block` keeps the chain valid. */
  lemma AddBlockPreservesValid(sha: DigestFn, c: Chain, candidate: Block, fuel: nat)
    requires Valid(c)
    requires AddBlock(sha, c, candidate, fuel).Success?
    ensures Valid(AddBlock(sha, c, candidate, fuel).value)
  {
  }

  /** After an append, `get_latest_block()` returns the block just appended,
      whose `previous_hash` is the hash the previous latest block had. */
  lemma LatestBlockAfterAdd(sha: DigestFn, c: Chain, candidate: Block, fuel: nat)
    requires AddBlock(sha, c, candidate, fuel).Success?
    ensures var after := AddBlock(sha, c, candidate, fuel).value;
            LatestBlock(after).Some? && LatestBlock(c).Some? &&
            LatestBlock(after).value.previousHash == LatestBlock(c).value.hash &&
            LatestBlock(after).value.index == candidate.index
  {
  }

  /** The digests of the chain stay intact across `add_block` when mining ran
      at least once, which it does whenever the candidate's stale hash fails
      the test. */
  lemma AddBlockKeepsIntactWhenMined(sha: DigestFn, c: Chain, candidate: Block, fuel: nat)
    requires Intact(sha, c)
    requires !MeetsDifficulty(candidate.hash, c.difficulty)
    requires AddBlock(sha, c, candidate, fuel).Success?
    ensures Intact(sha, AddBlock(sha, c, candidate, fuel).value)
  {
  }

  /** Appending a block whose hash is its digest to an intact chain keeps it intact. */
  lemma AppendKeepsIntact(sha: DigestFn, before: Chain, after: Chain)
    requires Intact(sha, before)
    requires |after.blocks| == |before.blocks| + 1
    requires after.blocks[..|before.blocks|] == before.blocks
    requires Consistent(sha, after.blocks[|before.blocks|])
    ensures Intact(sha, after)
  {
  }

  /** `add_block` with the hash recomputed after `previous_hash` is overwritten,
      so that mining starts from the digest of the linked block. */
  function AddBlockRehashed(sha: DigestFn, c: Chain, candidate: Block, fuel: nat): (r: Result<Chain, AddError>)
    ensures r == Failure(EmptyChain) <==> |c.blocks| == 0
    ensures r.Success? ==> Appended(c, candidate, r.value)
    ensures r.Success? ==> Consistent(sha, r.value.blocks[|c.blocks|])
  {
    match LatestBlock(c)
    case None => Failure(EmptyChain)
    case Some(tail) =>
      var relinked := candidate.(previousHash := tail.hash);
      var linked := relinked.(hash := CalculateHash(sha, relinked));
      match Mine(sha, linked, c.difficulty, fuel)
      case None => Failure(MiningUnfinished)
      case Some(mined) =>
        Success(Chain(c.blocks + [mined], c.difficulty))
  }

  /** The corrected append keeps the chain valid and every stored hash a digest. */
  lemma AddBlockRehashedPreservesValidIntact(sha: DigestFn, c: Chain, candidate: Block, fuel: nat)
    requires Valid(c) && Intact(sha, c)
    requires AddBlockRehashed(sha, c, candidate, fuel).Success?
    ensures var after := AddBlockRehashed(sha, c, candidate, fuel).value;
            Valid(after) && Intact(sha, after)
  {
  }
}
