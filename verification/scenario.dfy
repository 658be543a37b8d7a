/** The module-level demonstration (two appends to a fresh chain), and the
    stale-hash case of `add_block` on a concrete digest function. */
module Scenario {
  import opened Wrappers
  import opened Digest
  import opened Blocks
  import opened Chains

  /** The two candidates of the demonstration, built with an empty previous hash. */
  function FirstCandidate(sha: DigestFn): Block {
    NewBlock(sha, 1, "", "First transaction", "02/01/2022")
  }

  function SecondCandidate(sha: DigestFn): Block {
    NewBlock(sha, 2, "", "Second transaction", "03/01/2022")
  }

  /** Whatever the digest, if both appends of the demonstration finish, the chain
      holds genesis and the two blocks in order, each linked to the one before
      and both mined to four leading zeros. */
  lemma DemoChain(sha: DigestFn, fuel1: nat, fuel2: nat)
    requires AddBlock(sha, NewChain(sha), FirstCandidate(sha), fuel1).Success?
    requires AddBlock(sha, AddBlock(sha, NewChain(sha), FirstCandidate(sha), fuel1).value, SecondCandidate(sha), fuel2).Success?
    ensures var one := AddBlock(sha, NewChain(sha), FirstCandidate(sha), fuel1).value;
            var two := AddBlock(sha, one, SecondCandidate(sha), fuel2).value;
            |two.blocks| == 3 && Valid(two) &&
            two.blocks[0] == CreateGenesisBlock(sha) &&
            two.blocks[1] == one.blocks[1] &&
            two.blocks[1].index == 1 && two.blocks[2].index == 2 &&
            two.blocks[1].data == "First transaction" && two.blocks[2].data == "Second transaction" &&
            two.blocks[1].previousHash == two.blocks[0].hash &&
            two.blocks[2].previousHash == two.blocks[1].hash &&
            MeetsDifficulty(two.blocks[1].hash, 4) && MeetsDifficulty(two.blocks[2].hash, 4)
  {
  }

  /** The digest input of the first candidate as the constructor hashes it. */
  function FirstCandidateInput(): string {
    HashInput(1, "", "First transaction", "02/01/2022", 0)
  }

  /** A digest function under which the first candidate's construction-time
      hash happens to start with four zeros. */
  function Skewed(s: string): (h: HexDigest)
    ensures h[0] == '0' <==> s == FirstCandidateInput()
  {
    if s == FirstCandidateInput() then Zeros(64) else seq(64, _ => 'f')
  }

  /** As written, `add_block` appends the first candidate with its construction
      hash, computed over previous hash "", although its stored previous hash is
      now the genesis hash: the appended block's hash is not its digest. */
  lemma AddBlockKeepsStaleHash(fuel: nat)
    ensures var c := AddBlock(Skewed, NewChain(Skewed), FirstCandidate(Skewed), fuel);
            c.Success? && !Consistent(Skewed, c.value.blocks[1])
  {
  }
}
