# Proof-of-work block chain (Dafny model)

A Dafny model of the block chain in `quantum____crypto.py`. The model covers:

- the `Block` record;
- how a block derives its hash from its fields: `str(index) + previous_hash + data + timestamp + str(nonce)`, hashed with SHA-256;
- the nonce search that mines a block until its hash starts with `difficulty` zero characters;
- the `Blockchain` that starts from a fixed genesis block at difficulty 4 and appends blocks with `add_block`.

Modules, one per concept:

- `Decimal` (`decimal.dfy`): Python's `str()` on integers.
- `Digest` (`digest.dfy`): the SHA-256 hex digest as a parameter, and the difficulty test.
- `Blocks` (`block.dfy`): the `Block` class, meaning `__init__`, `calculate_hash` and `mine_block`.
- `Chains` (`blockchain.dfy`): the `Blockchain` class.
- `Scenario` (`scenario.dfy`): the module-level demonstration, and a concrete case of the stale-hash behaviour of `add_block`.
- `Wrappers` (`wrappers.dfy`): `Option` and `Result`.

SHA-256 is not modelled. Every operation takes the digest function as a parameter of type `DigestFn`. That type admits every total function from strings to 64-character lowercase hex strings, and SHA-256 is one of them. So each property below holds for any such function, including SHA-256.

The source's `while` loop has no bound, so mining is modelled with fuel: `Mine(sha, b, difficulty, fuel)` runs at most `fuel` iterations. It returns `None` if the loop would still be running. `MineFuelMonotone` shows the fuel only bounds the search: once mining finishes, more fuel gives the same block.

Blocks are values. Where the source mutates a block in place, the model returns the updated block.

## Model

| member | source | states |
|---|---|---|
| Blocks.NewBlock | quantum____crypto.py:67-73 | a new block keeps the four given fields, has nonce 0, and stores the hex digest of its own fields |
| Blocks.CalculateHash | quantum____crypto.py:75-77 | the hash of a block is a 64-character hex digest |
| Blocks.CalculateHashDeterministic | quantum____crypto.py:75-77 | the hash depends only on index, previous hash, data, timestamp and nonce; the stored hash plays no part |
| Blocks.NonceDeterminesInput | quantum____crypto.py:76 | with the other four fields fixed, two nonces give the same hash input exactly when they are equal, so every mining step asks for a new digest |
| Blocks.HashInputNotInjective | quantum____crypto.py:76 | the fields are joined with no separator, so index 12 with previous hash "" gives the same input as index 1 with previous hash "2" |
| Decimal.FromNatIsNumeral | quantum____crypto.py:76 | `str(n)` of a natural is a non-empty string of digits whose first digit is '0' only for n = 0 |
| Decimal.NatRoundTrip | quantum____crypto.py:76 | reading the decimal rendering of a nonce back gives the nonce |
| Decimal.FromIntSign | quantum____crypto.py:76 | `str(index)` is non-empty and starts with '-' exactly when the index is negative |
| Decimal.FromIntInjective | quantum____crypto.py:76 | distinct indices render differently |
| Blocks.HashInput | quantum____crypto.py:76 | the `input_string` that `calculate_hash` hashes: `str(index) + previous_hash + data + timestamp + str(nonce)`. Its facts are carried by `NonceDeterminesInput` (the nonce part is read back exactly) and `HashInputNotInjective` (the fields are not separated) |
| Decimal.FromNat | quantum____crypto.py:76 | `str(nonce)`. Its facts are carried by `FromNatIsNumeral` (a non-empty run of digits with no leading zero) and `NatRoundTrip` (reading it back gives the number) |
| Decimal.FromInt | quantum____crypto.py:76 | `str(index)`. Its facts are carried by `FromIntSign` (the leading '-' appears exactly for negatives) and `FromIntInjective` (distinct integers render differently) |
| Digest.Zeros | quantum____crypto.py:80 | `'0' * difficulty`: its ensures state that it has length `difficulty` and every character is '0' |
| Digest.Head | quantum____crypto.py:80 | the slice `hash[:difficulty]`: its ensures state that its length is `difficulty`, cut short at the end of the hash, and that it agrees with the hash on every position it has |
| Digest.MeetsDifficulty | quantum____crypto.py:80 | the loop's exit test, in quantified form. `ExitTestIsMeetsDifficulty` shows it holds exactly when `hash[:difficulty] == '0' * difficulty` |
| Digest.ExitTestIsMeetsDifficulty | quantum____crypto.py:80 | the loop's test `hash[:d] == '0' * d`, with Python's truncating slice, holds exactly when the hash has at least d characters and its first d are all '0' |
| Digest.NoDigestMeetsAbove64 | quantum____crypto.py:80 | no 64-character digest passes the test at a difficulty above 64 |
| Blocks.Search | quantum____crypto.py:80-82 | the loop on nonce and hash alone: a passing start is returned unchanged; a result passes the test, lies within fuel of the start, and after an iteration its hash is the digest at its nonce |
| Blocks.SearchFindsFirst | quantum____crypto.py:80-82 | the search skips only nonces whose digests fail the test |
| Blocks.SearchNoneIff | quantum____crypto.py:80-82 | the search runs out of fuel exactly when the start and all digests within fuel fail |
| Blocks.SearchFuelMonotone | quantum____crypto.py:80-82 | a finished search gives the same result with any larger fuel |
| Blocks.SearchLoop | quantum____crypto.py:80-82 | the imperative `while` loop computes exactly what `Search` does |
| Blocks.Mine | quantum____crypto.py:79-82 | mining changes only nonce and hash; the nonce does not decrease; the result meets the difficulty; an already-passing block comes back unchanged; after an iteration the stored hash is the digest of the block's fields |
| Blocks.MineBlock | quantum____crypto.py:79-82 | the method runs the loop on the block and agrees with `Mine` for every input |
| Blocks.MineFindsFirstPassingNonce | quantum____crypto.py:80-82 | when the stored hash fails, mining returns the smallest nonce above the start whose digest passes |
| Blocks.MineNoneIff | quantum____crypto.py:80-82 | mining is unfinished within fuel exactly when the stored hash and every digest within fuel fail the test |
| Blocks.MineFuelMonotone | quantum____crypto.py:80-82 | a mined result does not depend on how much more fuel is given |
| Blocks.MineIdempotent | quantum____crypto.py:80 | mining a block that mining returned leaves it unchanged: zero iterations |
| Blocks.MineZeroDifficulty | quantum____crypto.py:80 | at difficulty 0 mining returns the block unchanged |
| Blocks.MineAbove64NeverFinishes | quantum____crypto.py:80-82 | above difficulty 64 the loop never exits, whatever the fuel, when the stored hash is a digest |
| Chains.CreateGenesisBlock | quantum____crypto.py:89-90 | genesis is block 0 with previous hash "0", data "Genesis Block" and timestamp "01/01/2022"; it has nonce 0 and is never mined |
| Chains.NewChain | quantum____crypto.py:85-87 | a new chain holds exactly the genesis block at difficulty 4; it is valid and its stored hashes are digests |
| Chains.LatestBlock | quantum____crypto.py:92-93 | the latest block exists exactly when the chain is non-empty, and it is the last element |
| Chains.AddBlock | quantum____crypto.py:95-98 | fails only on an empty chain or unfinished mining. On success it appends exactly one block and leaves earlier blocks and the difficulty unchanged. The new block links to the old tail's hash and keeps the caller's index, data and timestamp. Its hash meets the difficulty. If the candidate's stale hash already passed, the new block carries that hash unchanged |
| Chains.AddBlockUnfinishedIff | quantum____crypto.py:95-98 | `add_block` does not finish exactly when every digest of the linked candidate within fuel fails; the index is never checked |
| Chains.AppendedKeepsValid | quantum____crypto.py:80-98 | appending one linked block that meets the difficulty, while leaving earlier blocks unchanged, keeps a chain valid |
| Chains.AddBlockPreservesValid | quantum____crypto.py:80-98 | appending keeps the chain non-empty, with each later block linked to its predecessor's hash and meeting the difficulty |
| Chains.LatestBlockAfterAdd | quantum____crypto.py:92-98 | after an append, the latest block is the one appended; it names the previous latest block's hash and carries the caller's index |
| Chains.AddBlockKeepsIntactWhenMined | quantum____crypto.py:96-98 | if the candidate's stale hash fails the test, every stored hash in the chain is still the digest of its block's fields after the append |
| Chains.AppendKeepsIntact | quantum____crypto.py:98 | appending a block whose stored hash is its digest keeps every stored hash a digest |
| Chains.AddBlockRehashed | quantum____crypto.py:95-98 | the corrected append: it returns `EmptyChain` exactly on an empty chain, it satisfies the same `Appended` contract as `AddBlock`, and the appended block's hash is always the digest of its fields. It may append a different nonce than `AddBlock`: it tests the new digest at the candidate's own nonce before stepping |
| Chains.AddBlockRehashedPreservesValidIntact | quantum____crypto.py:95-98 | the corrected append keeps the chain valid, and keeps every stored hash the digest of its block's fields, with no condition on the candidate |
| Scenario.DemoChain | quantum____crypto.py:101-103 | after the demonstration's two appends, the chain holds genesis, block 1 and block 2 in order, each linked to its predecessor's hash, and both later blocks have four leading zeros |
| Scenario.AddBlockKeepsStaleHash | quantum____crypto.py:96-97 | for a digest function under which block 1's construction hash starts with "0000", the block appended by `add_block` stores a hash that is not the digest of its fields |

## Findings

| source | as written | input that shows it | evidently intended | confidence | as-written member | corrected member |
|---|---|---|---|---|---|---|
| quantum____crypto.py:96-97 | `add_block` overwrites `previous_hash` but does not recompute `hash` before `mine_block`. If the hash from construction, computed with the placeholder previous hash, already starts with `difficulty` zeros, the loop runs zero times | any candidate whose stored hash already starts with "0000", for example one the caller mined before `add_block`; in the model, `Block(1, "", "First transaction", "02/01/2022")` under the digest function `Scenario.Skewed` | recompute the hash after linking, so every appended block stores the digest of its own fields | medium (not executed) | Chains.AddBlock, Scenario.AddBlockKeepsStaleHash | Chains.AddBlockRehashed |

The rest of the model, including `AddBlockPreservesValid` and `DemoChain`, describes `AddBlock` as written. Of these, only the intactness lemma `AddBlockKeepsIntactWhenMined` claims that stored hashes are digests, and it needs mining to have run at least once. `AddBlockRehashedPreservesValidIntact` makes that claim without the condition.

## Left out

- `QuantumHash` and its oracle and diffusion helpers (quantum____crypto.py:4-64): they build a circuit with qiskit and run it on a simulator, and the chain never calls them.
- SHA-256 itself: the digest function is a parameter. Only its output shape is assumed: 64 lowercase hex characters.
- The encoding step `input_string.encode()`: the model hashes the string directly.
- Python's `str()` on arbitrary objects: `data` and `timestamp` are strings here, and `index` is an integer.
- Blocks.Mine: does not model a loop that runs forever; the search is bounded by fuel, and `None` stands for "still running". `MineNoneIff` and `MineFuelMonotone` say exactly when that happens.
- Chains.AddBlock: returns `MiningUnfinished` when the fuel runs out, where the source would still be looping.
- Mutation of the caller's `Block` object by `add_block` and `mine_block`, and aliasing between that object and the chain: blocks are values here.
- A validation routine: the source has none. `Chains.Valid` and `Chains.Intact` state what such a routine would check.
- The demonstration's printing loop (quantum____crypto.py:105-110).
