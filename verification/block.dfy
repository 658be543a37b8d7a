/** The `Block` class: a record of five hashed fields plus the stored hash, its
    digest computation, and the nonce search that seals it. Blocks are values
    here; the source's in-place mutation becomes a returned updated block. */
module Blocks {
  import opened Wrappers
  import opened Digest
  import Decimal

  /** `index` may be any integer (the constructor does not check it); `nonce`
      starts at 0 and only ever grows. `hash` is a stored field: nothing
      forces it to agree with the other fields. */
  datatype Block = Block(
    index: int,
    previousHash: string,
    data: string,
    timestamp: string,
    nonce: nat,
    hash: string)

  /** The string `calculate_hash` hashes: the five fields rendered and joined
      with no separator between them. */
  function HashInput(index: int, previousHash: string, data: string, timestamp: string, nonce: nat): string {
    Decimal.FromInt(index) + previousHash + data + timestamp + Decimal.FromNat(nonce)
  }

  /** `calculate_hash()`: the digest of the block's fields, ignoring its stored hash. */
  function CalculateHash(sha: DigestFn, b: Block): (h: string)
    ensures IsHexDigest(h)
  {
    sha(HashInput(b.index, b.previousHash, b.data, b.timestamp, b.nonce))
  }

  /** The digest the block would have with nonce `nonce`. */
  function HashAt(sha: DigestFn, b: Block, nonce: nat): string {
    CalculateHash(sha, b.(nonce := nonce))
  }

  /** The stored hash is the digest of the block's own fields. */
  predicate Consistent(sha: DigestFn, b: Block) {
    b.hash == CalculateHash(sha, b)
  }

  /** Two blocks agree on every field that mining leaves alone. */
  predicate SameContent(a: Block, b: Block) {
    a.index == b.index && a.previousHash == b.previousHash &&
    a.data == b.data && a.timestamp == b.timestamp
  }

  /** `Block(index, previous_hash, data, timestamp)`. */
  function NewBlock(sha: DigestFn, index: int, previousHash: string, data: string, timestamp: string): (b: Block)
    ensures b.index == index && b.previousHash == previousHash
    ensures b.data == data && b.timestamp == timestamp
    ensures b.nonce == 0
    ensures Consistent(sha, b) && IsHexDigest(b.hash)
  {
    var unhashed := Block(index, previousHash, data, timestamp, 0, "");
    unhashed.(hash := CalculateHash(sha, unhashed))
  }

  /** The digest depends on the five hashed fields and on nothing else. */
  lemma CalculateHashDeterministic(sha: DigestFn, a: Block, b: Block)
    requires SameContent(a, b) && a.nonce == b.nonce
    ensures CalculateHash(sha, a) == CalculateHash(sha, b)
  {
  }

  /** With the other four fields fixed, distinct nonces give distinct hash
      inputs, so every step of the search asks the digest something new. */
  lemma NonceDeterminesInput(index: int, previousHash: string, data: string, timestamp: string, m: nat, n: nat)
    ensures HashInput(index, previousHash, data, timestamp, m) == HashInput(index, previousHash, data, timestamp, n) <==> m == n
  {
    var prefix := Decimal.FromInt(index) + previousHash + data + timestamp;
    if HashInput(index, previousHash, data, timestamp, m) == HashInput(index, previousHash, data, timestamp, n) {
      var sm, sn := Decimal.FromNat(m), Decimal.FromNat(n);
      assert prefix + sm == prefix + sn;
      assert sm == (prefix + sm)[|prefix|..];
      assert sn == (prefix + sn)[|prefix|..];
      Decimal.NatRoundTrip(m);
      Decimal.NatRoundTrip(n);
    }
  }

  /** Without separators, distinct field tuples can share a hash input: index 12
      with an empty previous hash reads the same as index 1 with previous hash "2". */
  lemma HashInputNotInjective()
    ensures HashInput(1, "2", "", "", 0) == HashInput(12, "", "", "", 0)
  {
  }

  /** A nonce together with the hash stored for it: the two fields mining changes. */
  datatype Seal = Seal(nonce: nat, hash: string)

  /** The `while` loop of `mine_block` over nonce and hash alone, for any map
      `digestAt` from nonce to digest, allowed at most `fuel` iterations. */
  function Search(digestAt: nat -> string, s: Seal, difficulty: nat, fuel: nat): (r: Option<Seal>)
    ensures MeetsDifficulty(s.hash, difficulty) ==> r == Some(s)
    ensures r.Some? ==> MeetsDifficulty(r.value.hash, difficulty)
    ensures r.Some? ==> s.nonce <= r.value.nonce <= s.nonce + fuel
    ensures r.Some? && !MeetsDifficulty(s.hash, difficulty) ==>
              s.nonce < r.value.nonce && r.value.hash == digestAt(r.value.nonce)
    decreases fuel
  {
    if MeetsDifficulty(s.hash, difficulty) then Some(s)
    else if fuel == 0 then None
    else Search(digestAt, Seal(s.nonce + 1, digestAt(s.nonce + 1)), difficulty, fuel - 1)
  }

  /** A search that finds a seal after failing on its start skips only
      nonces whose digests fail. */
  lemma {:induction false} SearchFindsFirst(digestAt: nat -> string, s: Seal, difficulty: nat, fuel: nat)
    requires !MeetsDifficulty(s.hash, difficulty)
    requires Search(digestAt, s, difficulty, fuel).Some?
    ensures forall k :: s.nonce < k < Search(digestAt, s, difficulty, fuel).value.nonce ==>
              !MeetsDifficulty(digestAt(k), difficulty)
    decreases fuel
  {
    var next := Seal(s.nonce + 1, digestAt(s.nonce + 1));
    if !MeetsDifficulty(next.hash, difficulty) {
      SearchFindsFirst(digestAt, next, difficulty, fuel - 1);
    }
  }

  /** A search fails exactly when its start and the `fuel` following digests all fail. */
  lemma {:induction false} SearchNoneIff(digestAt: nat -> string, s: Seal, difficulty: nat, fuel: nat)
    ensures Search(digestAt, s, difficulty, fuel).None? <==>
              !MeetsDifficulty(s.hash, difficulty) &&
              forall k :: s.nonce < k <= s.nonce + fuel ==> !MeetsDifficulty(digestAt(k), difficulty)
    decreases fuel
  {
    if !MeetsDifficulty(s.hash, difficulty) && fuel > 0 {
      SearchNoneIff(digestAt, Seal(s.nonce + 1, digestAt(s.nonce + 1)), difficulty, fuel - 1);
    }
  }

  /** A search that finishes finds the same seal with any larger fuel. */
  lemma {:induction false} SearchFuelMonotone(digestAt: nat -> string, s: Seal, difficulty: nat, fuel: nat, more: nat)
    requires fuel <= more
    requires Search(digestAt, s, difficulty, fuel).Some?
    ensures Search(digestAt, s, difficulty, more) == Search(digestAt, s, difficulty, fuel)
    decreases fuel
  {
    if !MeetsDifficulty(s.hash, difficulty) {
      SearchFuelMonotone(digestAt, Seal(s.nonce + 1, digestAt(s.nonce + 1)), difficulty, fuel - 1, more - 1);
    }
  }

  /** The digest of `b`'s fields at each nonce. */
  function NonceDigests(sha: DigestFn, b: Block): nat -> string {
    (n: nat) => HashAt(sha, b, n)
  }

  lemma NonceDigestsAt(sha: DigestFn, b: Block, k: nat)
    ensures NonceDigests(sha, b)(k) == HashAt(sha, b, k)
  {
  }

  /** `mine_block(difficulty)` allowed at most `fuel` iterations: `None` when the
      search has not finished by then. The loop tests the stored hash first, so
      a block whose hash already passes comes back unchanged. */
  function Mine(sha: DigestFn, b: Block, difficulty: nat, fuel: nat): (r: Option<Block>)
    ensures MeetsDifficulty(b.hash, difficulty) ==> r == Some(b)
    ensures r.Some? ==> SameContent(r.value, b) && MeetsDifficulty(r.value.hash, difficulty)
    ensures r.Some? ==> b.nonce <= r.value.nonce <= b.nonce + fuel
    ensures r.Some? && !MeetsDifficulty(b.hash, difficulty) ==>
              b.nonce < r.value.nonce && Consistent(sha, r.value)
  {
    match Search(NonceDigests(sha, b), Seal(b.nonce, b.hash), difficulty, fuel)
    case None => None
    case Some(s) => Some(b.(nonce := s.nonce, hash := s.hash))
  }

  /** The `while` loop of `mine_block`, iteration for iteration: test the
      stored hash, else bump the nonce and take the digest at the new nonce. */
  method SearchLoop(digestAt: nat -> string, s: Seal, difficulty: nat, fuel: nat) returns (r: Option<Seal>)
    ensures r == Search(digestAt, s, difficulty, fuel)
  {
    var nonce, hash := s.nonce, s.hash;
    var left := fuel;
    while !MeetsDifficulty(hash, difficulty)
      invariant Search(digestAt, Seal(nonce, hash), difficulty, left) == Search(digestAt, s, difficulty, fuel)
      decreases left
    {
      if left == 0 {
        return None;
      }
      nonce := nonce + 1;
      hash := digestAt(nonce);
      left := left - 1;
    }
    r := Some(Seal(nonce, hash));
  }

  /** `mine_block` on a block: the loop run with the digests of the block's
      fields, its result written back into `nonce` and `hash`. */
  method MineBlock(sha: DigestFn, b: Block, difficulty: nat, fuel: nat) returns (r: Option<Block>)
    ensures r == Mine(sha, b, difficulty, fuel)
  {
    var sealed := SearchLoop(NonceDigests(sha, b), Seal(b.nonce, b.hash), difficulty, fuel);
    if sealed.None? {
      r := None;
    } else {
      r := Some(b.(nonce := sealed.value.nonce, hash := sealed.value.hash));
    }
  }

  /** When the stored hash fails the test, mining returns the FIRST nonce
      above the starting one whose digest passes: every nonce skipped fails. */
  lemma MineFindsFirstPassingNonce(sha: DigestFn, b: Block, difficulty: nat, fuel: nat)
    requires !MeetsDifficulty(b.hash, difficulty)
    requires Mine(sha, b, difficulty, fuel).Some?
    ensures var m := Mine(sha, b, difficulty, fuel).value;
            forall k :: b.nonce < k < m.nonce ==> !MeetsDifficulty(HashAt(sha, b, k), difficulty)
  {
    var digests := NonceDigests(sha, b);
    SearchFindsFirst(digests, Seal(b.nonce, b.hash), difficulty, fuel);
    forall k: nat | b.nonce < k
      ensures digests(k) == HashAt(sha, b, k)
    {
      NonceDigestsAt(sha, b, k);
    }
  }

  /** The stored hash and the digests at the `fuel` nonces after `b.nonce` all
      fail the test. */
  predicate Exhausted(sha: DigestFn, b: Block, difficulty: nat, fuel: nat) {
    !MeetsDifficulty(b.hash, difficulty) &&
    forall k :: b.nonce < k <= b.nonce + fuel ==> !MeetsDifficulty(HashAt(sha, b, k), difficulty)
  }

  /** Mining runs out of fuel exactly when the stored hash and the digests at
      all `fuel` following nonces fail the test. */
  lemma MineNoneIff(sha: DigestFn, b: Block, difficulty: nat, fuel: nat)
    ensures Mine(sha, b, difficulty, fuel).None? <==> Exhausted(sha, b, difficulty, fuel)
  {
    var digests := NonceDigests(sha, b);
    SearchNoneIff(digests, Seal(b.nonce, b.hash), difficulty, fuel);
    forall k: nat | b.nonce < k
      ensures digests(k) == HashAt(sha, b, k)
    {
      NonceDigestsAt(sha, b, k);
    }
  }

  /** Fuel only bounds the search: once it finishes, more fuel finds the same block. */
  lemma MineFuelMonotone(sha: DigestFn, b: Block, difficulty: nat, fuel: nat, more: nat)
    requires fuel <= more
    requires Mine(sha, b, difficulty, fuel).Some?
    ensures Mine(sha, b, difficulty, more) == Mine(sha, b, difficulty, fuel)
  {
    SearchFuelMonotone(NonceDigests(sha, b), Seal(b.nonce, b.hash), difficulty, fuel, more);
  }

  /** Mining a block that mining just returned does nothing. */
  lemma MineIdempotent(sha: DigestFn, b: Block, difficulty: nat, fuel: nat, again: nat)
    requires Mine(sha, b, difficulty, fuel).Some?
    ensures var m := Mine(sha, b, difficulty, fuel).value;
            Mine(sha, m, difficulty, again) == Some(m)
  {
  }

  /** At difficulty 0 every hash passes, so mining returns the block unchanged. */
  lemma MineZeroDifficulty(sha: DigestFn, b: Block, fuel: nat)
    ensures Mine(sha, b, 0, fuel) == Some(b)
  {
  }

  /** Above 64 the loop of the source never exits: no fuel is enough when the
      stored hash is a hex digest. */
  lemma MineAbove64NeverFinishes(sha: DigestFn, b: Block, difficulty: nat, fuel: nat)
    requires IsHexDigest(b.hash)
    requires difficulty > 64
    ensures Mine(sha, b, difficulty, fuel) == None
  {
  }
}
