/** The SHA-256 hex digest and the proof-of-work test applied to it. The hash
    algorithm itself is not modelled: every operation takes the digest function
    as a parameter of type `DigestFn`, which promises only what `hexdigest()`
    promises, 64 lowercase hexadecimal characters for every input. */
module Digest {

  predicate IsHexChar(c: char) {
    c in "0123456789abcdef"
  }

  /** The shape of a SHA-256 `hexdigest()`. */
  predicate IsHexDigest(s: string) {
    |s| == 64 && forall i :: 0 <= i < |s| ==> IsHexChar(s[i])
  }

  /** `'0' * n` */
  function Zeros(n: nat): (z: string)
    ensures |z| == n
    ensures forall i :: 0 <= i < n ==> z[i] == '0'
  {
    seq(n, _ => '0')
  }

  /** A value `hexdigest()` can return. */
  type HexDigest = s: string | IsHexDigest(s) witness Zeros(64)

  /** Any digest function: deterministic, total, hex-valued. SHA-256 is one
      such function; `DigestFn` admits every other one too. */
  type DigestFn = string -> HexDigest

  /** Python's slice `h[:n]` for `n >= 0`: it is cut short at the end of `h`. */
  function Head(h: string, n: nat): (p: string)
    ensures |p| == if n <= |h| then n else |h|
    ensures forall i :: 0 <= i < |p| ==> p[i] == h[i]
  {
    if n <= |h| then h[..n] else h
  }

  /** The hash begins with `difficulty` zero characters. */
  predicate MeetsDifficulty(h: string, difficulty: nat) {
    difficulty <= |h| && forall i :: 0 <= i < difficulty ==> h[i] == '0'
  }

  /** The mining loop's exit test, `h[:difficulty] == '0' * difficulty`, holds
      exactly when the hash meets the difficulty; when `difficulty` exceeds the
      hash's length the slice is too short and the test fails. */
  lemma ExitTestIsMeetsDifficulty(h: string, difficulty: nat)
    ensures Head(h, difficulty) == Zeros(difficulty) <==> MeetsDifficulty(h, difficulty)
  {
  }

  /** No SHA-256 hex digest can meet a difficulty above 64: the slice is then
      the whole 64-character digest, shorter than the run of zeros. */
  lemma NoDigestMeetsAbove64(h: string, difficulty: nat)
    requires IsHexDigest(h)
    requires difficulty > 64
    ensures !MeetsDifficulty(h, difficulty)
  {
  }
}
