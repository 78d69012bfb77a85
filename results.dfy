/** Shared failure-compatible wrappers and the errors the purchase client can raise. */
module Results {

  datatype Option<+T> = None | Some(value: T) {
    function GetOr(default: T): T {
      match this
      case Some(v) => v
      case None => default
    }
  }

  /** The exceptions thrown by the client code, one constructor per distinct throw site. */
  datatype Error =
    | OddLengthHex                                  // hexToUint8Array: length must be even
    | HexNoMatch                                    // `match` returned null, `.map` on null
    | EmptySeedList                                 // xorBuffers: input array is empty
    | SeedLengthMismatch(seed: nat, length: nat, expected: int)
    | InvalidPublicKey                              // ECDH rejects the counterparty point
    | InvalidAesKeyLength(length: nat)              // importKey('raw', AES-GCM) DataError
    | DecryptFailed                                 // AES-GCM OperationError (tag mismatch)
    | MissingRoundKey(round: int)                   // roundKeys[round] is undefined
    | MissingEncryptedSecret(at: int)            // encryptedSecrets[leafIndex] is undefined
    | MissingBookKey                                // finalBookKey is still null
    | DownloadFailed(status: int)                   // fetch answered with !response.ok
    | FetchRejected                                 // fetch(signedUrl) rejected (network error)
    | BodyRejected                                  // response.arrayBuffer() rejected
    | TreeFull                                      // more leaves than 2^TREE_LEVELS
    | BookLeafNotFound                              // getMerkleProof with leafIndex < 0
    | IndexOutOfBounds(leaf: int)                  // leaf index at or past the number of books
    | ProofGenerationFailed                         // groth16.fullProve rejected the witness
    | PoseidonNotInitialised                        // poseidonHash before getPoseidon
    | MalformedMessage                              // JSON.parse of the frame threw
    | BookNotFound                                  // fetchBookById found nothing

  datatype Result<+T> = Ok(value: T) | Err(error: Error) {
    predicate IsFailure() { Err? }
    function PropagateFailure<U>(): Result<U>
      requires Err?
    {
      Err(error)
    }
    function Extract(): T
      requires Ok?
    {
      value
    }
  }
}

/** Powers of two and bits of naturals, shared by the choice-bit and Merkle models. */
module Powers {

  function Pow2(n: nat): (r: nat)
    ensures r >= 1
  {
    if n == 0 then 1 else 2 * Pow2(n - 1)
  }

  /** Bit `r` (least significant first) of `v`. */
  function Bit(v: nat, r: nat): (b: nat)
    ensures b < 2
  {
    if r == 0 then v % 2 else Bit(v / 2, r - 1)
  }

  /** Value of a least-significant-first bit list. */
  function FromBits(bits: seq<int>): int {
    if bits == [] then 0 else bits[0] + 2 * FromBits(bits[1..])
  }

  /** Least k with 2^k >= n (the integer reading of Math.ceil(Math.log2(n))). */
  function CeilLog2(n: nat): (k: nat)
    requires n >= 1
    ensures n <= Pow2(k)
    ensures k > 0 ==> Pow2(k - 1) < n
  {
    if n == 1 then 0 else 1 + CeilLog2((n + 1) / 2)
  }

  lemma {:induction false} Pow2Monotone(a: nat, b: nat)
    requires a <= b
    ensures Pow2(a) <= Pow2(b)
  {
    if a < b { Pow2Monotone(a, b - 1); }
  }
}
