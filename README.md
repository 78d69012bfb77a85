# Private e-book purchase: buyer-side protocol model

This project models the buyer's side of a privacy-preserving e-book shop. The buyer proves
that they paid for some catalogue book without saying which one. The proof is a zero-knowledge
Merkle-membership proof over a Poseidon tree of the catalogue. The buyer then receives the key
of only the chosen book through k rounds of 1-of-2 oblivious transfer (OT), with
k = ceil(log2 numBooks). The model also covers the catalogue search and pagination service.

Modules and files:

- `results.dfy`: `Results` (the `Option`/`Result` wrappers and one `Error` constructor per
  throw site of the client) and `Powers` (powers of two, bits, integer ceiling-log2).
- `js_text.dfy`: `JsText`, the ECMAScript built-ins the client relies on: `trim`,
  `toLowerCase` (ASCII letters), `includes`, `padStart`, `Number#toString(radix)` and
  `parseInt`. Each keeps the language's edge cases (whitespace set, `0x` prefix, NaN).
- `ot_utils.dfy`: `OtUtils`, hex text ⇄ bytes, the XOR combiner of OT seeds (a pure
  specification `XorCombine` and the two-loop method `XorBuffers` proved equal to it), and
  the ECDH / SHA-256 / AES-GCM calls over an abstract `CryptoProvider`.
- `zkp_utils.dfy`: `ZkpUtils`, the depth-8 Merkle tree with zero-leaf padding, membership
  paths, the path-folding check, the circuit input record, and the cached Poseidon instance
  as a class.
- `books_api.dfy`: `BooksApi`, `fetchBookById` and `fetchBooks` over the 15-book catalogue.
- `purchase_protocol.dfy`: `Purchase`, the page state as a value. It holds one function per
  socket event and server message (`ZKP_READY`, `OT_START`, `OT_ROUND_START`,
  `OT_ROUND_CHALLENGE`, `OT_DELIVER`, `SIGNED_URL`), the catch block, and the protocol lemmas.
- `purchase_session.dfy`: `PurchaseClient.PurchaseSession`, the page as the mutable object
  it is. `otState` (`choiceBits`, `roundKeys`, `collectedSeeds`, `finalBookKey`), status,
  error, socket, sent frames and local storage are fields. Each handler updates them step by
  step and is proved to leave the object in the state the matching `Purchase` function gives.

External effects are parameters. The `Env` record carries the crypto primitives, the Poseidon
builder, `uuidToBigIntString`, `groth16.fullProve` and `fetch`. Calls that can fail return an
`Option`: ECDH rejecting a point, AES-GCM rejecting a tag, the prover failing, `fetch` rejecting
the request and `arrayBuffer()` rejecting the body. Randomness
(`randomSecretKey`) is an argument of the round-start handler. Socket sends are appended to an
`outbox`. Local storage is a `map` from keys to stored text, and `JSON.parse` of the stored
purchase secret is a parameter of `Setup` returning `StoredJson`: a syntax error, `null`, an
object with a string book id and nonce, or any other value.

Points of the client's behaviour worth knowing when reading the contracts:

- The message handler accepts any message type in any state and enforces no order between
  messages (`HandleMessage`).
- The number of books the server sends at `OT_START` is not checked against the local
  catalogue. `padStart` never truncates, so a leaf index at or above 2^k gives more than k
  choice bits (`ChoiceBitsAreBits`). A one-book catalogue gives the single bit `[0]`, not
  zero bits (`SingleBookKeepsOneBit`).
- The commitment is not compared with an earlier one.
- Indexing past the end of `roundKeys` or `encryptedSecrets` raises a `TypeError`, which the
  catch block handles. It is modelled as that error (`MissingRoundKey`,
  `MissingEncryptedSecret`) and not as a precondition. An undefined `choiceBits[round]` is not
  `=== 0`, so branch 1 is used.
- `getMerkleProof` rejects only negative indices itself. An index at or past the number of
  books is rejected by the tree library (`IndexOutOfBounds`).

## Model

| member | source | states |
|---|---|---|
| `Powers.CeilLog2` | src/pages/VerifyDownloadPage.jsx:114 | the least k with n ≤ 2^k (2^(k-1) < n when k > 0): the integer reading of `Math.ceil(Math.log2(n))` |
| `JsText.Trim` | src/api/booksApi.js:43-44 | the result is the input with a leading and a trailing run of ECMAScript white space or line terminators removed; it is empty exactly when every character is such white space, and otherwise starts and ends with a non-space |
| `JsText.ToLowerCase` | src/api/booksApi.js:44-47 | same length, each character lowered (ASCII letters only) |
| `JsText.Includes` | src/api/booksApi.js:50-52 | true exactly when the needle occurs at some position |
| `JsText.PadStart` | src/pages/VerifyDownloadPage.jsx:115 | length is max(target, length): never truncates; the fill comes before the original text |
| `JsText.ToRadixString` | src/lib/otUtils.js:24 | at least one lower-case digit of the radix; a single digit for values below the radix |
| `JsText.ToRadixStringValue` | src/lib/otUtils.js:24 | the digits `toString(radix)` writes read back as the number |
| `JsText.ParseIntOfDigits` | src/lib/otUtils.js:15 | `parseInt` of a digit string without `0x` prefix is its value in that radix |
| `JsText.ParseIntOfIntToString` | src/api/booksApi.js:27 | `parseInt(n.toString())` is n for every integer, with or without radix 10 |
| `JsText.DigitsValueLeadingZeros` | src/pages/VerifyDownloadPage.jsx:115 | zero padding on the left does not change a digit string's value |
| `OtUtils.HexToBytes` | src/lib/otUtils.js:11-16 | odd length throws "length must be even"; the empty string throws (no regex match, `.map` of null) |
| `OtUtils.DecodePairs` | src/lib/otUtils.js:15 | one byte per regex match, byte i being `parseInt(pair i, 16)` converted as `Uint8Array` does |
| `OtUtils.RegexPairsOfPlainText` | src/lib/otUtils.js:15 | on even-length text without line terminators `/.{1,2}/g` yields n/2 matches, match i being characters 2i and 2i+1 |
| `OtUtils.BytesToHex` | src/lib/otUtils.js:23-25 | output length is twice the byte count |
| `OtUtils.HexByteIsPaddedToString` | src/lib/otUtils.js:24 | `byte.toString(16).padStart(2, '0')` is the high-nibble digit then the low-nibble digit |
| `OtUtils.BytesToHexPairs` | src/lib/otUtils.js:23-25 | characters 2i and 2i+1 of the output are the two hex digits of byte i |
| `OtUtils.BytesToHexIsLowerHex` | src/lib/otUtils.js:24 | every output character is a lower-case hex digit |
| `OtUtils.HexRoundTrip` | src/lib/otUtils.js:11-25 | `hexToUint8Array(uint8ArrayToHex(b)) == b` for every non-empty byte string |
| `OtUtils.HexOfEmptyDoesNotDecode` | src/lib/otUtils.js:15 | the empty byte string is the one the round trip misses |
| `OtUtils.HexTextRoundTrip` | src/lib/otUtils.js:11-25 | decoding even-length non-empty hex text gives length/2 bytes, and re-encoding gives the text lower-cased |
| `OtUtils.XorFacts` | src/lib/otUtils.js:95 | byte XOR is commutative and associative, self-inverse, with 0 as identity |
| `OtUtils.FirstBadLength` | src/lib/otUtils.js:88-92 | the first index whose length differs from the expected one, all earlier ones matching; none when all match |
| `OtUtils.XorCombine` | src/lib/otUtils.js:83-98 | succeeds iff the list is non-empty and every buffer has the expected length; the empty list fails first, then a length mismatch naming the first buffer of the wrong length, its length and the expected one; on success the result has the expected length and byte j is the XOR of byte j of every buffer |
| `OtUtils.XorBuffers` | src/lib/otUtils.js:83-98 | the validation loop and the fill loop compute exactly `XorCombine` |
| `OtUtils.XorCombinePermutation` | src/lib/otUtils.js:93-97 | reordering the buffers changes neither success nor the result |
| `OtUtils.XorCombineSingle` | src/lib/otUtils.test.js:32-42 | a single buffer combines to a copy of itself |
| `OtUtils.XorCombineCancel` | src/lib/otUtils.js:93-97 | adding the same buffer twice leaves the result unchanged (XOR is self-inverse) |
| `OtUtils.GenerateClientOtKeyPair` | src/lib/otUtils.js:34-45 | the private key is the drawn random secret and the public key is its P-256 public key |
| `OtUtils.ImportAesKey` | src/lib/otUtils.js:67 | raw AES-GCM import succeeds iff the key is 16, 24 or 32 bytes, and keeps the bytes |
| `OtUtils.DeriveClientSharedSecret` | src/lib/otUtils.js:53-68 | a rejected point fails; a success is the SHA-256 digest of the ECDH shared secret |
| `OtUtils.DeriveOfValidPoint` | src/lib/otUtils.js:53-68 | for a provider whose SHA-256 gives 32-byte digests, an accepted point always yields the digest of the shared secret as the AES key |
| `OtUtils.SplitIv` | src/lib/otUtils.js:75-76 | the two slices concatenate to the buffer; the IV is 12 bytes, or all of a shorter buffer |
| `OtUtils.AesGcmDecrypt` | src/lib/otUtils.js:73-78 | hex errors propagate; once the text decodes, the result is AES-GCM of the first 12 decoded bytes as IV and the rest as data, or `DecryptFailed` when the tag is rejected |
| `OtUtils.SplitIvOfFramed` | src/lib/otUtils.js:75-76 | a 12-byte IV framed before the data is split off exactly |
| `OtUtils.AesGcmDecryptOfFramed` | src/lib/otUtils.test.js:9-16 | hex text of IV followed by ciphertext, as the encrypting side frames it, decrypts with exactly that IV and ciphertext |
| `ZkpUtils.PaddedLeaves` | src/lib/zkpUtils.js:34-42 | leaf i is `H(id_i, price_cents_i)` in catalogue order; positions past the catalogue are `'0'` |
| `ZkpUtils.ParentLayer` | src/lib/zkpUtils.js:40 | node i of the layer above is `H(left 2i, right 2i+1)` |
| `ZkpUtils.BuildLayers` | src/lib/zkpUtils.js:39-42 | the layers start with the leaves and form a tree: each layer is the parent layer of the one below, ending in one root |
| `ZkpUtils.BuildLayersDepth` | src/lib/zkpUtils.js:6 | 2^levels leaves give levels + 1 layers |
| `ZkpUtils.BuildTree` | src/lib/zkpUtils.js:30-45 | succeeds iff the books fit the 2^levels positions ("Tree is full" otherwise), with the padded leaves at the bottom |
| `ZkpUtils.BuildMerkleTree` | src/lib/zkpUtils.js:30-45 | depth `TREE_LEVELS = 8`: at most 256 books, 9 layers, 256 leaf positions holding each book's leaf hash in order and zero after them, every node the hash of its two children |
| `ZkpUtils.PathFrom` | src/lib/zkpUtils.js:52-53 | one sibling per level; `pathIndices[l]` is bit l of the leaf index |
| `ZkpUtils.GetMerkleProof` | src/lib/zkpUtils.js:48-54 | a negative index throws "Book leaf not found"; an index past the books is out of bounds; otherwise the tree's path |
| `ZkpUtils.PathFoldsToRoot` | src/lib/zkpUtils.test.js:58-76 | folding any node's path with `pathIndices` (0: `H(cur, sib)`, 1: `H(sib, cur)`) reproduces the root |
| `ZkpUtils.MembershipProofAtDepth` | src/lib/zkpUtils.test.js:58-76 | at any depth, every book has a proof of that length whose fold from its leaf is the root |
| `ZkpUtils.MembershipProof` | src/lib/zkpUtils.test.js:58-76 | every book of a catalogue of at most 256 has an 8-step proof whose fold from its leaf is the root |
| `ZkpUtils.GenerateZkpInputs` | src/lib/zkpUtils.js:57-70 | each circuit input is the matching argument: `book_id` and `price` as text, the rest passed through |
| `ZkpUtils.PackagedInputsProveMembership` | src/lib/zkpUtils.js:57-70 | the inputs packaged for a catalogue book satisfy the circuit's membership relation |
| `ZkpUtils.PoseidonCache.constructor` | src/lib/zkpUtils.js:9 | the cache starts empty |
| `ZkpUtils.PoseidonCache.GetPoseidon` | src/lib/zkpUtils.js:10-15 | the first call stores the built instance; later calls return the cached one unchanged |
| `ZkpUtils.PoseidonCache.PoseidonHash` | src/lib/zkpUtils.js:24-27 | fails before initialisation; otherwise the cached hasher's value on the inputs, so equal inputs give equal outputs |
| `BooksApi.FindBook` | src/api/booksApi.js:27-31 | found iff some book has the id; the result is the first such book; otherwise "Book not found" |
| `BooksApi.FetchBookById` | src/api/booksApi.js:24-32 | looks up `parseInt(id)`; a NaN id finds nothing |
| `BooksApi.MockIdsAreIndices` | src/api/booksApi.js:3-19 | the catalogue holds 15 books whose ids are 1..15 in order |
| `BooksApi.FindBookOfIndexIds` | src/api/booksApi.js:27 | in a catalogue whose ids are 1, 2, 3, … in order, `find` for id j + 1 returns book j |
| `BooksApi.FetchMockBookById` | src/api/booksApi.js:24-32 | looking a catalogue book up by the text of its id returns that book |
| `BooksApi.FetchMockBookByUnknownId` | src/api/booksApi.js:27-31 | an id outside 1..15 is not found |
| `BooksApi.Filter` | src/api/booksApi.js:45-56 | keeps every matching book as many times as it occurs and drops every other book, never more books than given |
| `BooksApi.FilterIsSubsequence` | src/api/booksApi.js:45 | filtering keeps catalogue order and only removes books |
| `BooksApi.OtherKindKeepsAll` | src/api/booksApi.js:53-54 | a search type other than title or author keeps every book |
| `BooksApi.FilteredResults` | src/api/booksApi.js:42-57 | a missing, empty or whitespace-only query keeps the whole catalogue; otherwise exactly the books matching the trimmed lower-cased query, each as many times as the catalogue holds it |
| `BooksApi.FilteredIsSubsequence` | src/api/booksApi.js:42-57 | whatever the query, the results are an order-preserving sub-list of the catalogue |
| `BooksApi.Slice` | src/api/booksApi.js:63 | `slice(start, end)` clamps to the list and is empty past its end |
| `BooksApi.FetchBooks` | src/api/booksApi.js:35-71 | page p is `filtered[(p-1)*5 .. p*5)` clamped, at most 5 books; `nextPage == p+1` iff `p*5 < |filtered|`, otherwise undefined |
| `BooksApi.PagesFromIsSuffix` | src/api/booksApi.js:61-69 | following `nextPage` from page p yields the filtered list from position (p-1)*5 on |
| `BooksApi.AllPagesGiveFilteredResults` | src/pages/SearchResultsPage.jsx:70 | flattening the pages from page 1 until there is no `nextPage` gives exactly the filtered list |
| `Purchase.Initial` | src/pages/VerifyDownloadPage.jsx:33-43 | the first render: preparing, no error, empty `otState`, no socket |
| `Purchase.FindIndex` | src/pages/VerifyDownloadPage.jsx:68 | the first index whose id equals the stored book id, or none |
| `Purchase.Setup` | src/pages/VerifyDownloadPage.jsx:57-78 | waits for token, purchase id and catalogue; no stored text or an empty one fails with `MissingCredential`; text `JSON.parse` rejects, or `null`, leaves the page as it was; a value naming no catalogue book fails with `InvalidBookId`; each failure opens no socket; otherwise the socket is created with the leaf index of the parsed secret's book |
| `Purchase.SetupFindsBook` | src/pages/VerifyDownloadPage.jsx:67-78 | a stored secret that parses and names book i (first with that id) opens the socket with leaf index i and that secret |
| `Purchase.UnparsableSecretStopsSetup` | src/pages/VerifyDownloadPage.jsx:67-68 | stored text that `JSON.parse` rejects, or `null`, throws out of the effect: no status, no error, no socket |
| `Purchase.Send` | src/pages/VerifyDownloadPage.jsx:82 | a frame is appended to the sent frames only while the socket is open, and nothing else changes |
| `Purchase.Fail` | src/pages/VerifyDownloadPage.jsx:205-211 | the catch block records the current status and the error, closes an open socket with code 4000, and changes nothing else |
| `Purchase.ProveMembership` | src/pages/VerifyDownloadPage.jsx:91-105 | more than 256 books fails with `TreeFull`; otherwise the result is the prover's output for the inputs built from the tree, the leaf's path, its root and the commitment `H(id, nonce, price)`, or `ProofGenerationFailed` when the prover fails |
| `Purchase.ProverInputsProveMembership` | src/pages/VerifyDownloadPage.jsx:92-104 | the inputs handed to the prover satisfy the membership relation |
| `Purchase.HandleZkpReady` | src/pages/VerifyDownloadPage.jsx:89-108 | Poseidon is loaded once (the new instance is the one circomlibjs builds); a failed proof goes to the catch block; a success sends `ZKP_PROVE` and changes only the status, the Poseidon instance and the sent frames |
| `Purchase.ChoiceBitCount` | src/pages/VerifyDownloadPage.jsx:114 | 0 when `numBooks <= 1`, else the least k with 2^k ≥ numBooks |
| `Purchase.ChoiceBitsAreBits` | src/pages/VerifyDownloadPage.jsx:115-116 | `choiceBits[r]` is bit r of the leaf index (LSB first); the length is the larger of the count and the binary length, never truncated |
| `Purchase.ChoiceBitsOfLeafInRange` | src/pages/VerifyDownloadPage.jsx:113-116 | for a leaf below `numBooks` there are exactly k bits and they read back as the leaf index |
| `Purchase.ChoiceBitsExample` | src/pages/VerifyDownloadPage.jsx:114-116 | four books, leaf 2: the choice bits are [0, 1] |
| `Purchase.SingleBookKeepsOneBit` | src/pages/VerifyDownloadPage.jsx:114-116 | one book asks for 0 bits yet gives the choice bits [0] |
| `Purchase.HandleOtStart` | src/pages/VerifyDownloadPage.jsx:111-118 | choice bit i is bit i of the leaf index, with as many bits as `ceil(log2 numBooks)` or the index's binary text, whichever is more; the status becomes `证明已验证！…`, `OT_ACK_START` is sent on an open socket, and nothing else changes |
| `Purchase.HandleOtRoundStart` | src/pages/VerifyDownloadPage.jsx:121-132 | appends exactly one fresh key pair and replies `OT_ROUND_RESPONSE` with the received round and the hex public key, sending nothing on a socket that is not open; only the status, the round keys and the sent frames change |
| `Purchase.RoundKey` | src/pages/VerifyDownloadPage.jsx:142 | `roundKeys[round]` when in range, otherwise the TypeError of reading a property of undefined |
| `Purchase.ChallengeSeed` | src/pages/VerifyDownloadPage.jsx:136-148 | uses g0/e0 when the choice bit is 0 and g1/e1 otherwise, with `roundKeys[round]`; a bad hex key, a missing round key, a rejected point and a failed decryption each give exactly that step's error, and success is the decryption of the chosen ciphertext under the derived key |
| `Purchase.HandleOtRoundChallenge` | src/pages/VerifyDownloadPage.jsx:135-159 | a recovered seed is appended (exactly one), `OT_ROUNDS_COMPLETE` is sent exactly after the last round on an open socket, and nothing but the seeds, status and sent frames changes; a failure goes to the catch block and leaves the seeds unchanged |
| `Purchase.UnchosenBranchIgnored` | src/pages/VerifyDownloadPage.jsx:138-146 | the branch the choice bit does not select has no effect on the outcome |
| `Purchase.FourBookScenario` | src/pages/VerifyDownloadPage.jsx:111-148 | four books, leaf 2: round 0 reads only branch 0 and round 1 only branch 1 |
| `Purchase.RoundsCompleteOnLastRound` | src/pages/VerifyDownloadPage.jsx:153-158 | `OT_ROUNDS_COMPLETE` is sent exactly when `round + 1 == choiceBits.length` |
| `Purchase.RoundsCollectSeeds` | src/pages/VerifyDownloadPage.jsx:135-159 | successive successful rounds collect exactly their chosen seeds in round order, and leave the error, socket, choice bits, round keys, book key, leaf index and storage unchanged |
| `Purchase.RoundsSendCompleteOnce` | src/pages/VerifyDownloadPage.jsx:153-158 | over successive successful rounds on an open socket the only frame sent is one `OT_ROUNDS_COMPLETE`, and only when the last round reached is the last choice bit |
| `Purchase.RoundsYieldOfEach` | src/pages/VerifyDownloadPage.jsx:136-148 | the round-by-round condition that every chosen branch decrypts, restated as one recursive predicate |
| `Purchase.DeliveredKey` | src/pages/VerifyDownloadPage.jsx:166-173 | master key `xorBuffers(seeds, 32)` (its errors propagate); only `encryptedSecrets[leafIndex]` is decrypted; once the master key and the entry exist, the result is the import of its plaintext or the decryption's own error |
| `Purchase.HandleOtDeliver` | src/pages/VerifyDownloadPage.jsx:162-177 | on success stores the book key and sends `REQUEST_SIGNED_URL` with `bookIndex == leafIndex`, changing only the book key, the status and the sent frames; on failure goes to the catch block |
| `Purchase.DeliverReadsOnlyLeafSecret` | src/pages/VerifyDownloadPage.jsx:170-172 | bundles that agree at the leaf index give the same outcome |
| `Purchase.DeliverNeedsFullSeeds` | src/pages/VerifyDownloadPage.jsx:166 | no seeds, or a seed that is not 32 bytes, fails without setting a key or sending anything |
| `Purchase.RecoveredSeedsUnwrapLeafSecret` | src/pages/VerifyDownloadPage.jsx:135-176 | end to end: after k rounds of 32-byte seeds the book key is unwrapped from the leaf's entry with the XOR of exactly those seeds |
| `Purchase.DecryptBook` | src/pages/VerifyDownloadPage.jsx:188-191 | the first 12 bytes are the IV and the rest the ciphertext; a missing key fails |
| `Purchase.DecryptBookOfFramed` | src/pages/VerifyDownloadPage.jsx:189-191 | a file framed as IV then ciphertext decrypts with exactly those parts |
| `Purchase.HandleSignedUrl` | src/pages/VerifyDownloadPage.jsx:180-211 | a rejected `fetch`, a response that is not ok and a rejected `arrayBuffer()` each go to the catch block while downloading; a failed decryption goes there while decrypting; otherwise the book is published, `purchaseSecrets_<id>` removed and `DOWNLOAD_READY` sent, with socket, `otState`, leaf index and error unchanged |
| `Purchase.SecretErasedOnlyOnSuccess` | src/pages/VerifyDownloadPage.jsx:191-197 | the stored secret is removed exactly when the book was decrypted; on failure storage is unchanged and an error recorded |
| `Purchase.HandleOpen` | src/pages/VerifyDownloadPage.jsx:80-83 | the socket opens, the status says so and `INIT` is sent with the token; nothing else changes, so a valid page stays valid |
| `Purchase.HandleError` | src/pages/VerifyDownloadPage.jsx:215-218 | records the connection error and nothing else |
| `Purchase.HandleClose` | src/pages/VerifyDownloadPage.jsx:219-224 | the socket is closed; only an unclean close changes the status; nothing else changes, so a valid page stays valid |
| `Purchase.HandleMessage` | src/pages/VerifyDownloadPage.jsx:85-213 | on an open socket each message type goes to its handler whatever the status, a malformed frame to the catch block, an unknown type changes nothing; a socket that is not open changes nothing; the page stays valid |
| `Purchase.EarlyDeliverIsHandled` | src/pages/VerifyDownloadPage.jsx:162-177 | `OT_DELIVER` before any round has ended is still handled: it fails with `EmptySeedList` while decrypting the book key, closes the socket with 4000 and sends nothing |
| `Purchase.MalformedFrameCloses` | src/pages/VerifyDownloadPage.jsx:86-87 | a frame that does not parse records the error and closes the socket with 4000 |
| `Purchase.NoMessagesAfterFailure` | src/pages/VerifyDownloadPage.jsx:209-211 | after the catch block closes the socket, no further message changes the page |
| `PurchaseClient.PurchaseSession.constructor` | src/pages/VerifyDownloadPage.jsx:33-43 | the object starts as `Initial` |
| `PurchaseClient.PurchaseSession.Setup` | src/pages/VerifyDownloadPage.jsx:57-78 | updates the fields to `Purchase.Setup` of the old state |
| `PurchaseClient.PurchaseSession.CreateSocket` | src/pages/VerifyDownloadPage.jsx:74-78 | records the catalogue, purchase, secret and leaf index and creates the socket |
| `PurchaseClient.PurchaseSession.Send` | src/pages/VerifyDownloadPage.jsx:82 | appends the frame to the outbox only while open |
| `PurchaseClient.PurchaseSession.Abort` | src/pages/VerifyDownloadPage.jsx:205-211 | the catch block in place: new state is `Fail` of the old |
| `PurchaseClient.PurchaseSession.OnOpen` | src/pages/VerifyDownloadPage.jsx:80-83 | new state is `HandleOpen` of the old |
| `PurchaseClient.PurchaseSession.OnZkpReady` | src/pages/VerifyDownloadPage.jsx:89-108 | new state (including the shared Poseidon cache) is `HandleZkpReady` of the old |
| `PurchaseClient.PurchaseSession.OnOtStart` | src/pages/VerifyDownloadPage.jsx:111-118 | assigns `choiceBits`; new state is `HandleOtStart` of the old |
| `PurchaseClient.PurchaseSession.OnOtRoundStart` | src/pages/VerifyDownloadPage.jsx:121-132 | pushes onto `roundKeys`; new state is `HandleOtRoundStart` of the old |
| `PurchaseClient.PurchaseSession.OnOtRoundChallenge` | src/pages/VerifyDownloadPage.jsx:135-159 | pushes onto `collectedSeeds`; new state is `HandleOtRoundChallenge` of the old |
| `PurchaseClient.PurchaseSession.OnOtDeliver` | src/pages/VerifyDownloadPage.jsx:162-177 | sets `finalBookKey` via the `XorBuffers` loop; new state is `HandleOtDeliver` of the old |
| `PurchaseClient.PurchaseSession.OnSignedUrl` | src/pages/VerifyDownloadPage.jsx:180-203 | removes the storage entry; new state is `HandleSignedUrl` of the old |
| `PurchaseClient.PurchaseSession.OnError` | src/pages/VerifyDownloadPage.jsx:215-218 | new state is `HandleError` of the old |
| `PurchaseClient.PurchaseSession.OnClose` | src/pages/VerifyDownloadPage.jsx:219-224 | new state is `HandleClose` of the old |
| `PurchaseClient.PurchaseSession.OnMessage` | src/pages/VerifyDownloadPage.jsx:85-213 | dispatches on the message type; new state is `HandleMessage` of the old, and the page stays valid |

## Left out

- Cryptographic primitives are uninterpreted fields of `CryptoProvider` and `Env`: P-256 key
  derivation and ECDH (`@noble/curves`), SHA-256 and AES-GCM (`crypto.subtle`), Poseidon
  (`circomlibjs`) and `groth16.fullProve` (`snarkjs`). Their security properties (hiding,
  binding, unlinkability of OT branches) are not modelled.
- `fixed-merkle-tree` internals: the tree is written out over its padded layers. This agrees
  with the library's zero-subtree hashing, but its incremental storage is not modelled.
- `uuidToBigIntString` is imported but not defined in src/lib/zkpUtils.js. It is an abstract
  `Env` field with no body. `buildMerkleTree` hashes the raw `book.id`, as written.
- `getAllBooksRaw` is imported but not exported by src/api/booksApi.js. The page's catalogue
  is an argument of `Setup`.
- Randomness: `randomSecretKey` is an argument of the round-start handler. `generateNonce` is
  not called by the page; the nonce comes from the stored secret.
- I/O: WebSocket creation, `send` and `close` are recorded in the state (`outbox`, `socket`).
  The `fetch` call is an `Env` field. `localStorage` is a map of stored text. Blob and object-URL creation is
  kept as the decrypted bytes. JSON parsing of frames is left out: a frame is already
  decoded into `Incoming` or is `Malformed`.
- `Purchase.Setup`: an exception thrown out of the effect (stored text `JSON.parse` rejects,
  or a stored `null`) leaves the page state as it was. What React then does with the
  uncaught error is not modelled. `JSON.parse` itself is the `parse` parameter, and a
  parsed object whose book id is a string but whose nonce is not lies outside `StoredJson`.
- The effect's cleanup function, which detaches the handlers and closes the socket on unmount
  or re-run, is not modelled.
- Async interleaving: the handler awaits mid-message and nothing stops a second message from
  being processed meanwhile. The model processes messages strictly one at a time.
- `statusRef` is updated by a React effect after render, so the catch block may see an
  earlier status than the last `setStatus`. `Fail` records the latest status set.
- Floating point: `Math.log2`/`Math.ceil` become the integer `CeilLog2`. Prices are whole
  cents (`priceCents`); the catalogue's dollar `price`, its conversion and display
  formatting are left out.
- `OtUtils.HexToBytes`: text is counted in Unicode code points, not UTF-16 code units. A hex
  string holding a character outside the Basic Multilingual Plane (an emoji, say) has a
  different length and different regex matches in JavaScript, so the model may report an odd
  length where the client decodes a byte (NaN stored as 0). The same holds for `length` in
  `JsText`.
- `toLowerCase` maps ASCII letters only. Unicode case mapping (accented titles) is not
  modelled.
- `BooksApi.FetchBooks`: requires page ≥ 1. A page parameter of 0 or below would hit
  JavaScript's negative-index `slice` semantics, which are not modelled.
- The 300 ms and 500 ms simulated delays of the catalogue service have no logical effect and
  are left out.
- src/api/apiService.js, the zustand stores, all React rendering, routing and UI components,
  and vite.config.js are not part of this model.
