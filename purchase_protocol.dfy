/**
 * The buyer's side of the purchase protocol in src/pages/VerifyDownloadPage.jsx, as pure
 * functions over a snapshot of the page's state: the secret lookup before the socket opens,
 * one handler per server message (ZKP_READY, OT_START, OT_ROUND_START, OT_ROUND_CHALLENGE,
 * OT_DELIVER, SIGNED_URL), and the error path that records the failing stage and closes the
 * socket. Messages are handled one at a time.
 */
module Purchase {
  import opened Results
  import opened Powers
  import JsText
  import opened OtUtils
  import opened ZkpUtils

  // ---------------------------------------------------------------- page state

  /** The texts the page shows as its status, one constructor per `setStatus` call. */
  datatype Status =
    | Preparing                                   // 准备中...
    | Failed                                      // 失败
    | Connected                                   // 已连接。正在初始化验证...
    | GeneratingProof                             // 正在生成隐私证明...
    | SendingProof                                // 正在发送证明以供验证...
    | ProofVerified                               // 证明已验证！正在启动安全下载协议...
    | RoundInProgress(round: int, total: nat)     // 正在执行安全交换第 round+1 / total 轮...
    | RoundDone(round: int)                       // 安全交换第 round+1 轮完成。
    | DecryptingBookKey                           // 所有轮次完成。正在解密最终的书籍密钥...
    | RequestingUrl                               // 书籍密钥解密成功。正在请求下载链接...
    | Downloading                                 // 正在下载书籍文件...
    | DecryptingBook                              // 正在解密书籍...
    | DownloadReady                               // 下载已就绪！
    | Disconnected                                // 连接已断开。

  /** What `setError` records. */
  datatype ErrorReport =
    | MissingCredential                           // no stored purchase secret
    | InvalidBookId                               // the stored book id is not in the catalogue
    | FailedDuring(stage: Status, cause: Error)   // the catch block: the stage and the error
    | ConnectionError                             // socket.onerror

  /** The purchase secret the page reads from the text stored as `purchaseSecrets_<purchaseId>`. */
  datatype Secrets = Secrets(bookId: string, nonce: string)

  /**
   * What JSON.parse makes of the stored text, as far as the effect reads it: a SyntaxError,
   * `null` (reading its `bookId` throws a TypeError), an object with a string book id and
   * nonce, or any other value (its `bookId` is no catalogue id).
   */
  datatype StoredJson = NotJson | JsonNull | JsonSecrets(secrets: Secrets) | JsonOther

  datatype SocketState = NotCreated | Connecting | Open | Closing(code: int) | Closed(code: int)

  /** The output of groth16.fullProve. */
  datatype ProofOutput = ProofOutput(proof: string, publicSignals: seq<string>)

  /** The frames the page sends. */
  datatype Outgoing =
    | Init(token: string)
    | ZkpProve(output: ProofOutput)
    | OtAckStart
    | OtRoundResponse(round: int, clientPublicKey: string)
    | OtRoundsComplete
    | RequestSignedUrl(bookIndex: int)
    | DownloadReadyNotice

  /** The frames the server sends; a frame JSON.parse rejects, or of an unknown type, is kept as such. */
  datatype Incoming =
    | ZkpReady
    | OtStart(numBooks: int)
    | OtRoundStart(round: int)
    | OtRoundChallenge(round: int, g0: string, g1: string, e0: string, e1: string)
    | OtDeliver(encryptedSecrets: seq<string>)
    | SignedUrl(signedUrl: string)
    | Malformed
    | Unknown(kind: string)

  /** A response of `fetch`; the body is None when `arrayBuffer()` rejects. */
  datatype FetchResponse = FetchResponse(ok: bool, status: int, body: Option<Bytes>)

  /**
   * Everything the page calls and cannot be seen: the cryptographic primitives, the Poseidon
   * instance circomlibjs builds, the id-to-field conversion, the prover and the download.
   */
  datatype Env = Env(
    crypto: CryptoProvider,
    buildPoseidon: Hasher,
    uuidToBigIntString: string -> Field,
    fullProve: ZkpInputs -> Option<ProofOutput>,
    fetch: string -> Option<FetchResponse>)   // None: the request itself rejects

  /** The page's state: its React state, `otState`, the socket, what it sent, and local storage. */
  datatype Session = Session(
    catalog: seq<CatalogBook>,
    purchaseId: string,
    token: string,
    secrets: Secrets,
    leafIndex: nat,
    status: Status,
    error: Option<ErrorReport>,
    socket: SocketState,
    outbox: seq<Outgoing>,
    choiceBits: seq<int>,
    roundKeys: seq<KeyPair>,
    collectedSeeds: seq<Bytes>,
    finalBookKey: Option<AesKey>,
    download: Option<Bytes>,
    storage: map<string, string>,
    poseidon: Option<Hasher>)

  /** Once a socket exists, the leaf index points at the catalogue book of the stored secret. */
  predicate Valid(s: Session) {
    s.socket.NotCreated? || (s.leafIndex < |s.catalog| && s.catalog[s.leafIndex].id == s.secrets.bookId)
  }

  function SecretKeyOf(purchaseId: string): string {
    "purchaseSecrets_" + purchaseId
  }

  /** The page as first rendered. */
  function Initial(storage: map<string, string>, poseidon: Option<Hasher>): (s: Session)
    ensures s.status == Preparing && s.socket.NotCreated? && s.error.None? && s.outbox == []
    ensures s.choiceBits == [] && s.roundKeys == [] && s.collectedSeeds == [] && s.finalBookKey.None?
    ensures s.storage == storage && s.poseidon == poseidon
  {
    Session([], "", "", Secrets("", ""), 0, Preparing, None, NotCreated, [], [], [], [], None, None, storage, poseidon)
  }

  // ---------------------------------------------------------------- before the socket

  /** A JavaScript value that is truthy: present and not the empty string. */
  predicate Truthy(v: Option<string>) {
    v.Some? && v.value != ""
  }

  /** `allBooks.findIndex(b => b.id === bookId)`. */
  function FindIndex(books: seq<CatalogBook>, bookId: string): (r: Option<nat>)
    ensures r.Some? ==> r.value < |books| && books[r.value].id == bookId
                        && forall j :: 0 <= j < r.value ==> books[j].id != bookId
    ensures r.None? ==> forall j :: 0 <= j < |books| ==> books[j].id != bookId
  {
    if books == [] then None
    else if books[0].id == bookId then Some(0)
    else match FindIndex(books[1..], bookId)
      case None => None
      case Some(k) => Some(k + 1)
  }

  /** The effect's guard: a token, a purchase id and a loaded catalogue. */
  predicate Ready(token: Option<string>, purchaseId: Option<string>, allBooks: Option<seq<CatalogBook>>) {
    Truthy(token) && Truthy(purchaseId) && allBooks.Some?
  }

  /** `localStorage.getItem(key)`: None stands for `null`. */
  function StoredText(storage: map<string, string>, key: string): (v: Option<string>)
    ensures v.Some? <==> key in storage
    ensures v.Some? ==> v.value == storage[key]
  {
    if key in storage then Some(storage[key]) else None
  }

  /**
   * The effect that prepares the purchase: it waits for a token, a purchase id and the
   * catalogue; no stored text, or an empty one, fails the page; text that JSON.parse rejects,
   * or `null`, throws out of the effect and leaves the page as it was; a value naming no
   * catalogue book fails the page; otherwise the socket is created. `parse` is JSON.parse.
   */
  function Setup(s: Session, token: Option<string>, purchaseId: Option<string>, allBooks: Option<seq<CatalogBook>>,
                 parse: string -> StoredJson): (r: Session)
    ensures !Ready(token, purchaseId, allBooks) ==> r == s
    ensures Ready(token, purchaseId, allBooks) && !Truthy(StoredText(s.storage, SecretKeyOf(purchaseId.value))) ==>
      r == s.(status := Failed, error := Some(MissingCredential))
    ensures Ready(token, purchaseId, allBooks) && Truthy(StoredText(s.storage, SecretKeyOf(purchaseId.value))) ==>
      var json := parse(StoredText(s.storage, SecretKeyOf(purchaseId.value)).value);
      (json.NotJson? || json.JsonNull? ==> r == s) &&
      (json.JsonOther? ==> r == s.(status := Failed, error := Some(InvalidBookId))) &&
      (json.JsonSecrets? && (forall j :: 0 <= j < |allBooks.value| ==> allBooks.value[j].id != json.secrets.bookId) ==>
         r == s.(status := Failed, error := Some(InvalidBookId))) &&
      (json.JsonSecrets? && FindIndex(allBooks.value, json.secrets.bookId).Some? ==>
         r == s.(catalog := allBooks.value, purchaseId := purchaseId.value, token := token.value,
                 secrets := json.secrets, leafIndex := FindIndex(allBooks.value, json.secrets.bookId).value,
                 socket := Connecting))
    ensures r.socket != s.socket ==>
      Ready(token, purchaseId, allBooks) && Truthy(StoredText(s.storage, SecretKeyOf(purchaseId.value))) &&
      parse(StoredText(s.storage, SecretKeyOf(purchaseId.value)).value) == JsonSecrets(r.secrets) &&
      r.socket.Connecting? && Valid(r) && r.catalog == allBooks.value &&
      forall j :: 0 <= j < r.leafIndex ==> r.catalog[j].id != r.secrets.bookId
  {
    if !Ready(token, purchaseId, allBooks) then s
    else
      var stored := StoredText(s.storage, SecretKeyOf(purchaseId.value));
      if !Truthy(stored) then s.(status := Failed, error := Some(MissingCredential))
      else match parse(stored.value)
        case NotJson => s
        case JsonNull => s
        case JsonOther => s.(status := Failed, error := Some(InvalidBookId))
        case JsonSecrets(secrets) =>
          match FindIndex(allBooks.value, secrets.bookId)
          case None => s.(status := Failed, error := Some(InvalidBookId))
          case Some(i) =>
            s.(catalog := allBooks.value, purchaseId := purchaseId.value, token := token.value,
               secrets := secrets, leafIndex := i, socket := Connecting)
  }

  /** A stored secret that parses and names book i gives the book's position; the socket is then being opened. */
  lemma {:induction false} SetupFindsBook(s: Session, token: string, purchaseId: string, allBooks: seq<CatalogBook>,
                                          parse: string -> StoredJson, secrets: Secrets, i: nat)
    requires s.socket.NotCreated? && token != "" && purchaseId != ""
    requires SecretKeyOf(purchaseId) in s.storage && s.storage[SecretKeyOf(purchaseId)] != ""
    requires parse(s.storage[SecretKeyOf(purchaseId)]) == JsonSecrets(secrets)
    requires i < |allBooks| && allBooks[i].id == secrets.bookId
    requires forall j :: 0 <= j < i ==> allBooks[j].id != allBooks[i].id
    ensures var r := Setup(s, Some(token), Some(purchaseId), Some(allBooks), parse);
      r.socket.Connecting? && r.leafIndex == i && r.secrets == secrets && r.status == s.status && r.error == s.error
  {
    var f := FindIndex(allBooks, secrets.bookId);
    assert f.Some?;
    assert f.value == i;
  }

  /** Text JSON.parse rejects, or a stored `null`, stops the effect: no status, no error, no socket. */
  lemma {:induction false} UnparsableSecretStopsSetup(s: Session, token: string, purchaseId: string,
                                                      allBooks: seq<CatalogBook>, parse: string -> StoredJson)
    requires token != "" && purchaseId != ""
    requires SecretKeyOf(purchaseId) in s.storage && s.storage[SecretKeyOf(purchaseId)] != ""
    requires parse(s.storage[SecretKeyOf(purchaseId)]) in {NotJson, JsonNull}
    ensures Setup(s, Some(token), Some(purchaseId), Some(allBooks), parse) == s
  {
  }

  // ---------------------------------------------------------------- sending and failing

  /** socket.send: a frame is only sent on an open socket. */
  function Send(s: Session, m: Outgoing): (r: Session)
    ensures s.socket.Open? ==> r.outbox == s.outbox + [m]
    ensures !s.socket.Open? ==> r.outbox == s.outbox
    ensures r == s.(outbox := r.outbox)
  {
    if s.socket.Open? then s.(outbox := s.outbox + [m]) else s
  }

  /** The catch block: record the stage and the error, and close an open socket with code 4000. */
  function Fail(s: Session, e: Error): (r: Session)
    ensures r.error == Some(FailedDuring(s.status, e))
    ensures s.socket.Open? ==> r.socket == Closing(4000)
    ensures !s.socket.Open? ==> r.socket == s.socket
    ensures r == s.(error := r.error, socket := r.socket)
  {
    s.(error := Some(FailedDuring(s.status, e)), socket := if s.socket.Open? then Closing(4000) else s.socket)
  }

  // ---------------------------------------------------------------- ZKP_READY

  /** Builds the tree, the path, the commitment and the circuit inputs, then runs the prover. */
  function ProveMembership(env: Env, h: Hasher, s: Session): (r: Result<ProofOutput>)
    requires s.leafIndex < |s.catalog|
    ensures |s.catalog| > CAPACITY ==> r == Err(TreeFull)
    ensures r.Ok? ==> |s.catalog| <= CAPACITY
    ensures r.Ok? ==>
      var tree := BuildMerkleTree(h, s.catalog).value;
      var book := s.catalog[s.leafIndex];
      var commitment := h([env.uuidToBigIntString(s.secrets.bookId), s.secrets.nonce, JsText.IntToString(book.priceCents)]);
      var proof := PathFrom(tree.layers, s.leafIndex);
      env.fullProve(GenerateZkpInputs(book, s.secrets.nonce, proof, tree.Root(), commitment)) == Some(r.value)
    ensures |s.catalog| <= CAPACITY ==>
      var tree := BuildMerkleTree(h, s.catalog).value;
      var book := s.catalog[s.leafIndex];
      var commitment := h([env.uuidToBigIntString(s.secrets.bookId), s.secrets.nonce, JsText.IntToString(book.priceCents)]);
      var out := env.fullProve(GenerateZkpInputs(book, s.secrets.nonce, PathFrom(tree.layers, s.leafIndex), tree.Root(), commitment));
      r == if out.Some? then Ok(out.value) else Err(ProofGenerationFailed)
  {
    var tree :- BuildMerkleTree(h, s.catalog);
    var proofPath := GetMerkleProof(tree, s.leafIndex).value;
    var book := s.catalog[s.leafIndex];
    var commitment := h([env.uuidToBigIntString(s.secrets.bookId), s.secrets.nonce, JsText.IntToString(book.priceCents)]);
    var inputs := GenerateZkpInputs(book, s.secrets.nonce, proofPath, tree.Root(), commitment);
    match env.fullProve(inputs)
    case None => Err(ProofGenerationFailed)
    case Some(out) => Ok(out)
  }

  /** The inputs handed to the prover satisfy the circuit's membership relation. */
  lemma {:induction false} ProverInputsProveMembership(env: Env, h: Hasher, s: Session)
    requires Valid(s) && !s.socket.NotCreated? && |s.catalog| <= CAPACITY
    ensures BuildMerkleTree(h, s.catalog).Ok?
    ensures var tree := BuildMerkleTree(h, s.catalog).value;
      var book := s.catalog[s.leafIndex];
      var commitment := h([env.uuidToBigIntString(s.secrets.bookId), s.secrets.nonce, JsText.IntToString(book.priceCents)]);
      MembershipHolds(h, GenerateZkpInputs(book, s.secrets.nonce, PathFrom(tree.layers, s.leafIndex), tree.Root(), commitment))
  {
    var tree := BuildMerkleTree(h, s.catalog).value;
    var book := s.catalog[s.leafIndex];
    var commitment := h([env.uuidToBigIntString(s.secrets.bookId), s.secrets.nonce, JsText.IntToString(book.priceCents)]);
    PackagedInputsProveMembership(h, s.catalog, s.leafIndex, s.secrets.nonce, commitment);
    assert GetMerkleProof(tree, s.leafIndex).value == PathFrom(tree.layers, s.leafIndex);
  }

  /** ZKP_READY: load Poseidon once, prove membership, and send the proof. */
  function HandleZkpReady(env: Env, s: Session): (r: Session)
    requires Valid(s) && !s.socket.NotCreated?
    ensures r.poseidon == Some(s.poseidon.GetOr(env.buildPoseidon))
    ensures r.poseidon.Some? && (s.poseidon.Some? ==> r.poseidon == s.poseidon)
    ensures r.choiceBits == s.choiceBits && r.roundKeys == s.roundKeys && r.collectedSeeds == s.collectedSeeds
    ensures var h := r.poseidon.value; var p := ProveMembership(env, h, s);
      (p.Err? ==> r == Fail(s.(status := GeneratingProof, poseidon := r.poseidon), p.error)) &&
      (p.Ok? ==> r.status == SendingProof && r.error == s.error &&
                 r.outbox == s.outbox + (if s.socket.Open? then [ZkpProve(p.value)] else []) &&
                 r == s.(status := r.status, poseidon := r.poseidon, outbox := r.outbox))
  {
    var h := s.poseidon.GetOr(env.buildPoseidon);
    var s1 := s.(status := GeneratingProof, poseidon := Some(h));
    match ProveMembership(env, h, s)
    case Err(e) => Fail(s1, e)
    case Ok(out) => Send(s1.(status := SendingProof), ZkpProve(out))
  }

  // ---------------------------------------------------------------- OT_START

  /** `numBooks > 1 ? Math.ceil(Math.log2(numBooks)) : 0`. */
  function ChoiceBitCount(numBooks: int): (k: nat)
    ensures numBooks <= 1 ==> k == 0
    ensures numBooks > 1 ==> numBooks <= Pow2(k) && Pow2(k - 1) < numBooks && k >= 1
  {
    if numBooks > 1 then CeilLog2(numBooks) else 0
  }

  /** `Number` of a decimal digit character. */
  function DigitNumber(c: char): int
    requires '0' <= c <= '9'
  {
    c as int - '0' as int
  }

  /** Array.prototype.reverse. */
  function Reverse(s: seq<int>): (r: seq<int>)
    ensures |r| == |s|
  {
    if s == [] then [] else Reverse(s[1..]) + [s[0]]
  }

  /** Element i of the reversed sequence is element i from the end of the original. */
  lemma {:induction false} ReverseAt(s: seq<int>, i: nat)
    requires i < |s|
    ensures Reverse(s)[i] == s[|s| - 1 - i]
    decreases |s|
  {
    if i < |s| - 1 {
      ReverseAt(s[1..], i);
      assert Reverse(s) == Reverse(s[1..]) + [s[0]];
    }
  }

  /** `leafIndex.toString(2).padStart(count, '0')`: binary digits only. */
  function PaddedBinary(leafIndex: nat, count: int): (text: string)
    ensures forall i :: 0 <= i < |text| ==> '0' <= text[i] <= '1'
  {
    var d := JsText.ToRadixString(leafIndex, 2);
    BinaryTextPadded(d, count);
    JsText.PadStart(d, count, '0')
  }

  lemma {:induction false} BinaryTextPadded(d: string, count: int)
    requires forall i :: 0 <= i < |d| ==> JsText.IsLowerDigit(d[i], 2)
    ensures var text := JsText.PadStart(d, count, '0');
      forall i :: 0 <= i < |text| ==> '0' <= text[i] <= '1'
  {
    var text := JsText.PadStart(d, count, '0');
    forall i | 0 <= i < |text| ensures '0' <= text[i] <= '1' {
      if i >= |text| - |d| {
        assert JsText.IsLowerDigit(d[i - (|text| - |d|)], 2);
      }
    }
  }

  /** `.split('').map(Number)` on a text of decimal digits. */
  function Numbers(text: string): (r: seq<int>)
    requires forall i :: 0 <= i < |text| ==> '0' <= text[i] <= '9'
    ensures |r| == |text|
  {
    if text == [] then [] else [DigitNumber(text[0])] + Numbers(text[1..])
  }

  /** Element i of the numbers is the number of character i. */
  lemma {:induction false} NumbersAt(text: string, i: nat)
    requires forall i :: 0 <= i < |text| ==> '0' <= text[i] <= '9'
    requires i < |text|
    ensures Numbers(text)[i] == DigitNumber(text[i])
    decreases |text|
  {
    if i > 0 {
      NumbersAt(text[1..], i - 1);
    }
  }

  /** `leafIndex.toString(2).padStart(count, '0').split('').map(Number).reverse()`. */
  function ChoiceBits(leafIndex: nat, count: int): (bits: seq<int>)
  {
    Reverse(Numbers(PaddedBinary(leafIndex, count)))
  }

  /** The binary digits of n, read from the last: digit i from the end is bit i. */
  lemma {:induction false} BinaryDigitsAreBits(n: nat)
    ensures var d := JsText.ToRadixString(n, 2);
      n < Pow2(|d|) && (|d| > 1 ==> Pow2(|d| - 1) <= n) &&
      forall i :: 0 <= i < |d| ==> '0' <= d[|d| - 1 - i] <= '1' && DigitNumber(d[|d| - 1 - i]) == Bit(n, i)
    decreases n
  {
    var d := JsText.ToRadixString(n, 2);
    if n >= 2 {
      var p := JsText.ToRadixString(n / 2, 2);
      BinaryDigitsAreBits(n / 2);
      assert d == p + [JsText.DigitChar(n % 2)];
      forall i | 0 <= i < |d| ensures '0' <= d[|d| - 1 - i] <= '1' && DigitNumber(d[|d| - 1 - i]) == Bit(n, i) {
        if i > 0 {
          assert d[|d| - 1 - i] == p[|p| - 1 - (i - 1)];
        }
      }
    }
  }

  /** Bits at or above the length of a number's binary form are 0. */
  lemma {:induction false} HighBitsAreZero(n: nat, k: nat, i: nat)
    requires n < Pow2(k) && k <= i
    ensures Bit(n, i) == 0
    decreases i
  {
    if i > 0 {
      if k > 0 {
        HighBitsAreZero(n / 2, k - 1, i - 1);
      } else {
        HighBitsAreZero(n / 2, 0, i - 1);
      }
    }
  }

  /**
   * choiceBits is the binary form of the leaf index, least significant bit first, padded with
   * zeros to `count` bits and never truncated.
   */
  lemma {:induction false} ChoiceBitsAreBits(leafIndex: nat, count: int)
    ensures var bits := ChoiceBits(leafIndex, count);
      var len := |JsText.ToRadixString(leafIndex, 2)|;
      |bits| == (if count > len then count else len) &&
      forall r :: 0 <= r < |bits| ==> bits[r] == Bit(leafIndex, r)
  {
    var bits := ChoiceBits(leafIndex, count);
    assert |bits| == |PaddedBinary(leafIndex, count)|;
    forall r | 0 <= r < |bits| ensures bits[r] == Bit(leafIndex, r) {
      PaddedDigitIsBit(leafIndex, count, r);
    }
  }

  /** Digit r from the end of the padded binary text is bit r of the number. */
  lemma {:induction false} PaddedDigitIsBit(leafIndex: nat, count: int, r: nat)
    requires r < |PaddedBinary(leafIndex, count)|
    ensures ChoiceBits(leafIndex, count)[r] == Bit(leafIndex, r)
  {
    ChoiceBitIsPaddedChar(leafIndex, count, r);
    BinaryCharIsBit(leafIndex, r);
  }

  /** Choice bit r is the number of character r from the end of the zero-padded binary text. */
  lemma {:induction false} ChoiceBitIsPaddedChar(leafIndex: nat, count: int, r: nat)
    requires r < |PaddedBinary(leafIndex, count)|
    ensures '0' <= PaddedChar(JsText.ToRadixString(leafIndex, 2), r) <= '9'
    ensures ChoiceBits(leafIndex, count)[r] == DigitNumber(PaddedChar(JsText.ToRadixString(leafIndex, 2), r))
  {
    PaddedBinaryText(leafIndex, count);
    PaddedTextBit(JsText.ToRadixString(leafIndex, 2), count, r);
  }

  /** The same, for any text of binary digits padded with zeros. */
  lemma {:induction false} PaddedTextBit(d: string, count: int, r: nat)
    requires forall i :: 0 <= i < |d| ==> JsText.IsLowerDigit(d[i], 2)
    requires r < |JsText.PadStart(d, count, '0')|
    ensures '0' <= PaddedChar(d, r) <= '9'
    ensures forall i :: 0 <= i < |JsText.PadStart(d, count, '0')| ==> '0' <= JsText.PadStart(d, count, '0')[i] <= '9'
    ensures Reverse(Numbers(JsText.PadStart(d, count, '0')))[r] == DigitNumber(PaddedChar(d, r))
  {
    var text := JsText.PadStart(d, count, '0');
    BinaryTextPadded(d, count);
    PaddedCharFromEnd(d, text, count, r);
    ReverseAt(Numbers(text), r);
    NumbersAt(text, |text| - 1 - r);
  }

  lemma {:induction false} PaddedBinaryText(leafIndex: nat, count: int)
    ensures PaddedBinary(leafIndex, count) == JsText.PadStart(JsText.ToRadixString(leafIndex, 2), count, '0')
  {
  }

  /** Character r from the end of a text padded on the left with zeros. */
  function PaddedChar(d: string, r: nat): char {
    if r < |d| then d[|d| - 1 - r] else '0'
  }

  /** Digit r from the end of the binary form, or a padding zero beyond it, is bit r. */
  lemma {:induction false} BinaryCharIsBit(n: nat, r: nat)
    ensures '0' <= PaddedChar(JsText.ToRadixString(n, 2), r) <= '9'
    ensures DigitNumber(PaddedChar(JsText.ToRadixString(n, 2), r)) == Bit(n, r)
  {
    var d := JsText.ToRadixString(n, 2);
    BinaryDigitsAreBits(n);
    if r >= |d| {
      HighBitsAreZero(n, |d|, r);
    }
  }

  /** Character r from the end of a zero-padded text: the text's own, or a padding zero. */
  lemma {:induction false} PaddedCharFromEnd(d: string, text: string, count: int, r: nat)
    requires text == JsText.PadStart(d, count, '0') && r < |text|
    ensures text[|text| - 1 - r] == PaddedChar(d, r)
  {
    assert text[|text| - 1 - r] == if |text| - 1 - r < |text| - |d| then '0' else d[|d| - 1 - r];
  }

  /** Reading the bits back gives the leaf index. */
  lemma {:induction false} FromBitsOfBits(n: nat, bits: seq<int>)
    requires n < Pow2(|bits|)
    requires forall r :: 0 <= r < |bits| ==> bits[r] == Bit(n, r)
    ensures FromBits(bits) == n
    decreases |bits|
  {
    if bits != [] {
      var rest := bits[1..];
      forall r | 0 <= r < |rest| ensures rest[r] == Bit(n / 2, r) {
        assert rest[r] == bits[r + 1];
      }
      FromBitsOfBits(n / 2, rest);
    }
  }

  /**
   * With the leaf inside the catalogue the server counts, there are exactly as many choice
   * bits as the bit count, and they spell the leaf index.
   */
  lemma {:induction false} ChoiceBitsOfLeafInRange(leafIndex: nat, numBooks: int)
    requires numBooks > 1 && leafIndex < numBooks
    ensures var bits := ChoiceBits(leafIndex, ChoiceBitCount(numBooks));
      |bits| == ChoiceBitCount(numBooks) && FromBits(bits) == leafIndex
      && forall r :: 0 <= r < |bits| ==> bits[r] == Bit(leafIndex, r)
  {
    var k := ChoiceBitCount(numBooks);
    var d := JsText.ToRadixString(leafIndex, 2);
    BinaryDigitsAreBits(leafIndex);
    ChoiceBitsAreBits(leafIndex, k);
    if |d| > k {
      Pow2Monotone(k, |d| - 1);
      assert false;
    }
    var bits := ChoiceBits(leafIndex, k);
    FromBitsOfBits(leafIndex, bits);
  }

  /** Four books, leaf 2: two rounds, choosing 0 then 1. */
  lemma {:induction false} ChoiceBitsExample()
    ensures ChoiceBits(2, ChoiceBitCount(4)) == [0, 1]
  {
    assert ChoiceBitCount(4) == 2;
    ChoiceBitsOfLeafInRange(2, 4);
    assert Bit(2, 0) == 0 && Bit(2, 1) == 1;
  }

  /** A single-book catalogue asks for no bits, yet padStart keeps the one digit of index 0. */
  lemma {:induction false} SingleBookKeepsOneBit()
    ensures ChoiceBitCount(1) == 0 && ChoiceBits(0, ChoiceBitCount(1)) == [0]
  {
    ChoiceBitsAreBits(0, 0);
    assert |JsText.ToRadixString(0, 2)| == 1;
  }

  /**
   * OT_START: choice bit i is bit i of the leaf index, for k = ChoiceBitCount(numBooks) bits
   * or as many as the binary text of the index has, whichever is more; then acknowledge.
   */
  function HandleOtStart(s: Session, numBooks: int): (r: Session)
    ensures var len := |JsText.ToRadixString(s.leafIndex, 2)|;
      |r.choiceBits| == (if ChoiceBitCount(numBooks) > len then ChoiceBitCount(numBooks) else len) &&
      forall i :: 0 <= i < |r.choiceBits| ==> r.choiceBits[i] == Bit(s.leafIndex, i)
    ensures r.status == ProofVerified
    ensures r.outbox == s.outbox + (if s.socket.Open? then [OtAckStart] else [])
    ensures r == s.(status := r.status, choiceBits := r.choiceBits, outbox := r.outbox)
  {
    ChoiceBitsAreBits(s.leafIndex, ChoiceBitCount(numBooks));
    Send(s.(status := ProofVerified, choiceBits := ChoiceBits(s.leafIndex, ChoiceBitCount(numBooks))), OtAckStart)
  }

  // ---------------------------------------------------------------- OT_ROUND_START

  /** OT_ROUND_START: a fresh key pair is stored and its public key sent back with the round echoed. */
  function HandleOtRoundStart(env: Env, s: Session, round: int, randomSecret: Bytes): (r: Session)
    ensures |r.roundKeys| == |s.roundKeys| + 1 && r.roundKeys[..|s.roundKeys|] == s.roundKeys
    ensures r.roundKeys[|s.roundKeys|] == GenerateClientOtKeyPair(env.crypto, randomSecret)
    ensures s.socket.Open? ==>
      r.outbox == s.outbox + [OtRoundResponse(round, BytesToHex(env.crypto.publicKeyOf(randomSecret)))]
    ensures !s.socket.Open? ==> r.outbox == s.outbox
    ensures r.status == RoundInProgress(round, |s.choiceBits|)
    ensures r == s.(status := r.status, roundKeys := r.roundKeys, outbox := r.outbox)
  {
    var kp := GenerateClientOtKeyPair(env.crypto, randomSecret);
    var s1 := s.(status := RoundInProgress(round, |s.choiceBits|), roundKeys := s.roundKeys + [kp]);
    Send(s1, OtRoundResponse(round, BytesToHex(kp.publicKey)))
  }

  // ---------------------------------------------------------------- OT_ROUND_CHALLENGE

  /** `choiceBits[round]`: undefined outside the list. */
  function ChoiceAt(bits: seq<int>, round: int): Option<int> {
    if 0 <= round < |bits| then Some(bits[round]) else None
  }

  /** `roundKeys[round]`: reading `.privateKey` of undefined is a TypeError. */
  function RoundKey(keys: seq<KeyPair>, round: int): (r: Result<KeyPair>)
    ensures r.Ok? <==> 0 <= round < |keys|
    ensures r.Ok? ==> r.value == keys[round]
    ensures r.Err? ==> r.error == MissingRoundKey(round)
  {
    if 0 <= round < |keys| then Ok(keys[round]) else Err(MissingRoundKey(round))
  }

  /**
   * The seed of one round: the branch is g0/e0 when the choice bit is 0 and g1/e1 otherwise
   * (an undefined bit is not 0); the server key is decoded, the round's private key read, the
   * shared key derived, and the chosen ciphertext decrypted.
   */
  function ChallengeSeed(env: Env, s: Session, round: int, g0: string, g1: string, e0: string, e1: string): (r: Result<Bytes>)
    ensures var zero := ChoiceAt(s.choiceBits, round) == Some(0);
      var g := if zero then g0 else g1;
      var e := if zero then e0 else e1;
      (HexToBytes(g).Err? ==> r == Err(HexToBytes(g).error)) &&
      (HexToBytes(g).Ok? && !(0 <= round < |s.roundKeys|) ==> r == Err(MissingRoundKey(round))) &&
      (HexToBytes(g).Ok? && 0 <= round < |s.roundKeys| ==>
        var key := DeriveClientSharedSecret(env.crypto, s.roundKeys[round].privateKey, HexToBytes(g).value);
        (key.Err? ==> r == Err(key.error)) && (key.Ok? ==> r == AesGcmDecrypt(env.crypto, e, key.value))) &&
      (r.Ok? ==> (HexToBytes(g).Ok? && 0 <= round < |s.roundKeys| &&
        var key := DeriveClientSharedSecret(env.crypto, s.roundKeys[round].privateKey, HexToBytes(g).value);
        key.Ok? && AesGcmDecrypt(env.crypto, e, key.value) == r))
  {
    var zero := ChoiceAt(s.choiceBits, round) == Some(0);
    var serverPublicKey :- HexToBytes(if zero then g0 else g1);
    var keyPair :- RoundKey(s.roundKeys, round);
    var sharedKey :- DeriveClientSharedSecret(env.crypto, keyPair.privateKey, serverPublicKey);
    AesGcmDecrypt(env.crypto, if zero then e0 else e1, sharedKey)
  }

  /**
   * OT_ROUND_CHALLENGE: append the recovered seed; after the last round ask for the final
   * data. Any failure goes to the error path and leaves the seeds as they were.
   */
  function HandleOtRoundChallenge(env: Env, s: Session, round: int, g0: string, g1: string, e0: string, e1: string): (r: Session)
    ensures var seed := ChallengeSeed(env, s, round, g0, g1, e0, e1);
      (seed.Err? ==> r == Fail(s, seed.error)) &&
      (seed.Ok? ==> r.collectedSeeds == s.collectedSeeds + [seed.value] && r.status == RoundDone(round)
                    && r.error == s.error && r.roundKeys == s.roundKeys && r.choiceBits == s.choiceBits)
    ensures r.collectedSeeds == s.collectedSeeds || |r.collectedSeeds| == |s.collectedSeeds| + 1
    ensures var seed := ChallengeSeed(env, s, round, g0, g1, e0, e1);
      seed.Ok? ==>
        r.outbox == s.outbox + (if s.socket.Open? && round + 1 == |s.choiceBits| then [OtRoundsComplete] else []) &&
        r == s.(collectedSeeds := r.collectedSeeds, status := r.status, outbox := r.outbox)
  {
    match ChallengeSeed(env, s, round, g0, g1, e0, e1)
    case Err(e) => Fail(s, e)
    case Ok(seed) =>
      var s1 := s.(collectedSeeds := s.collectedSeeds + [seed], status := RoundDone(round));
      if round + 1 == |s.choiceBits| then Send(s1, OtRoundsComplete) else s1
  }

  /** The branch the choice bit does not select is never read. */
  lemma {:induction false} UnchosenBranchIgnored(env: Env, s: Session, round: int, g0: string, g1: string, e0: string, e1: string,
                              g': string, e': string)
    ensures ChoiceAt(s.choiceBits, round) == Some(0) ==>
      HandleOtRoundChallenge(env, s, round, g0, g1, e0, e1) == HandleOtRoundChallenge(env, s, round, g0, g', e0, e')
    ensures ChoiceAt(s.choiceBits, round) != Some(0) ==>
      HandleOtRoundChallenge(env, s, round, g0, g1, e0, e1) == HandleOtRoundChallenge(env, s, round, g', g1, e', e1)
  {
  }

  /**
   * Four books, leaf 2: after OT_START round 0 reads only g0/e0 and round 1 only g1/e1, so
   * tampering with the other branch of either round changes nothing.
   */
  lemma {:induction false} FourBookScenario(env: Env, s: Session, g0: string, g1: string, e0: string, e1: string, g': string, e': string)
    requires s.leafIndex == 2
    ensures var t := HandleOtStart(s, 4);
      t.choiceBits == [0, 1] &&
      HandleOtRoundChallenge(env, t, 0, g0, g1, e0, e1) == HandleOtRoundChallenge(env, t, 0, g0, g', e0, e') &&
      HandleOtRoundChallenge(env, t, 1, g0, g1, e0, e1) == HandleOtRoundChallenge(env, t, 1, g', g1, e', e1)
  {
    ChoiceBitsExample();
    var t := HandleOtStart(s, 4);
    UnchosenBranchIgnored(env, t, 0, g0, g1, e0, e1, g', e');
    UnchosenBranchIgnored(env, t, 1, g0, g1, e0, e1, g', e');
  }

  /** OT_ROUNDS_COMPLETE goes out exactly when the round that succeeded is the last one. */
  lemma {:induction false} RoundsCompleteOnLastRound(env: Env, s: Session, round: int, g0: string, g1: string, e0: string, e1: string)
    requires s.socket.Open?
    requires ChallengeSeed(env, s, round, g0, g1, e0, e1).Ok?
    ensures var r := HandleOtRoundChallenge(env, s, round, g0, g1, e0, e1);
      (r.outbox == s.outbox + [OtRoundsComplete] <==> round + 1 == |s.choiceBits|) &&
      (r.outbox == s.outbox <==> round + 1 != |s.choiceBits|)
  {
  }

  /** The payload of one OT_ROUND_CHALLENGE: the server's two public keys and two ciphertexts. */
  datatype Challenge = Challenge(g0: string, g1: string, e0: string, e1: string)

  /** The challenges of rounds `from`, `from + 1`, ... handled one after the other. */
  function RunChallenges(env: Env, s: Session, from: int, cs: seq<Challenge>): Session
    decreases |cs|
  {
    if cs == [] then s
    else
      var c := cs[0];
      RunChallenges(env, HandleOtRoundChallenge(env, s, from, c.g0, c.g1, c.e0, c.e1), from + 1, cs[1..])
  }

  /** Rounds whose chosen branch decrypts collect exactly those seeds, in round order. */
  lemma {:induction false} RoundsCollectSeeds(env: Env, s: Session, from: int, cs: seq<Challenge>, seeds: seq<Bytes>)
    requires RoundsYield(env, s, from, cs, seeds)
    ensures var r := RunChallenges(env, s, from, cs);
      r.collectedSeeds == s.collectedSeeds + seeds && SameFrame(r, s)
    decreases |cs|
  {
    if cs != [] {
      var s1 := FirstRound(env, s, from, cs, seeds);
      RoundsCollectSeeds(env, s1, from + 1, cs[1..], seeds[1..]);
      AppendHeadTail(s.collectedSeeds, seeds);
    }
  }

  /** The first of the rounds: the session it leaves, from which the remaining rounds run. */
  lemma {:induction false} FirstRound(env: Env, s: Session, from: int, cs: seq<Challenge>, seeds: seq<Bytes>)
    returns (s1: Session)
    requires RoundsYield(env, s, from, cs, seeds) && cs != []
    ensures RunChallenges(env, s, from, cs) == RunChallenges(env, s1, from + 1, cs[1..])
    ensures s1.collectedSeeds == s.collectedSeeds + [seeds[0]] && SameFrame(s1, s)
    ensures s1.outbox == s.outbox + (if s.socket.Open? && from + 1 == |s.choiceBits| then [OtRoundsComplete] else [])
    ensures RoundsYield(env, s1, from + 1, cs[1..], seeds[1..])
  {
    var c := cs[0];
    s1 := HandleOtRoundChallenge(env, s, from, c.g0, c.g1, c.e0, c.e1);
    ChallengeStep(env, s, from, c, seeds[0]);
    RoundsYieldFrame(env, s, s1, from + 1, cs[1..], seeds[1..]);
  }

  lemma {:induction false} AppendHeadTail<T>(a: seq<T>, b: seq<T>)
    requires b != []
    ensures a + b == a + [b[0]] + b[1..]
  {
    assert b == [b[0]] + b[1..];
  }

  /** The fields a successful round leaves alone. */
  predicate SameFrame(r: Session, s: Session) {
    r.error == s.error && r.socket == s.socket && r.choiceBits == s.choiceBits && r.roundKeys == s.roundKeys &&
    r.finalBookKey == s.finalBookKey && r.leafIndex == s.leafIndex && r.storage == s.storage
  }

  /**
   * Over the same rounds OT_ROUNDS_COMPLETE goes out once, after the round that matches the
   * number of choice bits, and no other frame is sent.
   */
  lemma {:induction false} RoundsSendCompleteOnce(env: Env, s: Session, from: int, cs: seq<Challenge>, seeds: seq<Bytes>)
    requires RoundsYield(env, s, from, cs, seeds)
    requires s.socket.Open? && from + |cs| <= |s.choiceBits|
    ensures RunChallenges(env, s, from, cs).outbox ==
      s.outbox + (if cs != [] && from + |cs| == |s.choiceBits| then [OtRoundsComplete] else [])
    decreases |cs|
  {
    if cs != [] {
      var s1 := FirstRound(env, s, from, cs, seeds);
      RoundsSendCompleteOnce(env, s1, from + 1, cs[1..], seeds[1..]);
    }
  }

  /** The chosen branch of challenge i decrypts to seed i, for rounds `from`, `from + 1`, ... */
  predicate RoundsYield(env: Env, s: Session, from: int, cs: seq<Challenge>, seeds: seq<Bytes>)
    decreases |cs|
  {
    |seeds| == |cs| &&
    (cs != [] ==>
      ChallengeSeed(env, s, from, cs[0].g0, cs[0].g1, cs[0].e0, cs[0].e1) == Ok(seeds[0]) &&
      RoundsYield(env, s, from + 1, cs[1..], seeds[1..]))
  }

  lemma {:induction false} RoundsYieldFrame(env: Env, s: Session, t: Session, from: int, cs: seq<Challenge>, seeds: seq<Bytes>)
    requires s.choiceBits == t.choiceBits && s.roundKeys == t.roundKeys
    requires RoundsYield(env, s, from, cs, seeds)
    ensures RoundsYield(env, t, from, cs, seeds)
    decreases |cs|
  {
    if cs != [] {
      ChallengeSeedFrame(env, s, t, from, cs[0]);
      RoundsYieldFrame(env, s, t, from + 1, cs[1..], seeds[1..]);
    }
  }

  /** RoundsYield is the round-by-round statement that every chosen branch decrypts. */
  lemma {:induction false} RoundsYieldOfEach(env: Env, s: Session, from: int, cs: seq<Challenge>, seeds: seq<Bytes>)
    requires |seeds| == |cs|
    requires forall i :: 0 <= i < |cs| ==>
      ChallengeSeed(env, s, from + i, cs[i].g0, cs[i].g1, cs[i].e0, cs[i].e1) == Ok(seeds[i])
    ensures RoundsYield(env, s, from, cs, seeds)
    decreases |cs|
  {
    if cs != [] {
      assert ChallengeSeed(env, s, from + 0, cs[0].g0, cs[0].g1, cs[0].e0, cs[0].e1) == Ok(seeds[0]);
      var cs', seeds' := cs[1..], seeds[1..];
      forall i | 0 <= i < |cs'|
        ensures ChallengeSeed(env, s, from + 1 + i, cs'[i].g0, cs'[i].g1, cs'[i].e0, cs'[i].e1) == Ok(seeds'[i])
      {
        var j := i + 1;
        assert ChallengeSeed(env, s, from + j, cs[j].g0, cs[j].g1, cs[j].e0, cs[j].e1) == Ok(seeds[j]);
      }
      RoundsYieldOfEach(env, s, from + 1, cs', seeds');
    }
  }

  /** The seed of a round depends on the session only through its choice bits and round keys. */
  lemma {:induction false} ChallengeSeedFrame(env: Env, s: Session, t: Session, round: int, c: Challenge)
    requires s.choiceBits == t.choiceBits && s.roundKeys == t.roundKeys
    ensures ChallengeSeed(env, s, round, c.g0, c.g1, c.e0, c.e1) == ChallengeSeed(env, t, round, c.g0, c.g1, c.e0, c.e1)
  {
  }

  /** One successful round: the seed is appended and only the last round sends OT_ROUNDS_COMPLETE. */
  lemma {:induction false} ChallengeStep(env: Env, s: Session, round: int, c: Challenge, seed: Bytes)
    requires ChallengeSeed(env, s, round, c.g0, c.g1, c.e0, c.e1) == Ok(seed)
    ensures var r := HandleOtRoundChallenge(env, s, round, c.g0, c.g1, c.e0, c.e1);
      r.collectedSeeds == s.collectedSeeds + [seed] && SameFrame(r, s) &&
      r.outbox == s.outbox + (if s.socket.Open? && round + 1 == |s.choiceBits| then [OtRoundsComplete] else [])
  {
  }

  // ---------------------------------------------------------------- OT_DELIVER

  /**
   * The book key: XOR the collected seeds into a 32-byte master key, import it, decrypt the
   * secret at the buyer's leaf index and import the result.
   */
  function DeliveredKey(env: Env, s: Session, encryptedSecrets: seq<string>): (r: Result<AesKey>)
    ensures XorCombine(s.collectedSeeds, 32).Err? ==> r == Err(XorCombine(s.collectedSeeds, 32).error)
    ensures XorCombine(s.collectedSeeds, 32).Ok? && s.leafIndex >= |encryptedSecrets| ==>
      r == Err(MissingEncryptedSecret(s.leafIndex))
    ensures r.Ok? ==> XorCombine(s.collectedSeeds, 32).Ok? && s.leafIndex < |encryptedSecrets|
    ensures r.Ok? ==>
      var master := AesKey(XorCombine(s.collectedSeeds, 32).value);
      var plain := AesGcmDecrypt(env.crypto, encryptedSecrets[s.leafIndex], master);
      plain.Ok? && ImportAesKey(plain.value) == r
    ensures XorCombine(s.collectedSeeds, 32).Ok? && s.leafIndex < |encryptedSecrets| ==>
      var master := AesKey(XorCombine(s.collectedSeeds, 32).value);
      var plain := AesGcmDecrypt(env.crypto, encryptedSecrets[s.leafIndex], master);
      r == if plain.Ok? then ImportAesKey(plain.value) else Err(plain.error)
  {
    var masterKey :- XorCombine(s.collectedSeeds, 32);
    var masterCryptoKey := ImportAesKey(masterKey).value;
    var encryptedBookKeyHex :- if s.leafIndex < |encryptedSecrets| then Ok(encryptedSecrets[s.leafIndex])
                               else Err(MissingEncryptedSecret(s.leafIndex));
    var bookSecretKey :- AesGcmDecrypt(env.crypto, encryptedBookKeyHex, masterCryptoKey);
    ImportAesKey(bookSecretKey)
  }

  /** OT_DELIVER: recover the book key and ask for the download of the buyer's book. */
  function HandleOtDeliver(env: Env, s: Session, encryptedSecrets: seq<string>): (r: Session)
    ensures var k := DeliveredKey(env, s, encryptedSecrets);
      (k.Err? ==> r == Fail(s.(status := DecryptingBookKey), k.error)) &&
      (k.Ok? ==> r.finalBookKey == Some(k.value) && r.status == RequestingUrl &&
                 r.outbox == s.outbox + (if s.socket.Open? then [RequestSignedUrl(s.leafIndex)] else []) &&
                 r == s.(finalBookKey := r.finalBookKey, status := r.status, outbox := r.outbox))
  {
    var s1 := s.(status := DecryptingBookKey);
    match DeliveredKey(env, s, encryptedSecrets)
    case Err(e) => Fail(s1, e)
    case Ok(key) => Send(s1.(finalBookKey := Some(key), status := RequestingUrl), RequestSignedUrl(s.leafIndex))
  }

  /** Only the secret at the buyer's leaf index is read. */
  lemma {:induction false} DeliverReadsOnlyLeafSecret(env: Env, s: Session, a: seq<string>, b: seq<string>)
    requires s.leafIndex < |a| && s.leafIndex < |b| && a[s.leafIndex] == b[s.leafIndex]
    ensures HandleOtDeliver(env, s, a) == HandleOtDeliver(env, s, b)
  {
  }

  /** Delivery before any seed was collected, or with a seed that is not 32 bytes, fails. */
  lemma {:induction false} DeliverNeedsFullSeeds(env: Env, s: Session, encryptedSecrets: seq<string>)
    requires s.collectedSeeds == [] || exists i :: 0 <= i < |s.collectedSeeds| && |s.collectedSeeds[i]| != 32
    ensures var r := HandleOtDeliver(env, s, encryptedSecrets);
      r.finalBookKey == s.finalBookKey && r.outbox == s.outbox && r.error.Some?
      && (s.collectedSeeds == [] ==> r.error == Some(FailedDuring(DecryptingBookKey, EmptySeedList)))
  {
  }

  /**
   * End to end: after k rounds whose chosen branches yield 32-byte seeds, OT_DELIVER unwraps
   * the secret at the buyer's leaf index with the XOR of exactly those seeds as the key.
   */
  lemma {:induction false} RecoveredSeedsUnwrapLeafSecret(env: Env, s: Session, cs: seq<Challenge>, seeds: seq<Bytes>, encryptedSecrets: seq<string>)
    requires s.collectedSeeds == [] && seeds != []
    requires forall i :: 0 <= i < |seeds| ==> |seeds[i]| == 32
    requires RoundsYield(env, s, 0, cs, seeds)
    requires s.leafIndex < |encryptedSecrets|
    ensures XorCombine(seeds, 32).Ok?
    ensures var r := RunChallenges(env, s, 0, cs);
      var plain := AesGcmDecrypt(env.crypto, encryptedSecrets[s.leafIndex], AesKey(XorCombine(seeds, 32).value));
      DeliveredKey(env, r, encryptedSecrets) == if plain.Ok? then ImportAesKey(plain.value) else Err(plain.error)
  {
    RoundsCollectSeeds(env, s, 0, cs, seeds);
    var r := RunChallenges(env, s, 0, cs);
    assert r.collectedSeeds == seeds && r.leafIndex == s.leafIndex;
  }

  // ---------------------------------------------------------------- SIGNED_URL

  /** Decrypt the downloaded file with the book key: the first 12 bytes are the IV. */
  function DecryptBook(crypto: CryptoProvider, key: Option<AesKey>, body: Bytes): (r: Result<Bytes>)
    ensures key.None? ==> r == Err(MissingBookKey)
    ensures key.Some? ==>
      var n := if |body| < IV_LENGTH then |body| else IV_LENGTH;
      var plain := crypto.aesGcmDecrypt(key.value.raw, body[..n], body[n..]);
      r == if plain.Some? then Ok(plain.value) else Err(DecryptFailed)
  {
    match key
    case None => Err(MissingBookKey)
    case Some(k) =>
      var (iv, data) := SplitIv(body);
      match crypto.aesGcmDecrypt(k.raw, iv, data)
      case None => Err(DecryptFailed)
      case Some(plain) => Ok(plain)
  }

  /**
   * SIGNED_URL: download the file; a rejected request, a response that is not ok and a
   * rejected body all fail while downloading; otherwise decrypt it, publish it, erase the
   * stored purchase secret and tell the server.
   */
  function HandleSignedUrl(env: Env, s: Session, signedUrl: string): (r: Session)
    ensures env.fetch(signedUrl).None? ==> r == Fail(s.(status := Downloading), FetchRejected)
    ensures var response := env.fetch(signedUrl);
      response.Some? && !response.value.ok ==> r == Fail(s.(status := Downloading), DownloadFailed(response.value.status))
    ensures var response := env.fetch(signedUrl);
      response.Some? && response.value.ok && response.value.body.None? ==> r == Fail(s.(status := Downloading), BodyRejected)
    ensures var response := env.fetch(signedUrl);
      response.Some? && response.value.ok && response.value.body.Some? ==>
        var book := DecryptBook(env.crypto, s.finalBookKey, response.value.body.value);
        (book.Err? ==> r == Fail(s.(status := DecryptingBook), book.error)) &&
        (book.Ok? ==> r.download == Some(book.value) && r.status == DownloadReady &&
                      r.storage == s.storage - {SecretKeyOf(s.purchaseId)} &&
                      r.outbox == s.outbox + (if s.socket.Open? then [DownloadReadyNotice] else []) &&
                      r == s.(download := r.download, status := r.status, storage := r.storage, outbox := r.outbox))
  {
    var s1 := s.(status := Downloading);
    match env.fetch(signedUrl)
    case None => Fail(s1, FetchRejected)
    case Some(response) =>
      if !response.ok then Fail(s1, DownloadFailed(response.status))
      else if response.body.None? then Fail(s1, BodyRejected)
      else
        var s2 := s1.(status := DecryptingBook);
        match DecryptBook(env.crypto, s.finalBookKey, response.body.value)
        case Err(e) => Fail(s2, e)
        case Ok(book) =>
          var s3 := s2.(download := Some(book), status := DownloadReady, storage := s.storage - {SecretKeyOf(s.purchaseId)});
          Send(s3, DownloadReadyNotice)
  }

  /** The stored secret is erased exactly when the book was decrypted. */
  lemma {:induction false} SecretErasedOnlyOnSuccess(env: Env, s: Session, signedUrl: string)
    requires SecretKeyOf(s.purchaseId) in s.storage && s.download.None?
    ensures var r := HandleSignedUrl(env, s, signedUrl);
      (SecretKeyOf(s.purchaseId) !in r.storage <==> r.download.Some?) &&
      (r.download.None? ==> r.storage == s.storage && r.error.Some?)
  {
  }

  /** A file framed as IV then ciphertext decrypts with exactly that IV and ciphertext. */
  lemma {:induction false} DecryptBookOfFramed(crypto: CryptoProvider, key: AesKey, iv: Bytes, data: Bytes)
    requires |iv| == IV_LENGTH
    ensures var plain := crypto.aesGcmDecrypt(key.raw, iv, data);
      DecryptBook(crypto, Some(key), iv + data) == if plain.Some? then Ok(plain.value) else Err(DecryptFailed)
  {
    assert (iv + data)[..IV_LENGTH] == iv;
    assert (iv + data)[IV_LENGTH..] == data;
  }

  // ---------------------------------------------------------------- socket events

  /** socket.onopen: the socket is open, the page says so and sends INIT with the token. */
  function HandleOpen(s: Session): (r: Session)
    ensures r.socket.Open? && r.status == Connected && r.outbox == s.outbox + [Init(s.token)]
    ensures r == s.(socket := r.socket, status := r.status, outbox := r.outbox)
    ensures Valid(s) && !s.socket.NotCreated? ==> Valid(r)
  {
    Send(s.(socket := Open, status := Connected), Init(s.token))
  }

  /** socket.onerror: record a connection error. */
  function HandleError(s: Session): (r: Session)
    ensures r == s.(error := Some(ConnectionError))
  {
    s.(error := Some(ConnectionError))
  }

  /** socket.onclose: the socket is closed; only an unclean close changes the status. */
  function HandleClose(s: Session, code: int, wasClean: bool): (r: Session)
    ensures r.socket == Closed(code)
    ensures r.status == if wasClean then s.status else Disconnected
    ensures r == s.(socket := r.socket, status := r.status)
    ensures Valid(s) && !s.socket.NotCreated? ==> Valid(r)
  {
    var s1 := s.(socket := Closed(code));
    if wasClean then s1 else s1.(status := Disconnected)
  }

  /**
   * socket.onmessage: the browser only delivers frames to an open socket; the switch takes
   * every message type at any time, a frame that does not parse goes to the error path, and
   * an unknown type is ignored.
   */
  function HandleMessage(env: Env, s: Session, msg: Incoming, randomSecret: Bytes): (r: Session)
    requires Valid(s)
    ensures !s.socket.Open? ==> r == s
    ensures s.socket.Open? && msg.ZkpReady? ==> r == HandleZkpReady(env, s)
    ensures s.socket.Open? && msg.OtStart? ==> r == HandleOtStart(s, msg.numBooks)
    ensures s.socket.Open? && msg.OtRoundStart? ==> r == HandleOtRoundStart(env, s, msg.round, randomSecret)
    ensures s.socket.Open? && msg.OtRoundChallenge? ==>
      r == HandleOtRoundChallenge(env, s, msg.round, msg.g0, msg.g1, msg.e0, msg.e1)
    ensures s.socket.Open? && msg.OtDeliver? ==> r == HandleOtDeliver(env, s, msg.encryptedSecrets)
    ensures s.socket.Open? && msg.SignedUrl? ==> r == HandleSignedUrl(env, s, msg.signedUrl)
    ensures s.socket.Open? && msg.Malformed? ==> r == Fail(s, MalformedMessage)
    ensures msg.Unknown? ==> r == s
    ensures Valid(r)
  {
    if !s.socket.Open? then s
    else match msg
      case ZkpReady => HandleZkpReady(env, s)
      case OtStart(numBooks) => HandleOtStart(s, numBooks)
      case OtRoundStart(round) => HandleOtRoundStart(env, s, round, randomSecret)
      case OtRoundChallenge(round, g0, g1, e0, e1) => HandleOtRoundChallenge(env, s, round, g0, g1, e0, e1)
      case OtDeliver(secrets) => HandleOtDeliver(env, s, secrets)
      case SignedUrl(url) => HandleSignedUrl(env, s, url)
      case Malformed => Fail(s, MalformedMessage)
      case Unknown(_) => s
  }

  /** A frame that does not parse records the error and closes the socket with code 4000. */
  lemma {:induction false} MalformedFrameCloses(env: Env, s: Session, randomSecret: Bytes)
    requires Valid(s) && s.socket.Open?
    ensures var r := HandleMessage(env, s, Malformed, randomSecret);
      r.socket == Closing(4000) && r.error == Some(FailedDuring(s.status, MalformedMessage))
  {
  }

  /**
   * No order is enforced: OT_DELIVER on an open socket before any round has ended is still
   * handled, and fails for want of seeds while the book key is being decrypted.
   */
  lemma {:induction false} EarlyDeliverIsHandled(env: Env, s: Session, secrets: seq<string>, randomSecret: Bytes)
    requires Valid(s) && s.socket.Open? && s.collectedSeeds == []
    ensures var r := HandleMessage(env, s, OtDeliver(secrets), randomSecret);
      r.error == Some(FailedDuring(DecryptingBookKey, EmptySeedList)) && r.socket == Closing(4000) &&
      r.finalBookKey == s.finalBookKey && r.outbox == s.outbox
  {
    DeliverNeedsFullSeeds(env, s, secrets);
  }

  /** Nothing reaches the handlers once the error path has closed the socket. */
  lemma {:induction false} NoMessagesAfterFailure(env: Env, s: Session, e: Error, msg: Incoming, randomSecret: Bytes)
    requires Valid(s) && s.socket.Open?
    ensures var failed := Fail(s, e);
      Valid(failed) && HandleMessage(env, failed, msg, randomSecret) == failed
  {
  }
}
