/**
 * The page of src/pages/VerifyDownloadPage.jsx as the object it is at run time: React state,
 * the `otState` ref, the socket and local storage are fields that each event handler updates
 * in place. Every handler is proved to leave the page in the state the matching function of
 * module Purchase computes, so the properties proved there hold of this object.
 */
module PurchaseClient {
  import opened Results
  import opened OtUtils
  import opened ZkpUtils
  import opened Purchase

  class PurchaseSession {
    var catalog: seq<CatalogBook>
    var purchaseId: string
    var token: string
    var secrets: Secrets
    var leafIndex: nat
    var status: Status
    var error: Option<ErrorReport>
    var socket: SocketState
    var outbox: seq<Outgoing>
    var choiceBits: seq<int>
    var roundKeys: seq<KeyPair>
    var collectedSeeds: seq<Bytes>
    var finalBookKey: Option<AesKey>
    var download: Option<Bytes>
    var storage: map<string, string>
    /** The module-level Poseidon instance of src/lib/zkpUtils.js, shared with other pages. */
    const cache: PoseidonCache

    /** The page's state as a value. */
    function Snapshot(): Session
      reads this, cache
    {
      Session(catalog, purchaseId, token, secrets, leafIndex, status, error, socket, outbox,
              choiceBits, roundKeys, collectedSeeds, finalBookKey, download, storage, cache.poseidon)
    }

    /** The first render: status "preparing", no socket, an empty `otState`. */
    constructor (storage: map<string, string>, cache: PoseidonCache)
      ensures this.cache == cache
      ensures Snapshot() == Initial(storage, cache.poseidon)
    {
      catalog := [];
      purchaseId := "";
      token := "";
      secrets := Secrets("", "");
      leafIndex := 0;
      status := Preparing;
      error := None;
      socket := NotCreated;
      outbox := [];
      choiceBits := [];
      roundKeys := [];
      collectedSeeds := [];
      finalBookKey := None;
      download := None;
      this.storage := storage;
      this.cache := cache;
    }

    /** The effect: read and parse the stored secret, find the book, and create the socket. */
    method Setup(token: Option<string>, purchaseId: Option<string>, allBooks: Option<seq<CatalogBook>>,
                 parse: string -> StoredJson)
      modifies this
      ensures Snapshot() == Purchase.Setup(old(Snapshot()), token, purchaseId, allBooks, parse)
    {
      if !Truthy(token) || !Truthy(purchaseId) || allBooks.None? {
        return;
      }
      var secretsJson := StoredText(storage, SecretKeyOf(purchaseId.value));
      ghost var before := Snapshot();
      if !Truthy(secretsJson) {
        error := Some(MissingCredential);
        status := Failed;
        assert Snapshot() == before.(status := Failed, error := Some(MissingCredential));
        return;
      }
      var json := parse(secretsJson.value);
      if json.NotJson? || json.JsonNull? {
        // JSON.parse throws, or reading `bookId` of null does: the effect ends here
        return;
      }
      var index := if json.JsonSecrets? then FindIndex(allBooks.value, json.secrets.bookId) else None;
      if index.None? {
        error := Some(InvalidBookId);
        status := Failed;
        assert Snapshot() == before.(status := Failed, error := Some(InvalidBookId));
        return;
      }
      CreateSocket(allBooks.value, purchaseId.value, token.value, json.secrets, index.value);
    }

    /** Remember the purchase and the selected book, and create the socket. */
    method CreateSocket(allBooks: seq<CatalogBook>, purchaseId: string, token: string, stored: Secrets, index: nat)
      modifies this
      ensures Snapshot() == old(Snapshot()).(catalog := allBooks, purchaseId := purchaseId, token := token,
                                             secrets := stored, leafIndex := index, socket := Connecting)
    {
      ghost var before := Snapshot();
      catalog, this.purchaseId, this.token, secrets, leafIndex, socket :=
        allBooks, purchaseId, token, stored, index, Connecting;
      assert Snapshot() == before.(catalog := allBooks, purchaseId := purchaseId, token := token,
                                   secrets := stored, leafIndex := index, socket := Connecting);
    }

    /** socket.send: the frame goes out only while the socket is open. */
    method Send(m: Outgoing)
      modifies this
      ensures Snapshot() == Purchase.Send(old(Snapshot()), m)
    {
      ghost var before := Snapshot();
      if socket.Open? {
        outbox := outbox + [m];
        assert Snapshot() == before.(outbox := before.outbox + [m]);
      }
    }

    /** The catch block of onmessage. */
    method Abort(e: Error)
      modifies this
      ensures Snapshot() == Fail(old(Snapshot()), e)
    {
      ghost var before := Snapshot();
      error := Some(FailedDuring(status, e));
      if socket.Open? {
        socket := Closing(4000);
      }
      assert Snapshot() == before.(error := Some(FailedDuring(before.status, e)), socket := socket);
    }

    /** socket.onopen. */
    method OnOpen()
      modifies this
      ensures Snapshot() == HandleOpen(old(Snapshot()))
    {
      ghost var before := Snapshot();
      socket := Open;
      status := Connected;
      assert Snapshot() == before.(socket := Open, status := Connected);
      Send(Init(token));
    }

    /** ZKP_READY. */
    method OnZkpReady(env: Env)
      requires Valid(Snapshot()) && !socket.NotCreated?
      modifies this, cache
      ensures Snapshot() == HandleZkpReady(env, old(Snapshot()))
    {
      var before := Snapshot();
      status := GeneratingProof;
      var h := cache.GetPoseidon(env.buildPoseidon);
      assert Snapshot() == before.(status := GeneratingProof, poseidon := Some(h));
      var proof := ProveMembership(env, h, before);
      if proof.Err? {
        Abort(proof.error);
        return;
      }
      status := SendingProof;
      assert Snapshot() == before.(status := SendingProof, poseidon := Some(h));
      Send(ZkpProve(proof.value));
    }

    /** OT_START. */
    method OnOtStart(numBooks: int)
      modifies this
      ensures Snapshot() == HandleOtStart(old(Snapshot()), numBooks)
    {
      var bits := ChoiceBits(leafIndex, ChoiceBitCount(numBooks));
      ghost var before := Snapshot();
      status := ProofVerified;
      choiceBits := bits;
      assert Snapshot() == before.(status := ProofVerified, choiceBits := bits);
      Send(OtAckStart);
    }

    /** OT_ROUND_START: push a fresh key pair and answer with its public key. */
    method OnOtRoundStart(env: Env, round: int, randomSecret: Bytes)
      modifies this
      ensures Snapshot() == HandleOtRoundStart(env, old(Snapshot()), round, randomSecret)
    {
      ghost var before := Snapshot();
      status := RoundInProgress(round, |choiceBits|);
      var keyPair := GenerateClientOtKeyPair(env.crypto, randomSecret);
      roundKeys := roundKeys + [keyPair];
      assert Snapshot() == before.(status := RoundInProgress(round, |choiceBits|), roundKeys := before.roundKeys + [keyPair]);
      Send(OtRoundResponse(round, BytesToHex(keyPair.publicKey)));
    }

    /** OT_ROUND_CHALLENGE: recover the chosen seed; each failing step goes to the catch block. */
    method OnOtRoundChallenge(env: Env, round: int, g0: string, g1: string, e0: string, e1: string)
      modifies this
      ensures Snapshot() == HandleOtRoundChallenge(env, old(Snapshot()), round, g0, g1, e0, e1)
    {
      var zero := ChoiceAt(choiceBits, round) == Some(0);
      var serverPublicKey := HexToBytes(if zero then g0 else g1);
      if serverPublicKey.Err? {
        Abort(serverPublicKey.error);
        return;
      }
      var keyPair := RoundKey(roundKeys, round);
      if keyPair.Err? {
        Abort(keyPair.error);
        return;
      }
      var sharedKey := DeriveClientSharedSecret(env.crypto, keyPair.value.privateKey, serverPublicKey.value);
      if sharedKey.Err? {
        Abort(sharedKey.error);
        return;
      }
      var seed := AesGcmDecrypt(env.crypto, if zero then e0 else e1, sharedKey.value);
      if seed.Err? {
        Abort(seed.error);
        return;
      }
      ghost var before := Snapshot();
      collectedSeeds := collectedSeeds + [seed.value];
      status := RoundDone(round);
      assert Snapshot() == before.(collectedSeeds := before.collectedSeeds + [seed.value], status := RoundDone(round));
      if round + 1 == |choiceBits| {
        Send(OtRoundsComplete);
      }
    }

    /** OT_DELIVER: XOR the seeds into the master key, decrypt the book key, ask for the URL. */
    method OnOtDeliver(env: Env, encryptedSecrets: seq<string>)
      modifies this
      ensures Snapshot() == HandleOtDeliver(env, old(Snapshot()), encryptedSecrets)
    {
      ghost var before := Snapshot();
      status := DecryptingBookKey;
      assert Snapshot() == before.(status := DecryptingBookKey);
      var masterKey := XorBuffers(collectedSeeds, 32);
      if masterKey.Err? {
        Abort(masterKey.error);
        return;
      }
      var masterCryptoKey := ImportAesKey(masterKey.value).value;
      if leafIndex >= |encryptedSecrets| {
        Abort(MissingEncryptedSecret(leafIndex));
        return;
      }
      var bookSecretKey := AesGcmDecrypt(env.crypto, encryptedSecrets[leafIndex], masterCryptoKey);
      if bookSecretKey.Err? {
        Abort(bookSecretKey.error);
        return;
      }
      var bookKey := ImportAesKey(bookSecretKey.value);
      if bookKey.Err? {
        Abort(bookKey.error);
        return;
      }
      finalBookKey := Some(bookKey.value);
      status := RequestingUrl;
      assert Snapshot() == before.(finalBookKey := Some(bookKey.value), status := RequestingUrl);
      Send(RequestSignedUrl(leafIndex));
    }

    /** SIGNED_URL: download, decrypt, publish, erase the stored secret and tell the server. */
    method OnSignedUrl(env: Env, signedUrl: string)
      modifies this
      ensures Snapshot() == HandleSignedUrl(env, old(Snapshot()), signedUrl)
    {
      ghost var before := Snapshot();
      status := Downloading;
      assert Snapshot() == before.(status := Downloading);
      var response := env.fetch(signedUrl);
      if response.None? {
        Abort(FetchRejected);
        return;
      }
      if !response.value.ok {
        Abort(DownloadFailed(response.value.status));
        return;
      }
      if response.value.body.None? {
        Abort(BodyRejected);
        return;
      }
      status := DecryptingBook;
      assert Snapshot() == before.(status := DecryptingBook);
      var book := DecryptBook(env.crypto, finalBookKey, response.value.body.value);
      if book.Err? {
        Abort(book.error);
        return;
      }
      download := Some(book.value);
      status := DownloadReady;
      storage := storage - {SecretKeyOf(purchaseId)};
      assert Snapshot() == before.(download := Some(book.value), status := DownloadReady,
                                   storage := before.storage - {SecretKeyOf(purchaseId)});
      Send(DownloadReadyNotice);
    }

    /** socket.onerror. */
    method OnError()
      modifies this
      ensures Snapshot() == HandleError(old(Snapshot()))
    {
      error := Some(ConnectionError);
    }

    /** socket.onclose. */
    method OnClose(code: int, wasClean: bool)
      modifies this
      ensures Snapshot() == HandleClose(old(Snapshot()), code, wasClean)
    {
      socket := Closed(code);
      if !wasClean {
        status := Disconnected;
      }
    }

    /** socket.onmessage: dispatch on the frame's type; the page stays valid. */
    method OnMessage(env: Env, msg: Incoming, randomSecret: Bytes)
      requires Valid(Snapshot())
      modifies this, cache
      ensures Snapshot() == HandleMessage(env, old(Snapshot()), msg, randomSecret)
      ensures Valid(Snapshot())
    {
      if !socket.Open? {
        return;
      }
      match msg
      case ZkpReady => OnZkpReady(env);
      case OtStart(numBooks) => OnOtStart(numBooks);
      case OtRoundStart(round) => OnOtRoundStart(env, round, randomSecret);
      case OtRoundChallenge(round, g0, g1, e0, e1) => OnOtRoundChallenge(env, round, g0, g1, e0, e1);
      case OtDeliver(encryptedSecrets) => OnOtDeliver(env, encryptedSecrets);
      case SignedUrl(url) => OnSignedUrl(env, url);
      case Malformed => Abort(MalformedMessage);
      case Unknown(_) =>
    }
  }
}
