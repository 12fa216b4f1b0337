/**
 Upload followed by download: what one commits and the other delivers.
 */
module TransferRoundTrip {
  import opened Bytes
  import opened Results
  import opened PgpTerms
  import opened ContentTerms
  import opened ByteStreams
  import opened Chunks
  import opened IndexOrder
  import opened BlockUpload
  import opened BlockDownload

  /** The revision lists the committed blocks by index, in any order, and the manifest. */
  predicate Lists(revision: Revision, commit: Commit) {
    && |revision.blocks| == |commit.blocks| && Numbered(revision.blocks)
    && (forall b | b in revision.blocks :: 1 <= b.index <= |commit.blocks| ==>
          b.item.hash == Base64Of(commit.blocks[b.index - 1].hash))
    && revision.manifest == Some(commit.manifest)
  }

  lemma SortedListing(revision: Revision, commit: Commit, i: nat)
    requires Lists(revision, commit) && i < |commit.blocks|
    ensures var sorted := SortByIndex(revision.blocks);
      sorted[i] in revision.blocks && sorted[i].index == i + 1 && sorted[i].item.hash == Base64Of(commit.blocks[i].hash)
  {
    var sorted := SortByIndex(revision.blocks);
    SortedInPlaceExactlyWhenNumbered(revision.blocks);
    SortIsStable(revision.blocks);
    assert sorted[i] in multiset(revision.blocks);
  }

  /** A reply that passes is the ciphertext that was committed, and its text the part
      that was encrypted. */
  lemma PassedBlockIsOriginal(commit: Commit, data: seq<byte>, blockSize: nat, content: Content, signer: KeyId,
                              revision: Revision, reply: Option<Ciphertext>, session: SessionKey, i: nat)
    requires blockSize > 0 && Committed(commit, data, blockSize, content, signer) && Lists(revision, commit)
    requires i < |commit.blocks|
    ensures var r := BlockText(SortByIndex(revision.blocks)[i], reply, session);
      && (r.Ok? ==> reply == Some(commit.blocks[i].ciphertext) && r.value == Cut(data, blockSize)[i])
      && (reply == Some(commit.blocks[i].ciphertext) && session == content.session ==> r.Ok?)
  {
    SortedListing(revision, commit, i);
    assert Holds(commit.blocks[i], i + 1, Cut(data, blockSize)[i], content);
  }

  lemma JoinOfPrefix(parts: seq<seq<byte>>, k: nat)
    requires k <= |parts|
    ensures Join(parts[..k]) <= Join(parts)
  {
    assert parts == parts[..k] + parts[k..];
    JoinAppend(parts[..k], parts[k..]);
  }

  /** Whatever the storage answers, the blocks that pass spell a prefix of the uploaded
      bytes, and all of them together spell exactly those bytes. */
  lemma PassedTextIsOriginal(commit: Commit, data: seq<byte>, blockSize: nat, content: Content, signer: KeyId,
                             revision: Revision, replies: Replies, session: SessionKey, k: nat)
    requires blockSize > 0 && Committed(commit, data, blockSize, content, signer) && Lists(revision, commit)
    requires Passed(SortByIndex(revision.blocks), replies, session, k)
    ensures var text := Text(SortByIndex(revision.blocks), replies, session, k);
      text <= data && (k == |commit.blocks| ==> text == data)
  {
    var blocks := SortByIndex(revision.blocks);
    var parts := Cut(data, blockSize);
    forall i | 0 <= i < k ensures BlockText(blocks[i], replies(i), session).value == parts[i] {
      assert BlockText(blocks[i], replies(i), session).Ok?;
      PassedBlockIsOriginal(commit, data, blockSize, content, signer, revision, replies(i), session, i);
    }
    assert Parts(blocks, replies, session, k) == parts[..k];
    JoinOfPrefix(parts, k);
    JoinOfCut(data, blockSize);
    assert k == |commit.blocks| ==> parts[..k] == parts;
  }

  /** So a download that stops early has written a prefix of the original, even when the
      writer broke in the middle of a block. */
  lemma StoppedDownloadIsAPrefix(commit: Commit, data: seq<byte>, blockSize: nat, content: Content, signer: KeyId,
                                 revision: Revision, replies: Replies, session: SessionKey, k: nat,
                                 error: DownloadError, written: seq<byte>)
    requires blockSize > 0 && Committed(commit, data, blockSize, content, signer) && Lists(revision, commit)
    requires StoppedAt(SortByIndex(revision.blocks), replies, session, k, error, [], written)
    ensures written <= data
  {
    var blocks := SortByIndex(revision.blocks);
    PassedTextIsOriginal(commit, data, blockSize, content, signer, revision, replies, session, k);
    if BlockText(blocks[k], replies(k), session).Ok? {
      TextOneMore(blocks, replies, session, k);
      PassedTextIsOriginal(commit, data, blockSize, content, signer, revision, replies, session, k + 1);
    }
  }

  /** With the stored ciphertexts as replies and the content key, every block passes. */
  lemma StoredBlocksPass(commit: Commit, data: seq<byte>, blockSize: nat, content: Content, signer: KeyId,
                         revision: Revision, replies: Replies)
    requires blockSize > 0 && Committed(commit, data, blockSize, content, signer) && Lists(revision, commit)
    requires forall i :: 0 <= i < |commit.blocks| ==> replies(i) == Some(commit.blocks[i].ciphertext)
    ensures Passed(SortByIndex(revision.blocks), replies, content.session, |commit.blocks|)
  {
    forall i | 0 <= i < |commit.blocks|
      ensures BlockText(SortByIndex(revision.blocks)[i], replies(i), content.session).Ok?
    {
      PassedBlockIsOriginal(commit, data, blockSize, content, signer, revision, replies(i), content.session, i);
    }
  }

  /** Once all blocks have passed, what arrived has the committed hashes. */
  lemma ReceivedIsCommitted(commit: Commit, data: seq<byte>, blockSize: nat, content: Content, signer: KeyId,
                            revision: Revision, replies: Replies, session: SessionKey)
    requires blockSize > 0 && Committed(commit, data, blockSize, content, signer) && Lists(revision, commit)
    requires Passed(SortByIndex(revision.blocks), replies, session, |commit.blocks|)
    ensures forall i :: 0 <= i < |commit.blocks| ==> replies(i).Some?
    ensures Received(replies, |commit.blocks|) == Hashes(commit.blocks)
  {
    var blocks := SortByIndex(revision.blocks);
    PayloadIsReceived(blocks, replies, session);
    forall i | 0 <= i < |commit.blocks| ensures Digest(replies(i).value) == commit.blocks[i].hash {
      assert BlockText(blocks[i], replies(i), session).Ok?;
      PassedBlockIsOriginal(commit, data, blockSize, content, signer, revision, replies(i), session, i);
      assert Holds(commit.blocks[i], i + 1, Cut(data, blockSize)[i], content);
    }
  }

  /** Once all blocks have passed, the manifest verifies exactly when the signer's key is
      among the verification keys, before any that does not parse. */
  lemma ManifestVerifiesExactlyWhen(commit: Commit, data: seq<byte>, blockSize: nat, content: Content, signer: KeyId,
                                    revision: Revision, replies: Replies, session: SessionKey, keys: seq<PublicKey>)
    requires blockSize > 0 && Committed(commit, data, blockSize, content, signer) && Lists(revision, commit)
    requires Passed(SortByIndex(revision.blocks), replies, session, |commit.blocks|)
    ensures forall i :: 0 <= i < |commit.blocks| ==> replies(i).Some?
    ensures VerdictOf(Received(replies, |commit.blocks|), commit.manifest, keys) == Ok(Verified) <==>
      KeyBeforeAnyBroken(signer, keys)
    ensures VerdictOf(Received(replies, |commit.blocks|), commit.manifest, keys).Err? <==> BrokenBefore(signer, keys)
    ensures AllParse(keys) ==>
      var verdict := VerdictOf(Received(replies, |commit.blocks|), commit.manifest, keys);
      verdict.Ok? && (verdict.value == Verified <==> PublicKey(signer) in keys)
  {
    ReceivedIsCommitted(commit, data, blockSize, content, signer, revision, replies, session);
    VerifiedExactlyWhen(Hashes(commit.blocks), commit.manifest, keys);
    ErrorExactlyWhen(Hashes(commit.blocks), commit.manifest, keys);
    BrokenBeforeSigner(Hashes(commit.blocks), signer, keys);
    if AllParse(keys) {
      VerifiedWhenKeysParse(Hashes(commit.blocks), commit.manifest, keys);
    }
  }

  /** Whoever lists the blocks and answers for them: when all pass, the committed manifest
      verifies exactly when the signer's key is found and the replies are the committed
      ciphertexts in order, and then the text is the uploaded data. */
  lemma VerifiedTextIsOriginal(commit: Commit, data: seq<byte>, blockSize: nat, content: Content, signer: KeyId,
                               blocks: seq<BlockResponse>, replies: Replies, session: SessionKey,
                               keys: seq<PublicKey>)
    requires blockSize > 0 && Committed(commit, data, blockSize, content, signer)
    requires Passed(blocks, replies, session, |blocks|)
    ensures forall i :: 0 <= i < |blocks| ==> replies(i).Some?
    ensures VerdictOf(Received(replies, |blocks|), commit.manifest, keys) == Ok(Verified) <==>
      && KeyBeforeAnyBroken(signer, keys) && |blocks| == |commit.blocks|
      && forall i :: 0 <= i < |blocks| ==> replies(i) == Some(commit.blocks[i].ciphertext)
    ensures VerdictOf(Received(replies, |blocks|), commit.manifest, keys) == Ok(Verified) ==>
      Text(blocks, replies, session, |blocks|) == data
  {
    var parts := Cut(data, blockSize);
    PayloadIsReceived(blocks, replies, session);
    var received := Received(replies, |blocks|);
    VerifiedExactlyWhen(received, commit.manifest, keys);
    assert forall i :: 0 <= i < |parts| ==> Holds(commit.blocks[i], i + 1, parts[i], content);
    SameHashesSameCiphertexts(commit, content, parts, replies, |blocks|);
    if received == Hashes(commit.blocks) {
      forall i | 0 <= i < |blocks| ensures BlockText(blocks[i], replies(i), session).value == parts[i] {
        assert BlockText(blocks[i], replies(i), session).Ok?;
      }
      assert Parts(blocks, replies, session, |blocks|) == parts;
      JoinOfCut(data, blockSize);
    }
  }

  lemma SameHashesSameCiphertexts(commit: Commit, content: Content, parts: seq<seq<byte>>, replies: Replies, n: nat)
    requires Encrypts(commit.blocks, parts, content)
    requires forall i :: 0 <= i < n ==> replies(i).Some?
    ensures Received(replies, n) == Hashes(commit.blocks) <==>
      n == |commit.blocks| && forall i :: 0 <= i < n ==> replies(i) == Some(commit.blocks[i].ciphertext)
  {
    var hashes := Hashes(commit.blocks);
    forall i | 0 <= i < |commit.blocks| ensures hashes[i] == Digest(commit.blocks[i].ciphertext) {
      assert Holds(commit.blocks[i], i + 1, parts[i], content);
    }
    if Received(replies, n) == hashes {
      forall i | 0 <= i < n ensures replies(i) == Some(commit.blocks[i].ciphertext) {
        assert Received(replies, n)[i] == hashes[i];
      }
    }
  }

  // ----- Through the storage -----------------------------------------------------------------------

  /** The listing also names the place where each block was put. */
  predicate Locates(revision: Revision, commit: Commit, links: seq<UploadLink>) {
    && Lists(revision, commit) && |links| == |commit.blocks|
    && (forall b | b in revision.blocks :: 1 <= b.index <= |links| ==>
          b.item.url == SortByIndex(links)[b.index - 1].item)
  }

  /** Storage answers each request with what was put there. */
  function Serve(store: map<StorageToken, Ciphertext>, blocks: seq<BlockResponse>): Replies {
    (i: nat) => if i < |blocks| && blocks[i].item.url in store then Some(store[blocks[i].item.url]) else None
  }

  lemma SortedTokensAreDistinct(links: seq<UploadLink>)
    requires Numbered(links) && DistinctTokens(links)
    ensures DistinctTokens(SortByIndex(links))
  {
    var sorted := SortByIndex(links);
    SortedInPlaceExactlyWhenNumbered(links);
    SortIsStable(links);
    forall i, j | 0 <= i < j < |sorted| ensures sorted[i].item != sorted[j].item {
      assert sorted[i] in multiset(links) && sorted[j] in multiset(links);
      var p :| 0 <= p < |links| && links[p] == sorted[i];
      var q :| 0 <= q < |links| && links[q] == sorted[j];
      assert p != q;
    }
  }

  lemma ServedIsStored(before: map<StorageToken, Ciphertext>, links: seq<UploadLink>, revision: Revision,
      commit: Commit)
    requires Locates(revision, commit, links) && Numbered(links) && DistinctTokens(links)
    ensures
      var replies := Serve(Puts(before, commit.blocks, SortByIndex(links), |links|), SortByIndex(revision.blocks));
      forall i :: 0 <= i < |commit.blocks| ==> replies(i) == Some(commit.blocks[i].ciphertext)
  {
    var sorted := SortByIndex(links);
    SortedTokensAreDistinct(links);
    forall i | 0 <= i < |commit.blocks|
      ensures SortByIndex(revision.blocks)[i].item.url == sorted[i].item
      ensures sorted[i].item in Puts(before, commit.blocks, sorted, |links|)
      ensures Puts(before, commit.blocks, sorted, |links|)[sorted[i].item] == commit.blocks[i].ciphertext
    {
      SortedListing(revision, commit, i);
      PutsStoreEach(before, commit.blocks, sorted, |links|, i);
    }
  }

  function Entry(commit: Commit, sorted: seq<UploadLink>, index: nat): BlockResponse
    requires 1 <= index <= |commit.blocks| == |sorted|
  {
    Indexed(index, BlockInfo(sorted[index - 1].item, Base64Of(commit.blocks[index - 1].hash)))
  }

  /** One of the orders in which a server may list the blocks: the last one first. */
  method ListRevision(commit: Commit, links: seq<UploadLink>, packet: Option<seq<Wrapped>>)
      returns (revision: Revision)
    requires |links| == |commit.blocks|
    ensures Locates(revision, commit, links) && revision.contentKeyPacket == packet
  {
    var sorted := SortByIndex(links);
    var blocks: seq<BlockResponse> := [];
    for k := 0 to |links|
      invariant |blocks| == k && forall i :: 0 <= i < k ==> blocks[i] == Entry(commit, sorted, |links| - i)
    {
      blocks := blocks + [Entry(commit, sorted, |links| - k)];
    }
    forall k | 1 <= k <= |blocks| ensures Occurs(blocks, k) {
      assert blocks[|links| - k].index == k;
    }
    revision := Revision(blocks, Some(commit.manifest), packet);
  }

  /** The content key is wrapped for the node: in the packet on the node, or only in that of
      the revision. */
  predicate HasContentKey(file: FileContext, revision: Revision, session: SessionKey) {
    var packet := [Wrapped(file.nodeKey.id, session)];
    file.contentKeyPacket == Some(packet) || (file.contentKeyPacket.None? && revision.contentKeyPacket == Some(packet))
  }

  /** What a download from an honest server finds: the content key, every block, and the
      original bytes. */
  lemma HonestDelivery(before: map<StorageToken, Ciphertext>, commit: Commit, data: seq<byte>, blockSize: nat,
                       content: Content, signer: KeyId, links: seq<UploadLink>, revision: Revision)
    requires blockSize > 0 && Committed(commit, data, blockSize, content, signer)
    requires Locates(revision, commit, links) && Numbered(links) && DistinctTokens(links)
    ensures
      var blocks := SortByIndex(revision.blocks);
      var replies := Serve(Puts(before, commit.blocks, SortByIndex(links), |links|), blocks);
      && Passed(blocks, replies, content.session, |blocks|)
      && Text(blocks, replies, content.session, |blocks|) == data
  {
    var blocks := SortByIndex(revision.blocks);
    var replies := Serve(Puts(before, commit.blocks, SortByIndex(links), |links|), blocks);
    ServedIsStored(before, links, revision, commit);
    StoredBlocksPass(commit, data, blockSize, content, signer, revision, replies);
    PassedTextIsOriginal(commit, data, blockSize, content, signer, revision, replies, content.session, |blocks|);
  }

  /** Only the keys can still fail the manifest. */
  lemma HonestManifest(commit: Commit, data: seq<byte>, blockSize: nat, content: Content, signer: KeyId,
                       revision: Revision, replies: Replies, file: FileContext)
    requires blockSize > 0 && Committed(commit, data, blockSize, content, signer) && Lists(revision, commit)
    requires Passed(SortByIndex(revision.blocks), replies, content.session, |commit.blocks|)
    ensures forall i :: 0 <= i < |commit.blocks| ==> replies(i).Some?
    ensures
      var payload := Received(replies, |commit.blocks|);
      && (SignedForFile(payload, commit.manifest, file) <==> SignerIsKnown(signer, file.nodeKey, file.addressKeys))
      && (Unverifiable(payload, commit.manifest, file) <==> BrokenBefore(signer, file.addressKeys))
  {
    ReceivedIsCommitted(commit, data, blockSize, content, signer, revision, replies, content.session);
    SignatureOf(signer, commit.manifest.payload, file);
  }

  /** For a good payload only the keys decide. */
  lemma SignatureOf(signer: KeyId, payload: seq<Digest>, file: FileContext)
    ensures SignedForFile(payload, Signature(signer, payload), file) <==>
      SignerIsKnown(signer, file.nodeKey, file.addressKeys)
    ensures Unverifiable(payload, Signature(signer, payload), file) <==> BrokenBefore(signer, file.addressKeys)
  {
    BrokenBeforeSigner(payload, signer, file.addressKeys);
  }

  lemma WrappedForTheNode(file: FileContext, revision: Revision, session: SessionKey)
    requires HasContentKey(file, revision, session)
    ensures ContentSession(file, revision) == Ok(session)
  {
    var packet := [Wrapped(file.nodeKey.id, session)];
    ContentSessionIs(file, revision, packet);
    assert FirstFor(packet, file.nodeKey, 0);
  }

  /** The way back, from a server that lists and serves what was stored. It fails exactly
      when the writer or its surroundings do, or an address key that does not parse comes
      before the signer's. */
  method DownloadBack(ghost before: map<StorageToken, Ciphertext>, store: BlockStore, commit: Commit,
                      ghost data: seq<byte>, ghost blockSize: nat, content: Content, ghost signer: KeyId,
                      links: seq<UploadLink>, nodeKey: PrivateKey, onNode: bool, addressKeys: seq<PublicKey>,
                      writer: ByteSink, there: Surroundings<DownloadError>)
      returns (down: Result<Stats, DownloadError>)
    requires blockSize > 0 && Committed(commit, data, blockSize, content, signer) && commit.blocks != []
    requires Numbered(links) && DistinctTokens(links) && |links| == |commit.blocks| && writer.written == []
    requires store.blocks == Puts(before, commit.blocks, SortByIndex(links), |links|)
    modifies writer, there
    ensures writer.written <= data
    ensures down.Ok? ==>
      && writer.written == data && !BrokenBefore(signer, addressKeys)
      && down == Ok(Stats(|data|, |links|, SignerIsKnown(signer, nodeKey, addressKeys)))
    ensures down.Err? ==>
      down.error in {WriteFailed, FlushFailed} || (down.error.VerifyFailed? && BrokenBefore(signer, addressKeys))
    ensures writer.failures == old(writer.failures) + (if down == Err(WriteFailed) then 1 else 0)
    ensures there.failed == old(there.failed) + (if down == Err(FlushFailed) then [FlushFailed] else [])
  {
    var packet := Some([Wrapped(nodeKey.id, content.session)]);
    var revision := ListRevision(commit, links, if onNode then None else packet);
    var file := FileContext(nodeKey, if onNode then packet else None, addressKeys);
    var blocks := SortByIndex(revision.blocks);
    var replies := Serve(store.blocks, blocks);
    WrappedForTheNode(file, revision, content.session);
    HonestDelivery(before, commit, data, blockSize, content, signer, links, revision);
    HonestManifest(commit, data, blockSize, content, signer, revision, replies, file);
    down := DownloadToWriter(revision, file, replies, writer, there);
    if down.Err? && down.error.WriteFailed? {
      var k: nat :| StoppedAt(blocks, replies, content.session, k, WriteFailed, [], writer.written);
      StoppedDownloadIsAPrefix(commit, data, blockSize, content, signer, revision, replies, content.session, k,
          WriteFailed, writer.written);
    }
  }

  /** A whole transfer. If both halves report success, the bytes that came out are the
      bytes that went in, and the signature is reported as verified exactly when the
      signer's key is among the address keys, before any that does not parse, or is the
      node's own when there are no address keys. Unless something around fails, the upload
      succeeds exactly when size and links fit, and the download after it exactly when no
      address key that does not parse comes before the signer's. The content key may be
      wrapped on the node or only on the revision. */
  method Transfer(stream: ByteStream, store: BlockStore, outside: Surroundings<UploadError>, meta: UploadMetadata,
                  links: seq<UploadLink>, blockSize: nat, content: Content, signer: KeyId, nodeKey: PrivateKey,
                  onNode: bool, addressKeys: seq<PublicKey>, writer: ByteSink, there: Surroundings<DownloadError>)
      returns (up: Result<Commit, UploadError>, down: Result<Stats, DownloadError>)
    requires blockSize > 0 && Numbered(links) && DistinctTokens(links) && writer.written == []
    modifies stream, store, outside, writer, there
    ensures up.Ok? ==> writer.written <= old(stream.rest)
    ensures up.Ok? && down.Ok? ==>
      && writer.written == old(stream.rest)
      && down.value.bytes == meta.expectedSize && down.value.blocks == |links|
      && (down.value.signatureVerified <==> SignerIsKnown(signer, nodeKey, addressKeys))
    ensures up.Ok? && down.Ok? && addressKeys == [] ==> (down.value.signatureVerified <==> signer == nodeKey.id)
    ensures up.Ok? && down.Ok? && addressKeys != [] && AllParse(addressKeys) ==>
      (down.value.signatureVerified <==> PublicKey(signer) in addressKeys)
    ensures stream.failures == old(stream.failures) && store.failures == old(store.failures)
            && outside.failed == old(outside.failed) ==>
      (up.Ok? <==> Validate(meta).None? && Fits(old(stream.rest), meta.expectedSize, |links|, blockSize))
    ensures up.Ok? && writer.failures == old(writer.failures) && there.failed == old(there.failed) ==>
      (down.Ok? <==> !BrokenBefore(signer, addressKeys)) && (down.Err? <==> down == Err(VerifyFailed))
    ensures up.Ok? && down.Err? ==>
      || down.error in {WriteFailed, FlushFailed}
      || (down.error.VerifyFailed? && BrokenBefore(signer, addressKeys))
  {
    down := Err(NoBlocks);
    ghost var data := stream.rest;
    ghost var before := store.blocks;
    up := UploadFromStream(stream, store, outside, meta, links, blockSize, content, signer);
    if up.Err? {
      return;
    }
    ParsedKeysAreFound(signer, addressKeys);
    down := DownloadBack(before, store, up.value, data, blockSize, content, signer, links, nodeKey, onNode,
                         addressKeys, writer, there);
  }

  predicate SignerIsKnown(signer: KeyId, nodeKey: PrivateKey, addressKeys: seq<PublicKey>) {
    if addressKeys == [] then signer == nodeKey.id else KeyBeforeAnyBroken(signer, addressKeys)
  }

  lemma ParsedKeysAreFound(id: KeyId, keys: seq<PublicKey>)
    ensures AllParse(keys) ==> (KeyBeforeAnyBroken(id, keys) <==> PublicKey(id) in keys)
  {
    if AllParse(keys) && PublicKey(id) in keys {
      var i :| 0 <= i < |keys| && keys[i] == PublicKey(id);
      assert forall k :: 0 <= k < i ==> keys[k].PublicKey?;
    }
  }
}
