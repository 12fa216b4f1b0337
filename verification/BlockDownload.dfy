/**
 Downloading a revision: blocks in index order, each checked against its hash, decrypted
 and written, and then the signed manifest over the hashes.
 */
module BlockDownload {
  import opened Bytes
  import opened Results
  import opened PgpTerms
  import opened ContentTerms
  import opened ByteStreams
  import opened Chunks
  import opened IndexOrder

  datatype BlockInfo = BlockInfo(url: nat, hash: HashText)

  type BlockResponse = Indexed<BlockInfo>

  datatype Revision = Revision(blocks: seq<BlockResponse>, manifest: Option<Signature>,
      contentKeyPacket: Option<seq<Wrapped>>)

  /** What the caller resolved before: the node key, the packet kept on the node, and
      the public keys of the signer's address. */
  datatype FileContext = FileContext(nodeKey: PrivateKey, contentKeyPacket: Option<seq<Wrapped>>,
      addressKeys: seq<PublicKey>)

  datatype Stats = Stats(bytes: nat, blocks: nat, signatureVerified: bool)

  datatype DownloadError =
    | NoBlocks | NoManifestSignature | NoContentKeyPacket | CannotUnwrapContentKey
    | FetchFailed | HashMismatch(index: int) | CannotDecrypt(index: int)
    | WriteFailed | FlushFailed | BadHashText | VerifyFailed

  /** The answers to the successive block requests: any bytes at all, or a failure. */
  type Replies = nat -> Option<Ciphertext>

  // ----- One block ----------------------------------------------------------------------------

  function BlockText(block: BlockResponse, reply: Option<Ciphertext>, session: SessionKey)
      : Result<seq<byte>, DownloadError>
  {
    match reply
    case None => Err(FetchFailed)
    case Some(ciphertext) =>
      if Base64Of(Digest(ciphertext)) != block.item.hash then Err(HashMismatch(block.index))
      else
        match DecryptContent(ciphertext, session)
        case None => Err(CannotDecrypt(block.index))
        case Some(plain) => Ok(plain)
  }

  /** What each answer to a block request means: a block fails to arrive, or has the wrong
      digest, or is not sealed under the content key, or is its plaintext. */
  lemma BlockTextExactlyWhen(block: BlockResponse, reply: Option<Ciphertext>, session: SessionKey, plain: seq<byte>)
    ensures BlockText(block, reply, session) == Err(FetchFailed) <==> reply.None?
    ensures BlockText(block, reply, session) == Err(HashMismatch(block.index)) <==>
      reply.Some? && block.item.hash != Base64Of(Digest(reply.value))
    ensures BlockText(block, reply, session) == Err(CannotDecrypt(block.index)) <==>
      && reply.Some? && block.item.hash == Base64Of(Digest(reply.value))
      && forall p :: reply.value.sealed != Some(Sealed(session, p))
    ensures BlockText(block, reply, session) == Ok(plain) <==>
      && reply.Some? && block.item.hash == Base64Of(Digest(reply.value))
      && reply.value.sealed == Some(Sealed(session, plain))
  {
    if reply.Some? && reply.value.sealed.Some? {
      assert reply.value.sealed == Some(Sealed(reply.value.sealed.value.session, reply.value.sealed.value.plain));
    }
  }

  /** The first `k` replies pass the hash check and decrypt. */
  predicate Passed(blocks: seq<BlockResponse>, replies: Replies, session: SessionKey, k: nat) {
    k <= |blocks| && forall i :: 0 <= i < k ==> BlockText(blocks[i], replies(i), session).Ok?
  }

  function Parts(blocks: seq<BlockResponse>, replies: Replies, session: SessionKey, k: nat): seq<seq<byte>>
    requires Passed(blocks, replies, session, k)
  {
    seq(k, i requires 0 <= i < k => BlockText(blocks[i], replies(i), session).value)
  }

  /** The plaintext of the first `k` blocks. */
  function Text(blocks: seq<BlockResponse>, replies: Replies, session: SessionKey, k: nat): seq<byte>
    requires Passed(blocks, replies, session, k)
  {
    Join(Parts(blocks, replies, session, k))
  }

  lemma TextOneMore(blocks: seq<BlockResponse>, replies: Replies, session: SessionKey, k: nat)
    requires Passed(blocks, replies, session, k + 1)
    ensures Text(blocks, replies, session, k + 1) ==
      Text(blocks, replies, session, k) + BlockText(blocks[k], replies(k), session).value
  {
    var part := BlockText(blocks[k], replies(k), session).value;
    assert Parts(blocks, replies, session, k + 1) == Parts(blocks, replies, session, k) + [part];
    JoinAppend(Parts(blocks, replies, session, k), [part]);
    JoinOne(part);
  }

  // ----- The write loop --------------------------------------------------------------------------

  /** The loop ended at block `k` with this error: the first `k` blocks are written whole,
      and block `k` failed its checks, or passed them and broke the writer. */
  predicate StoppedAt(blocks: seq<BlockResponse>, replies: Replies, session: SessionKey, k: nat,
                      error: DownloadError, before: seq<byte>, after: seq<byte>)
  {
    && k < |blocks| && Passed(blocks, replies, session, k)
    && var whole := before + Text(blocks, replies, session, k);
       match BlockText(blocks[k], replies(k), session)
       case Err(e) => error == e && after == whole
       case Ok(plain) => error == WriteFailed && whole <= after <= whole + plain
  }

  method WriteBlocks(blocks: seq<BlockResponse>, replies: Replies, session: SessionKey, writer: ByteSink)
      returns (r: Result<(nat, nat), DownloadError>)
    modifies writer
    ensures writer.failures == old(writer.failures) + (if r == Err(WriteFailed) then 1 else 0)
    ensures r.Ok? ==>
      && Passed(blocks, replies, session, |blocks|)
      && var text := Text(blocks, replies, session, |blocks|);
         writer.written == old(writer.written) + text && r.value == (|text|, |blocks|)
    ensures r.Err? ==>
      exists k: nat :: StoppedAt(blocks, replies, session, k, r.error, old(writer.written), writer.written)
  {
    var totalBytes, totalBlocks := 0, 0;
    for i := 0 to |blocks|
      invariant totalBlocks == i && Passed(blocks, replies, session, i)
      invariant writer.written == old(writer.written) + Text(blocks, replies, session, i)
      invariant totalBytes == |Text(blocks, replies, session, i)|
      invariant writer.failures == old(writer.failures)
    {
      var plaintext := BlockText(blocks[i], replies(i), session);
      if plaintext.Err? {
        assert StoppedAt(blocks, replies, session, i, plaintext.error, old(writer.written), writer.written);
        return Err(plaintext.error);
      }
      TextOneMore(blocks, replies, session, i);
      totalBytes := totalBytes + |plaintext.value|;
      totalBlocks := totalBlocks + 1;
      var ok := writer.WriteAll(plaintext.value);
      if !ok {
        assert StoppedAt(blocks, replies, session, i, WriteFailed, old(writer.written), writer.written);
        return Err(WriteFailed);
      }
    }
    r := Ok((totalBytes, totalBlocks));
  }

  // ----- The manifest ---------------------------------------------------------------------------------

  /** The address keys of the signer, or the node's own key when there are none. */
  function VerificationKeys(file: FileContext): seq<PublicKey> {
    if file.addressKeys == [] then [PublicKey(file.nodeKey.id)] else file.addressKeys
  }

  predicate HashesDecode(blocks: seq<BlockResponse>) {
    forall i :: 0 <= i < |blocks| ==> blocks[i].item.hash.Base64Of?
  }

  function Payload(blocks: seq<BlockResponse>): seq<Digest>
    requires HashesDecode(blocks)
  {
    seq(|blocks|, i requires 0 <= i < |blocks| => blocks[i].item.hash.digest)
  }

  /** The signature covers the payload, and its signer's key is an address key that comes
      before any that does not parse, or the node's own when there are no address keys. */
  predicate SignedForFile(payload: seq<Digest>, signature: Signature, file: FileContext) {
    && signature.Signature? && signature.payload == payload
    && if file.addressKeys == [] then signature.signer == file.nodeKey.id
       else KeyBeforeAnyBroken(signature.signer, file.addressKeys)
  }

  /** The signature does not parse, or an address key does not and no key before it
      verifies. */
  predicate Unverifiable(payload: seq<Digest>, signature: Signature, file: FileContext) {
    signature.MalformedSignature? || BrokenKeyReached(payload, signature, file.addressKeys)
  }

  /** Which keys decide: the address keys, and the node key only when there are none. */
  lemma AddressKeysDecide(payload: seq<Digest>, signature: Signature, file: FileContext)
    ensures var verdict := VerdictOf(payload, signature, VerificationKeys(file));
      && (verdict == Ok(Verified) <==> SignedForFile(payload, signature, file))
      && (verdict.Err? <==> Unverifiable(payload, signature, file))
      && (signature.Signature? && file.addressKeys == [] ==>
            verdict.Ok? && (verdict.value == Verified <==> signature == Signature(file.nodeKey.id, payload)))
      && (signature.Signature? && file.addressKeys != [] && AllParse(file.addressKeys) ==>
            && verdict.Ok?
            && (verdict.value == Verified <==>
                  signature.payload == payload && PublicKey(signature.signer) in file.addressKeys))
  {
    VerifiedExactlyWhen(payload, signature, VerificationKeys(file));
    ErrorExactlyWhen(payload, signature, VerificationKeys(file));
    if file.addressKeys == [] {
      NodeKeyAlone(payload, signature, file.nodeKey.id);
    } else if signature.Signature? && AllParse(file.addressKeys) {
      VerifiedWhenKeysParse(payload, signature, file.addressKeys);
    }
  }

  lemma NodeKeyAlone(payload: seq<Digest>, signature: Signature, id: KeyId)
    ensures !BrokenKeyReached(payload, signature, [PublicKey(id)])
    ensures signature.Signature? ==> (KeyBeforeAnyBroken(signature.signer, [PublicKey(id)]) <==> signature.signer == id)
  {
    assert [PublicKey(id)][0] == PublicKey(id);
  }

  /** The manifest counts as verified, or is an error, by the address keys, or by the node
      key when there are none. */
  method VerifyManifest(blocks: seq<BlockResponse>, manifest: Option<Signature>, file: FileContext)
      returns (r: Result<bool, DownloadError>)
    ensures manifest.None? ==> r == Err(NoManifestSignature)
    ensures manifest.Some? && !HashesDecode(blocks) ==> r == Err(BadHashText)
    ensures manifest.Some? && HashesDecode(blocks) ==>
      r == if Unverifiable(Payload(blocks), manifest.value, file) then Err(VerifyFailed)
           else Ok(SignedForFile(Payload(blocks), manifest.value, file))
    ensures manifest.Some? && HashesDecode(blocks) && manifest.value.Signature? && file.addressKeys == [] ==>
      r == Ok(manifest.value == Signature(file.nodeKey.id, Payload(blocks)))
    ensures manifest.Some? && HashesDecode(blocks) && manifest.value.Signature? && file.addressKeys != []
            && AllParse(file.addressKeys) ==>
      r == Ok(manifest.value.payload == Payload(blocks) && PublicKey(manifest.value.signer) in file.addressKeys)
  {
    if manifest.None? {
      return Err(NoManifestSignature);
    }
    var payload: seq<Digest> := [];
    for i := 0 to |blocks|
      invariant HashesDecode(blocks[..i]) && payload == Payload(blocks[..i])
    {
      if !blocks[i].item.hash.Base64Of? {
        return Err(BadHashText);
      }
      payload := payload + [blocks[i].item.hash.digest];
    }
    assert blocks[..|blocks|] == blocks;
    var keys := VerificationKeys(file);
    AddressKeysDecide(payload, manifest.value, file);
    var verdict := VerifyDetached(payload, manifest.value, keys);
    if verdict.Err? {
      return Err(VerifyFailed);
    }
    r := Ok(verdict.value == Verified);
  }

  /** The digests of the ciphertexts that arrived. */
  function Received(replies: Replies, n: nat): seq<Digest>
    requires forall i :: 0 <= i < n ==> replies(i).Some?
  {
    seq(n, i requires 0 <= i < n => Digest(replies(i).value))
  }

  /** Once every block has passed, the manifest payload is made of the ciphertexts that
      really arrived, and no hash text can fail to decode any more. */
  lemma PayloadIsReceived(blocks: seq<BlockResponse>, replies: Replies, session: SessionKey)
    requires Passed(blocks, replies, session, |blocks|)
    ensures HashesDecode(blocks)
    ensures forall i :: 0 <= i < |blocks| ==> replies(i).Some?
    ensures Payload(blocks) == Received(replies, |blocks|)
  {
    forall i | 0 <= i < |blocks| ensures replies(i).Some? && blocks[i].item.hash == Base64Of(Digest(replies(i).value)) {
      assert BlockText(blocks[i], replies(i), session).Ok?;
    }
  }

  // ----- The download -----------------------------------------------------------------------------------

  /** The packet kept on the node wins over the one of the revision. */
  function ContentSession(file: FileContext, revision: Revision): Result<SessionKey, DownloadError> {
    var packet := if file.contentKeyPacket.Some? then file.contentKeyPacket else revision.contentKeyPacket;
    match packet
    case None => Err(NoContentKeyPacket)
    case Some(wrapped) =>
      match FirstSession(wrapped, [file.nodeKey])
      case None => Err(CannotUnwrapContentKey)
      case Some(session) => Ok(session)
  }

  /** The packet on the node is used if there is one, else that of the revision, and its
      first session key wrapped for the node's key is the content key. */
  lemma ContentSessionIs(file: FileContext, revision: Revision, packet: seq<Wrapped>)
    requires file.contentKeyPacket == Some(packet)
             || (file.contentKeyPacket.None? && revision.contentKeyPacket == Some(packet))
    ensures ContentSession(file, revision).Err? <==> forall i :: 0 <= i < |packet| ==> !IsFor(packet[i], file.nodeKey)
    ensures ContentSession(file, revision).Err? ==> ContentSession(file, revision) == Err(CannotUnwrapContentKey)
    ensures forall i :: 0 <= i < |packet| && FirstFor(packet, file.nodeKey, i) ==>
      ContentSession(file, revision) == Ok(packet[i].session)
  {
    var keys := [file.nodeKey];
    assert Ids(keys) == {file.nodeKey.id} by {
      assert keys[0].id in Ids(keys);
    }
    forall i | 0 <= i < |packet| && IsFor(packet[i], file.nodeKey) ensures FirstSession(packet, keys).Some? {
      HitIsFound(packet, keys, i);
    }
    if FirstSession(packet, keys).Some? {
      var i := FirstSessionIsTheFirstHit(packet, keys);
      assert forall k :: 0 <= k < i ==> !IsFor(packet[k], file.nodeKey);
    }
  }

  predicate FirstFor(packet: seq<Wrapped>, key: PrivateKey, i: nat) {
    i < |packet| && IsFor(packet[i], key) && forall k :: 0 <= k < i ==> !IsFor(packet[k], key)
  }

  predicate IsFor(wrapped: Wrapped, key: PrivateKey) {
    wrapped.recipient == key.id
  }

  /** The four refusals, in the order of the checks. */
  lemma RefusalExactlyWhen(file: FileContext, revision: Revision)
    ensures Refusal(file, revision) == Some(NoBlocks) <==> revision.blocks == []
    ensures Refusal(file, revision) == Some(NoManifestSignature) <==> revision.blocks != [] && revision.manifest.None?
    ensures Refusal(file, revision) == Some(NoContentKeyPacket) <==>
      && revision.blocks != [] && revision.manifest.Some?
      && file.contentKeyPacket.None? && revision.contentKeyPacket.None?
    ensures Refusal(file, revision).None? ==>
      revision.blocks != [] && revision.manifest.Some? && ContentSession(file, revision).Ok?
  {
  }

  /** What stops a download before the first block is asked for. */
  function Refusal(file: FileContext, revision: Revision): Option<DownloadError> {
    if revision.blocks == [] then Some(NoBlocks)
    else if revision.manifest.None? then Some(NoManifestSignature)
    else if ContentSession(file, revision).Err? then Some(ContentSession(file, revision).error)
    else None
  }

  method DownloadToWriter(revision: Revision, file: FileContext, replies: Replies, writer: ByteSink,
                          outside: Surroundings<DownloadError>)
      returns (r: Result<Stats, DownloadError>)
    modifies writer, outside
    ensures writer.failures == old(writer.failures) + (if r == Err(WriteFailed) then 1 else 0)
    ensures outside.failed == old(outside.failed) + (if r == Err(FlushFailed) then [FlushFailed] else [])
    ensures r.Ok? ==> outside.tried == old(outside.tried) + [FlushFailed]
    ensures Refusal(file, revision).Some? ==>
      r == Err(Refusal(file, revision).value) && writer.written == old(writer.written)
    ensures Refusal(file, revision).None? ==>
      var blocks := SortByIndex(revision.blocks);
      var session := ContentSession(file, revision).value;
      if !Passed(blocks, replies, session, |blocks|) || (r.Err? && r.error.WriteFailed?) then
        r.Err? && exists k: nat :: StoppedAt(blocks, replies, session, k, r.error, old(writer.written), writer.written)
      else
        var text := Text(blocks, replies, session, |blocks|);
        && writer.written == old(writer.written) + text
        && (r == Err(FlushFailed) || ManifestDecides(r, revision, file, replies, |text|))
  {
    if revision.blocks == [] {
      return Err(NoBlocks);
    }
    if revision.manifest.None? {
      return Err(NoManifestSignature);
    }
    var session := UnwrapContentKey(file, revision);
    if session.Err? {
      return Err(session.error);
    }
    var sortedBlocks := SortByIndex(revision.blocks);
    var totals := WriteBlocks(sortedBlocks, replies, session.value, writer);
    if totals.Err? {
      StoppedIsNotPassed(sortedBlocks, replies, session.value, totals.error, old(writer.written), writer.written);
      return Err(totals.error);
    }
    var stuck := outside.Fails(FlushFailed);
    if stuck {
      return Err(FlushFailed);
    }
    PayloadIsReceived(sortedBlocks, replies, session.value);
    var verified := VerifyManifest(sortedBlocks, revision.manifest, file);
    if verified.Err? {
      return Err(verified.error);
    }
    r := Ok(Stats(totals.value.0, totals.value.1, verified.value));
  }

  /** With every block delivered, the result is what the manifest signature says about
      the ciphertexts received. */
  predicate ManifestDecides(r: Result<Stats, DownloadError>, revision: Revision, file: FileContext,
                            replies: Replies, size: nat)
  {
    && revision.manifest.Some?
    && (forall i :: 0 <= i < |revision.blocks| ==> replies(i).Some?)
    && var payload := Received(replies, |revision.blocks|);
       r == if Unverifiable(payload, revision.manifest.value, file) then Err(VerifyFailed)
            else Ok(Stats(size, |revision.blocks|, SignedForFile(payload, revision.manifest.value, file)))
  }

  method UnwrapContentKey(file: FileContext, revision: Revision) returns (r: Result<SessionKey, DownloadError>)
    ensures r == ContentSession(file, revision)
  {
    var packet := if file.contentKeyPacket.Some? then file.contentKeyPacket else revision.contentKeyPacket;
    if packet.None? {
      return Err(NoContentKeyPacket);
    }
    var session := DecryptSessionKey(packet.value, [file.nodeKey]);
    r := if session.None? then Err(CannotUnwrapContentKey) else Ok(session.value);
  }

  lemma StoppedIsNotPassed(blocks: seq<BlockResponse>, replies: Replies, session: SessionKey,
                           error: DownloadError, before: seq<byte>, after: seq<byte>)
    requires exists k: nat :: StoppedAt(blocks, replies, session, k, error, before, after)
    ensures !Passed(blocks, replies, session, |blocks|) || error == WriteFailed
  {
    var k: nat :| StoppedAt(blocks, replies, session, k, error, before, after);
    assert Passed(blocks, replies, session, |blocks|) ==> BlockText(blocks[k], replies(k), session).Ok?;
  }
}
