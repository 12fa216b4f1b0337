/**
 Uploading a stream: blocks of one size, encrypted and numbered from 1, each put to the
 link with its index, and a signed manifest over the block hashes.
 */
module BlockUpload {
  import opened Bytes
  import opened Results
  import opened PgpTerms
  import opened ContentTerms
  import opened ByteStreams
  import opened Chunks
  import opened IndexOrder

  const MAX_FILE_SIZE: nat := 16 * 1024 * 1024

  datatype UploadMetadata = UploadMetadata(expectedSize: nat, expectedSha1Hex: Option<string>)

  datatype UploadError =
    | EmptyExpectation | MalformedSha1 | TooLarge
    | Cancelled | ReadError | EmptyStream
    | SizeMismatch(expected: nat, got: nat)
    | WrongLinkCount(got: nat, wanted: nat)
    | EncryptFailed | RequestFailed | PutFailed | SignFailed | CommitFailed

  function Validate(m: UploadMetadata): (r: Option<UploadError>)
    ensures r.None? <==>
      1 <= m.expectedSize <= MAX_FILE_SIZE && (m.expectedSha1Hex.Some? ==> |m.expectedSha1Hex.value| == 40)
  {
    if m.expectedSize == 0 then Some(EmptyExpectation)
    else if m.expectedSha1Hex.Some? && |m.expectedSha1Hex.value| != 40 then Some(MalformedSha1)
    else if m.expectedSize > MAX_FILE_SIZE then Some(TooLarge)
    else None
  }

  /** The first of the three checks that fails is named. */
  lemma ValidationError(m: UploadMetadata)
    ensures Validate(m) == Some(EmptyExpectation) <==> m.expectedSize == 0
    ensures Validate(m) == Some(MalformedSha1) <==>
      m.expectedSize > 0 && m.expectedSha1Hex.Some? && |m.expectedSha1Hex.value| != 40
    ensures Validate(m) == Some(TooLarge) <==>
      m.expectedSize > 16_777_216 && (m.expectedSha1Hex.Some? ==> |m.expectedSha1Hex.value| == 40)
  {
  }

  // ----- Verifier tokens ---------------------------------------------------------------------

  function OctetOrZero(s: seq<octet>, i: nat): octet {
    if i < |s| then s[i] else 0
  }

  function Mask(a: octet, b: octet): octet {
    a ^ b
  }

  /** The verification code, masked with the first octets of the ciphertext. */
  function VerifierToken(code: seq<octet>, wire: seq<octet>): seq<octet> {
    seq(|code|, i requires 0 <= i < |code| => Mask(code[i], OctetOrZero(wire, i)))
  }

  /** `t` is the exclusive or of `a` and `b`. */
  predicate IsXor(t: octet, a: octet, b: octet) {
    t ^ a == b && t ^ b == a
  }

  lemma MaskIsXor(a: octet, b: octet)
    ensures IsXor(Mask(a, b), a, b)
    ensures Mask(a, 0) == a && Mask(0, b) == b
  {
  }

  /** Whoever knows the code reads the start of the ciphertext back from the token, and the
      other way round; beyond the ciphertext the token is the code. */
  lemma TokenRevealsTheCiphertext(code: seq<octet>, wire: seq<octet>, i: nat)
    requires i < |code|
    ensures |VerifierToken(code, wire)| == |code|
    ensures i < |wire| ==> IsXor(VerifierToken(code, wire)[i], code[i], wire[i])
    ensures i < |wire| && code[i] == 0 ==> VerifierToken(code, wire)[i] == wire[i]
    ensures i >= |wire| || wire[i] == 0 ==> VerifierToken(code, wire)[i] == code[i]
  {
    MaskIsXor(code[i], OctetOrZero(wire, i));
  }

  predicate StartAlike(n: nat, a: seq<octet>, b: seq<octet>) {
    forall i :: 0 <= i < n ==> OctetOrZero(a, i) == OctetOrZero(b, i)
  }

  /** So a token fits two ciphertexts exactly when they start alike. */
  lemma TokenBindsTheCiphertext(code: seq<octet>, a: seq<octet>, b: seq<octet>)
    ensures VerifierToken(code, a) == VerifierToken(code, b) <==> StartAlike(|code|, a, b)
  {
    if StartAlike(|code|, a, b) {
      AlikeTokens(code, a, b);
    }
    if VerifierToken(code, a) == VerifierToken(code, b) {
      forall i | 0 <= i < |code| ensures OctetOrZero(a, i) == OctetOrZero(b, i) {
        assert VerifierToken(code, a)[i] == VerifierToken(code, b)[i];
        EqualMasks(code[i], OctetOrZero(a, i), OctetOrZero(b, i));
      }
    }
  }

  lemma EqualMasks(a: octet, b: octet, c: octet)
    requires Mask(a, b) == Mask(a, c)
    ensures b == c
  {
    MaskIsXor(a, b);
    MaskIsXor(a, c);
  }

  lemma AlikeTokens(code: seq<octet>, a: seq<octet>, b: seq<octet>)
    requires StartAlike(|code|, a, b)
    ensures VerifierToken(code, a) == VerifierToken(code, b)
  {
    forall i | 0 <= i < |code| ensures VerifierToken(code, a)[i] == VerifierToken(code, b)[i] {
      assert OctetOrZero(a, i) == OctetOrZero(b, i);
    }
  }

  // ----- Blocks -----------------------------------------------------------------------------------

  datatype EncryptedBlock = EncryptedBlock(index: nat, ciphertext: Ciphertext, hash: Digest, token: seq<octet>)

  /** What the stream is encrypted under: the content session key and the server's
      verification code. */
  datatype Content = Content(session: SessionKey, code: seq<octet>)

  predicate Holds(b: EncryptedBlock, index: nat, plain: seq<byte>, content: Content) {
    && b.index == index
    && b.ciphertext.sealed == Some(Sealed(content.session, plain))
    && b.hash == Digest(b.ciphertext)
    && b.token == VerifierToken(content.code, b.ciphertext.wire)
  }

  /** Block i is number i + 1 and holds the i-th part. */
  predicate Encrypts(blocks: seq<EncryptedBlock>, parts: seq<seq<byte>>, content: Content) {
    |blocks| == |parts| && forall i :: 0 <= i < |parts| ==> Holds(blocks[i], i + 1, parts[i], content)
  }

  function Sizes(parts: seq<seq<byte>>): seq<nat> {
    seq(|parts|, i requires 0 <= i < |parts| => |parts[i]|)
  }

  /** Fill one buffer, across short reads. */
  method FillBlock(stream: ByteStream, blockSize: nat) returns (r: Result<seq<byte>, UploadError>)
    requires blockSize > 0
    modifies stream
    ensures r.Ok? ==>
      var n := Min(blockSize, |old(stream.rest)|);
      r.value == old(stream.rest)[..n] && stream.rest == old(stream.rest)[n..]
    ensures r.Err? ==> r == Err(ReadError)
    ensures stream.failures == old(stream.failures) + (if r.Err? then 1 else 0)
  {
    var buf := new byte[blockSize](_ => 0);
    var readBytes := 0;
    ghost var data := stream.rest;
    while true
      invariant fresh(buf)
      invariant 0 <= readBytes < blockSize && readBytes <= |data|
      invariant buf[..readBytes] == data[..readBytes] && stream.rest == data[readBytes..]
      invariant stream.failures == old(stream.failures)
      decreases |stream.rest|
    {
      ghost var before := buf[..];
      var n := stream.Read(buf, readBytes, blockSize - readBytes);
      if n.Err? {
        return Err(ReadError);
      }
      if n.value == 0 {
        break;
      }
      FilledFurther(before, buf[..], data, readBytes, n.value);
      readBytes := readBytes + n.value;
      if readBytes == blockSize {
        break;
      }
    }
    r := Ok(buf[..readBytes]);
  }

  lemma FilledFurther(before: seq<byte>, after: seq<byte>, data: seq<byte>, lo: nat, n: nat)
    requires lo + n <= |before| && lo + n <= |data| && before[..lo] == data[..lo]
    requires after == before[..lo] + data[lo..][..n] + before[lo..][n..]
    ensures after[..lo + n] == data[..lo + n] && data[lo + n..] == data[lo..][n..]
  {
    assert data[..lo + n] == data[..lo] + data[lo..][..n];
  }

  /** The failures that are neither the stream's nor the store's. */
  function Blamed<T>(r: Result<T, UploadError>): seq<UploadError> {
    if r.Err? && r.error in {Cancelled, EncryptFailed, RequestFailed, SignFailed, CommitFailed} then [r.error] else []
  }

  datatype Streamed = Streamed(blocks: seq<EncryptedBlock>, sizes: seq<nat>, total: nat)

  function BlockSteps(n: nat): seq<UploadError> {
    if n == 0 then [] else BlockSteps(n - 1) + [Cancelled, EncryptFailed]
  }

  predicate LastIsShort(parts: seq<seq<byte>>, blockSize: nat) {
    parts != [] && |parts[|parts| - 1]| < blockSize
  }

  /** What can go wrong for each block, in order; after a full last block the loop looks once
      more whether it is cancelled, before it finds the end. */
  function StreamSteps(parts: seq<seq<byte>>, blockSize: nat): seq<UploadError> {
    BlockSteps(|parts|) + if LastIsShort(parts, blockSize) then [] else [Cancelled]
  }

  function PutSteps(n: nat): seq<UploadError> {
    if n == 0 then [] else PutSteps(n - 1) + [Cancelled]
  }

  /** What can go wrong in a whole upload, in order. */
  function UploadSteps(parts: seq<seq<byte>>, blockSize: nat): seq<UploadError> {
    StreamSteps(parts, blockSize) + [RequestFailed] + PutSteps(|parts|) + [SignFailed, CommitFailed]
  }

  /** One round of the loop: the next block of the stream, encrypted, or its end. */
  method NextBlock(stream: ByteStream, outside: Surroundings<UploadError>, blockSize: nat, index: nat,
                   content: Content)
      returns (r: Result<Option<EncryptedBlock>, UploadError>, plain: seq<byte>)
    requires blockSize > 0
    modifies stream, outside
    ensures r.Ok? ==>
      var n := Min(blockSize, |old(stream.rest)|);
      && plain == old(stream.rest)[..n] && stream.rest == old(stream.rest)[n..]
      && (r.value.None? <==> old(stream.rest) == [])
      && (r.value.Some? ==> Holds(r.value.value, index, plain, content))
      && outside.tried == old(outside.tried) + (if r.value.None? then [Cancelled] else [Cancelled, EncryptFailed])
    ensures r.Err? ==> r.error in {Cancelled, ReadError, EncryptFailed}
    ensures stream.failures == old(stream.failures) + (if r == Err(ReadError) then 1 else 0)
    ensures outside.failed == old(outside.failed) + Blamed(r)
  {
    plain := [];
    var cancelled := outside.Fails(Cancelled);
    if cancelled {
      return Err(Cancelled), plain;
    }
    var filled := FillBlock(stream, blockSize);
    if filled.Err? {
      return Err(filled.error), plain;
    }
    plain := filled.value;
    if |plain| == 0 {
      return Ok(None), plain;
    }
    var broken := outside.Fails(EncryptFailed);
    if broken {
      return Err(EncryptFailed), plain;
    }
    var ciphertext := EncryptContent(plain, content.session);
    var token := VerifierToken(content.code, ciphertext.wire);
    r := Ok(Some(EncryptedBlock(index, ciphertext, Digest(ciphertext), token)));
  }

  /** With these parts read, `tried` has grown by the steps that led to them. */
  predicate Stepped(before: seq<UploadError>, tried: seq<UploadError>, parts: seq<seq<byte>>, blockSize: nat,
                    ended: bool)
  {
    if ended then tried == before + StreamSteps(parts, blockSize)
    else tried == before + BlockSteps(|parts|) && !LastIsShort(parts, blockSize)
  }

  lemma StepsGoOn(before: seq<UploadError>, tried: seq<UploadError>, parts: seq<seq<byte>>, plain: seq<byte>,
                  blockSize: nat)
    requires Stepped(before, tried, parts, blockSize, false)
    ensures Stepped(before, tried + [Cancelled], parts, blockSize, true)
    ensures Stepped(before, tried + [Cancelled, EncryptFailed], parts + [plain], blockSize, |plain| < blockSize)
  {
    var n, more := |parts|, parts + [plain];
    StepsJoin(before, BlockSteps(n), [Cancelled]);
    StepsJoin(before, BlockSteps(n), [Cancelled, EncryptFailed]);
    assert BlockSteps(n + 1) == BlockSteps(n) + [Cancelled, EncryptFailed];
    assert more[n] == plain && LastIsShort(more, blockSize) == (|plain| < blockSize);
    assert StreamSteps(more, blockSize) == BlockSteps(n + 1) + if |plain| < blockSize then [] else [Cancelled];
    NoMoreSteps(BlockSteps(n + 1));
  }

  lemma StepsJoin(a: seq<UploadError>, b: seq<UploadError>, c: seq<UploadError>)
    ensures a + b + c == a + (b + c)
  {
  }

  lemma NoMoreSteps(a: seq<UploadError>)
    ensures a + [] == a
  {
  }

  /** Read the stream to its end, block by block. It fails exactly when a read fails, the
      upload is cancelled or encryption fails. */
  method EncryptStream(stream: ByteStream, outside: Surroundings<UploadError>, blockSize: nat, content: Content)
      returns (r: Result<Streamed, UploadError>)
    requires blockSize > 0
    modifies stream, outside
    ensures r.Ok? ==>
      var parts := Cut(old(stream.rest), blockSize);
      && Encrypts(r.value.blocks, parts, content)
      && r.value.sizes == Sizes(parts)
      && r.value.total == |old(stream.rest)|
      && stream.rest == []
      && outside.tried == old(outside.tried) + StreamSteps(parts, blockSize)
    ensures r.Err? ==> r.error in {Cancelled, ReadError, EncryptFailed}
    ensures stream.failures == old(stream.failures) + (if r == Err(ReadError) then 1 else 0)
    ensures outside.failed == old(outside.failed) + Blamed(r)
  {
    var blocks: seq<EncryptedBlock> := [];
    var blockSizes: seq<nat> := [];
    var totalBytes: nat := 0;
    var blockIndex: nat := 1;
    ghost var data := stream.rest;
    ghost var parts: seq<seq<byte>> := [];
    var ended := false;
    while !ended
      invariant Halfway(Streamed(blocks, blockSizes, totalBytes), parts, stream.rest, data, blockSize, content)
      invariant blockIndex == |blocks| + 1
      invariant stream.failures == old(stream.failures) && outside.failed == old(outside.failed)
      invariant Stepped(old(outside.tried), outside.tried, parts, blockSize, ended)
      invariant ended ==> stream.rest == []
      decreases !ended, |stream.rest|
    {
      ghost var rest, tried := stream.rest, outside.tried;
      var next, plain := NextBlock(stream, outside, blockSize, blockIndex, content);
      if next.Err? {
        return Err(next.error);
      }
      StepsGoOn(old(outside.tried), tried, parts, plain, blockSize);
      ended := next.value.None? || |plain| < blockSize;
      if next.value.Some? {
        OneMoreBlock(Streamed(blocks, blockSizes, totalBytes), parts, rest, data, blockSize, content,
                     next.value.value);
        totalBytes := totalBytes + |plain|;
        blockSizes := blockSizes + [|plain|];
        blocks := blocks + [next.value.value];
        parts := parts + [plain];
        blockIndex := blockIndex + 1;
      }
    }
    r := Ok(Streamed(blocks, blockSizes, totalBytes));
    AllBlocks(r.value, parts, data, blockSize, content);
  }

  /** `s` is what comes of the parts read so far; `rest` is still unread. */
  predicate Halfway(s: Streamed, parts: seq<seq<byte>>, rest: seq<byte>, data: seq<byte>, blockSize: nat,
                    content: Content)
    requires blockSize > 0
  {
    && parts + Cut(rest, blockSize) == Cut(data, blockSize)
    && Encrypts(s.blocks, parts, content) && s.sizes == Sizes(parts) && s.total + |rest| == |data|
  }

  lemma OneMoreBlock(s: Streamed, parts: seq<seq<byte>>, rest: seq<byte>, data: seq<byte>, blockSize: nat,
                     content: Content, block: EncryptedBlock)
    requires blockSize > 0 && rest != [] && Halfway(s, parts, rest, data, blockSize, content)
    requires Holds(block, |s.blocks| + 1, rest[..Min(blockSize, |rest|)], content)
    ensures var n := Min(blockSize, |rest|);
      Halfway(Streamed(s.blocks + [block], s.sizes + [n], s.total + n), parts + [rest[..n]], rest[n..], data,
              blockSize, content)
  {
    var n := Min(blockSize, |rest|);
    OnePartCut(parts, rest, blockSize);
    assert Sizes(parts + [rest[..n]]) == Sizes(parts) + [n];
  }

  lemma OnePartCut(parts: seq<seq<byte>>, data: seq<byte>, blockSize: nat)
    requires blockSize > 0 && data != []
    ensures var n := Min(blockSize, |data|);
      parts + Cut(data, blockSize) == (parts + [data[..n]]) + Cut(data[n..], blockSize)
  {
    var n := Min(blockSize, |data|);
    assert Cut(data, blockSize) == [data[..n]] + Cut(data[n..], blockSize);
  }

  lemma AllBlocks(s: Streamed, parts: seq<seq<byte>>, data: seq<byte>, blockSize: nat, content: Content)
    requires blockSize > 0 && Halfway(s, parts, [], data, blockSize, content)
    ensures parts == Cut(data, blockSize)
    ensures Encrypts(s.blocks, parts, content) && s.sizes == Sizes(parts) && s.total == |data|
  {
    assert parts + [] == parts;
  }

  // ----- Links and storage --------------------------------------------------------------------------

  type StorageToken = nat

  /** A link the server gave out: the block index it is for, and where to put it. */
  type UploadLink = Indexed<StorageToken>

  class BlockStore {
    var blocks: map<StorageToken, Ciphertext>
    ghost var failures: nat

    constructor ()
      ensures blocks == map[] && failures == 0
    {
      blocks := map[];
      failures := 0;
    }

    /** A failed put may have been stored. */
    method Put(token: StorageToken, c: Ciphertext) returns (ok: bool)
      modifies this
      ensures blocks == old(blocks)[token := c] || (!ok && blocks == old(blocks))
      ensures failures == old(failures) + (if ok then 0 else 1)
    {
      ok := *;
      failures := failures + (if ok then 0 else 1);
      var stored: bool := *;
      if ok || stored {
        blocks := blocks[token := c];
      }
    }
  }

  /** The store after the first `n` blocks have been put to the first `n` links. */
  function Puts(store: map<StorageToken, Ciphertext>, blocks: seq<EncryptedBlock>, links: seq<UploadLink>, n: nat)
      : map<StorageToken, Ciphertext>
    requires n <= |blocks| && n <= |links|
  {
    if n == 0 then store else Puts(store, blocks, links, n - 1)[links[n - 1].item := blocks[n - 1].ciphertext]
  }

  method PutBlocks(store: BlockStore, outside: Surroundings<UploadError>, blocks: seq<EncryptedBlock>,
                   links: seq<UploadLink>)
      returns (r: Result<nat, UploadError>)
    requires |links| == |blocks|
    modifies store, outside
    ensures r.Ok? ==>
      && store.blocks == Puts(old(store.blocks), blocks, links, |blocks|)
      && outside.tried == old(outside.tried) + PutSteps(|blocks|)
    ensures r.Err? ==>
      && r.error in {Cancelled, PutFailed}
      && exists n: nat | n <= |blocks| :: store.blocks == Puts(old(store.blocks), blocks, links, n)
    ensures store.failures == old(store.failures) + (if r == Err(PutFailed) then 1 else 0)
    ensures outside.failed == old(outside.failed) + Blamed(r)
  {
    for i := 0 to |blocks|
      invariant store.blocks == Puts(old(store.blocks), blocks, links, i)
      invariant store.failures == old(store.failures) && outside.failed == old(outside.failed)
      invariant outside.tried == old(outside.tried) + PutSteps(i)
    {
      var cancelled := outside.Fails(Cancelled);
      if cancelled {
        return Err(Cancelled);
      }
      var ok := store.Put(links[i].item, blocks[i].ciphertext);
      if !ok {
        ghost var before := old(store.blocks);
        assert store.blocks in {Puts(before, blocks, links, i), Puts(before, blocks, links, i + 1)};
        return Err(PutFailed);
      }
    }
    r := Ok(|blocks|);
  }

  /** Ask for the links, check how many came, and put the blocks in the order of their
      indices. */
  method RequestAndPut(store: BlockStore, outside: Surroundings<UploadError>, blocks: seq<EncryptedBlock>,
                       links: seq<UploadLink>)
      returns (r: Result<nat, UploadError>)
    modifies store, outside
    ensures r.Ok? ==>
      && |links| == |blocks|
      && store.blocks == Puts(old(store.blocks), blocks, SortByIndex(links), |blocks|)
      && outside.tried == old(outside.tried) + [RequestFailed] + PutSteps(|blocks|)
    ensures r.Err? && r.error !in {PutFailed, Cancelled} ==> store.blocks == old(store.blocks)
    ensures r.Err? ==>
      || r.error in {Cancelled, RequestFailed, PutFailed}
      || (r.error == WrongLinkCount(|links|, |blocks|) && |links| != |blocks|)
    ensures store.failures == old(store.failures) + (if r == Err(PutFailed) then 1 else 0)
    ensures outside.failed == old(outside.failed) + Blamed(r)
  {
    var refused := outside.Fails(RequestFailed);
    if refused {
      return Err(RequestFailed);
    }
    if |links| != |blocks| {
      return Err(WrongLinkCount(|links|, |blocks|));
    }
    r := PutBlocks(store, outside, blocks, SortByIndex(links));
  }

  // ----- The upload ------------------------------------------------------------------------------------

  function Hashes(blocks: seq<EncryptedBlock>): seq<Digest> {
    seq(|blocks|, i requires 0 <= i < |blocks| => blocks[i].hash)
  }

  /** What is committed: the signed manifest and the attributes of the file. */
  datatype Commit = Commit(blocks: seq<EncryptedBlock>, manifest: Signature, size: nat, blockSizes: seq<nat>)

  predicate Committed(c: Commit, data: seq<byte>, blockSize: nat, content: Content, signer: KeyId)
    requires blockSize > 0
  {
    && Encrypts(c.blocks, Cut(data, blockSize), content)
    && c.manifest == Signature(signer, Hashes(c.blocks))
    && c.size == |data| && c.blockSizes == Sizes(Cut(data, blockSize))
  }

  /** What an upload needs of its inputs. */
  predicate Fits(data: seq<byte>, expectedSize: nat, links: nat, blockSize: nat)
    requires blockSize > 0
  {
    0 < |data| == expectedSize && links == (|data| + blockSize - 1) / blockSize
  }

  lemma UploadStepsJoin(before: seq<UploadError>, parts: seq<seq<byte>>, blockSize: nat)
    ensures before + StreamSteps(parts, blockSize) + [RequestFailed] + PutSteps(|parts|) + [SignFailed] + [CommitFailed]
         == before + UploadSteps(parts, blockSize)
  {
    FiveJoin(before, StreamSteps(parts, blockSize), [RequestFailed], PutSteps(|parts|), [SignFailed], [CommitFailed]);
    assert [SignFailed] + [CommitFailed] == [SignFailed, CommitFailed];
  }

  lemma FiveJoin(before: seq<UploadError>, a: seq<UploadError>, b: seq<UploadError>, c: seq<UploadError>,
                 d: seq<UploadError>, e: seq<UploadError>)
    ensures before + a + b + c + d + e == before + (a + b + c + (d + e))
  {
    StepsJoin(before, a, b);
    StepsJoin(before, a + b, c);
    StepsJoin(before + (a + b + c), d, e);
    StepsJoin(before, a + b + c, d + e);
  }

  /** Unless a read, a put or something around fails, the upload succeeds exactly when the
      size and the number of links fit. */
  method RunUpload(stream: ByteStream, store: BlockStore, outside: Surroundings<UploadError>, meta: UploadMetadata,
                   links: seq<UploadLink>, blockSize: nat, content: Content, signer: KeyId)
      returns (r: Result<Commit, UploadError>)
    requires blockSize > 0
    modifies stream, store, outside
    ensures stream.failures == old(stream.failures) + (if r == Err(ReadError) then 1 else 0)
    ensures store.failures == old(store.failures) + (if r == Err(PutFailed) then 1 else 0)
    ensures outside.failed == old(outside.failed) + Blamed(r)
    ensures stream.failures == old(stream.failures) && store.failures == old(store.failures)
            && outside.failed == old(outside.failed) ==>
      (r.Ok? <==> Fits(old(stream.rest), meta.expectedSize, |links|, blockSize))
    ensures r.Ok? ==>
      && Committed(r.value, old(stream.rest), blockSize, content, signer)
      && |old(stream.rest)| == meta.expectedSize > 0
      && |links| == |r.value.blocks|
      && store.blocks == Puts(old(store.blocks), r.value.blocks, SortByIndex(links), |links|)
      && outside.tried == old(outside.tried) + UploadSteps(Cut(old(stream.rest), blockSize), blockSize)
    ensures r.Err? && r.error !in {PutFailed, Cancelled, SignFailed, CommitFailed} ==> store.blocks == old(store.blocks)
    ensures r.Err? ==>
      match r.error
      case EmptyStream => old(stream.rest) == []
      case SizeMismatch(expected, got) => expected == meta.expectedSize && got == |old(stream.rest)| && got != expected
      case WrongLinkCount(got, wanted) =>
        && got == |links| && wanted == |Cut(old(stream.rest), blockSize)| && got != wanted
        && |old(stream.rest)| == meta.expectedSize
      case _ => r.error in {Cancelled, ReadError, EncryptFailed, RequestFailed, PutFailed, SignFailed, CommitFailed}
  {
    CutCount(stream.rest, blockSize);
    var encrypted := EncryptStream(stream, outside, blockSize, content);
    if encrypted.Err? {
      return Err(encrypted.error);
    }
    var Streamed(blocks, _, totalBytes) := encrypted.value;
    if blocks == [] {
      return Err(EmptyStream);
    }
    if totalBytes != meta.expectedSize {
      return Err(SizeMismatch(meta.expectedSize, totalBytes));
    }
    var put := RequestAndPut(store, outside, blocks, links);
    if put.Err? {
      return Err(put.error);
    }
    UploadStepsJoin(old(outside.tried), Cut(old(stream.rest), blockSize), blockSize);
    r := SignAndCommit(outside, encrypted.value, signer);
  }

  method SignAndCommit(outside: Surroundings<UploadError>, s: Streamed, signer: KeyId)
      returns (r: Result<Commit, UploadError>)
    modifies outside
    ensures r.Ok? ==>
      && r == Ok(Commit(s.blocks, Signature(signer, Hashes(s.blocks)), s.total, s.sizes))
      && outside.tried == old(outside.tried) + [SignFailed] + [CommitFailed]
    ensures r.Err? ==> r.error in {SignFailed, CommitFailed}
    ensures outside.failed == old(outside.failed) + Blamed(r)
  {
    var unsigned := outside.Fails(SignFailed);
    if unsigned {
      return Err(SignFailed);
    }
    var rejected := outside.Fails(CommitFailed);
    if rejected {
      return Err(CommitFailed);
    }
    r := Ok(Commit(s.blocks, Signature(signer, Hashes(s.blocks)), s.total, s.sizes));
  }

  /** Validation first, then the upload. */
  method UploadFromStream(stream: ByteStream, store: BlockStore, outside: Surroundings<UploadError>,
                          meta: UploadMetadata, links: seq<UploadLink>, blockSize: nat, content: Content,
                          signer: KeyId)
      returns (r: Result<Commit, UploadError>)
    requires blockSize > 0
    modifies stream, store, outside
    ensures r.Ok? ==>
      && 1 <= |old(stream.rest)| <= MAX_FILE_SIZE && |old(stream.rest)| == meta.expectedSize
      && Committed(r.value, old(stream.rest), blockSize, content, signer)
      && |r.value.blocks| == (meta.expectedSize + blockSize - 1) / blockSize == |links|
      && outside.tried == old(outside.tried) + UploadSteps(Cut(old(stream.rest), blockSize), blockSize)
      && store.blocks == Puts(old(store.blocks), r.value.blocks, SortByIndex(links), |links|)
    ensures Validate(meta).Some? ==>
      r == Err(Validate(meta).value) && stream.rest == old(stream.rest) && store.blocks == old(store.blocks)
    ensures stream.failures == old(stream.failures) + (if r == Err(ReadError) then 1 else 0)
    ensures store.failures == old(store.failures) + (if r == Err(PutFailed) then 1 else 0)
    ensures outside.failed == old(outside.failed) + Blamed(r)
    ensures stream.failures == old(stream.failures) && store.failures == old(store.failures)
            && outside.failed == old(outside.failed) ==>
      (r.Ok? <==> Validate(meta).None? && Fits(old(stream.rest), meta.expectedSize, |links|, blockSize))
  {
    var invalid := Validate(meta);
    if invalid.Some? {
      return Err(invalid.value);
    }
    CutCount(stream.rest, blockSize);
    r := RunUpload(stream, store, outside, meta, links, blockSize, content, signer);
  }

  // ----- What a successful upload leaves behind -----------------------------------------------------------

  predicate DistinctTokens(links: seq<UploadLink>) {
    forall i, j :: 0 <= i < j < |links| ==> links[i].item != links[j].item
  }

  lemma {:induction false} PutsStoreEach(store: map<StorageToken, Ciphertext>, blocks: seq<EncryptedBlock>,
      links: seq<UploadLink>, n: nat, k: nat)
    requires k < n <= |blocks| && n <= |links| && DistinctTokens(links)
    ensures links[k].item in Puts(store, blocks, links, n)
    ensures Puts(store, blocks, links, n)[links[k].item] == blocks[k].ciphertext
  {
    if k < n - 1 {
      PutsStoreEach(store, blocks, links, n - 1, k);
    }
  }

  /** Every block goes to the link with its own index if and only if the indices of the
      links are a permutation of 1..N. The program checks the number of links only. */
  lemma LinksPairExactlyWhenNumbered(blocks: seq<EncryptedBlock>, parts: seq<seq<byte>>, content: Content,
      links: seq<UploadLink>)
    requires Encrypts(blocks, parts, content) && |links| == |blocks|
    ensures |SortByIndex(links)| == |blocks|
    ensures (forall i :: 0 <= i < |blocks| ==> SortByIndex(links)[i].index == blocks[i].index) <==> Numbered(links)
  {
    SortedInPlaceExactlyWhenNumbered(links);
    var sorted := SortByIndex(links);
    assert forall i :: 0 <= i < |parts| ==> Holds(blocks[i], i + 1, parts[i], content);
  }

  function Sum(s: seq<nat>): nat {
    if s == [] then 0 else s[0] + Sum(s[1..])
  }

  lemma {:induction false} SizesSum(parts: seq<seq<byte>>)
    ensures Sum(Sizes(parts)) == |Join(parts)|
  {
    if parts != [] {
      SizesSum(parts[1..]);
      assert Sizes(parts)[1..] == Sizes(parts[1..]);
    }
  }

  /** The committed blocks hold the stream and nothing else: together they are its
      bytes, all but the last are full, none is empty, and the recorded sizes add up
      to the recorded size. */
  lemma CommittedBlocks(c: Commit, data: seq<byte>, blockSize: nat, content: Content, signer: KeyId)
    requires blockSize > 0 && Committed(c, data, blockSize, content, signer)
    ensures Join(Plains(c.blocks, content.session)) == data
    ensures Sum(c.blockSizes) == c.size
    ensures forall i :: 0 <= i < |c.blocks| ==>
      && c.blocks[i].index == i + 1
      && 0 < c.blockSizes[i] <= blockSize && (i < |c.blocks| - 1 ==> c.blockSizes[i] == blockSize)
    ensures |c.blocks| == |c.blockSizes| == (c.size + blockSize - 1) / blockSize
  {
    var parts := Cut(data, blockSize);
    assert forall i :: 0 <= i < |parts| ==> Holds(c.blocks[i], i + 1, parts[i], content);
    assert Plains(c.blocks, content.session) == parts;
    JoinOfCut(data, blockSize);
    SizesSum(parts);
    CutCount(data, blockSize);
    forall i | 0 <= i < |parts| ensures 0 < |parts[i]| <= blockSize && (i < |parts| - 1 ==> |parts[i]| == blockSize) {
      CutSizes(data, blockSize, i);
    }
  }

  function Plains(blocks: seq<EncryptedBlock>, session: SessionKey): seq<seq<byte>> {
    seq(|blocks|, i requires 0 <= i < |blocks| =>
      match DecryptContent(blocks[i].ciphertext, session) case Some(plain) => plain case None => [])
  }
}
