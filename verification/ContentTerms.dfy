/**
 File content as symbolic terms: a ciphertext is its bytes on the wire together with
 what they hold, a digest names the ciphertext it was taken of, a signature its signer
 and payload.
 */
module ContentTerms {
  import opened Bytes
  import opened Results
  import opened PgpTerms

  datatype Sealed = Sealed(session: SessionKey, plain: seq<byte>)

  /** An octet on the wire, which is only ever masked. */
  type octet = bv8

  datatype Ciphertext = Ciphertext(wire: seq<octet>, sealed: Option<Sealed>)

  /** The digest of a ciphertext, or other bytes that stand where one is expected. */
  datatype Digest = Digest(of: Ciphertext) | OtherBytes(id: nat)

  /** The text of a hash in a reply: the base64 of some bytes, or no base64 at all. */
  datatype HashText = Base64Of(digest: Digest) | NotBase64

  /** A detached signature over concatenated digests. */
  datatype Signature = Signature(signer: KeyId, payload: seq<Digest>) | MalformedSignature

  datatype PublicKey = PublicKey(id: KeyId) | MalformedKey

  datatype Verdict = Verified | WrongSigner | NoSignature

  datatype VerifyError = VerifyError

  /** Encryption may put any bytes on the wire. */
  method EncryptContent(plain: seq<byte>, session: SessionKey) returns (c: Ciphertext)
    ensures c.sealed == Some(Sealed(session, plain))
  {
    var wire: seq<octet> := *;
    c := Ciphertext(wire, Some(Sealed(session, plain)));
  }

  function DecryptContent(c: Ciphertext, session: SessionKey): Option<seq<byte>> {
    if c.sealed.Some? && c.sealed.value.session == session then Some(c.sealed.value.plain) else None
  }

  predicate SignedBy(payload: seq<Digest>, signature: Signature, key: PublicKey) {
    key.PublicKey? && signature == Signature(key.id, payload)
  }

  function Search(payload: seq<Digest>, signature: Signature, keys: seq<PublicKey>): Result<Verdict, VerifyError> {
    if keys == [] then Ok(WrongSigner)
    else if keys[0].MalformedKey? then Err(VerifyError)
    else if SignedBy(payload, signature, keys[0]) then Ok(Verified)
    else Search(payload, signature, keys[1..])
  }

  function VerdictOf(payload: seq<Digest>, signature: Signature, keys: seq<PublicKey>): Result<Verdict, VerifyError> {
    if keys == [] then Ok(NoSignature)
    else if signature.MalformedSignature? then Err(VerifyError)
    else Search(payload, signature, keys)
  }

  method VerifyDetached(payload: seq<Digest>, signature: Signature, keys: seq<PublicKey>)
      returns (r: Result<Verdict, VerifyError>)
    ensures r == VerdictOf(payload, signature, keys)
  {
    if keys == [] {
      return Ok(NoSignature);
    }
    if signature.MalformedSignature? {
      return Err(VerifyError);
    }
    for i := 0 to |keys|
      invariant Search(payload, signature, keys) == Search(payload, signature, keys[i..])
    {
      assert keys[i..][1..] == keys[i + 1..];
      if keys[i].MalformedKey? {
        return Err(VerifyError);
      }
      if keys[i].id == signature.signer && payload == signature.payload {
        return Ok(Verified);
      }
    }
    r := Ok(WrongSigner);
  }

  predicate KeyBeforeAnyBroken(id: KeyId, keys: seq<PublicKey>) {
    exists i :: 0 <= i < |keys| && keys[i] == PublicKey(id) && forall k :: 0 <= k < i ==> keys[k].PublicKey?
  }

  /** A signature verifies exactly when it covers this payload and its signer's key
      comes before any key that does not parse. */
  lemma VerifiedExactlyWhen(payload: seq<Digest>, signature: Signature, keys: seq<PublicKey>)
    ensures VerdictOf(payload, signature, keys) == Ok(Verified) <==>
      signature.Signature? && signature.payload == payload && KeyBeforeAnyBroken(signature.signer, keys)
  {
    if signature.Signature? {
      SearchFinds(payload, signature, keys);
    }
  }

  lemma {:induction false} SearchFinds(payload: seq<Digest>, signature: Signature, keys: seq<PublicKey>)
    requires signature.Signature?
    ensures Search(payload, signature, keys) == Ok(Verified) <==>
      signature.payload == payload && KeyBeforeAnyBroken(signature.signer, keys)
  {
    if keys != [] {
      SearchFinds(payload, signature, keys[1..]);
      if KeyBeforeAnyBroken(signature.signer, keys[1..]) && keys[0].PublicKey? {
        var i :| 0 <= i < |keys[1..]| && keys[1..][i] == PublicKey(signature.signer)
                 && forall k :: 0 <= k < i ==> keys[1..][k].PublicKey?;
        assert keys[i + 1] == PublicKey(signature.signer);
        assert forall k :: 1 <= k < i + 1 ==> keys[k] == keys[1..][k - 1];
      }
      if KeyBeforeAnyBroken(signature.signer, keys) {
        var i :| 0 <= i < |keys| && keys[i] == PublicKey(signature.signer)
                 && forall k :: 0 <= k < i ==> keys[k].PublicKey?;
        if i > 0 {
          assert keys[1..][i - 1] == PublicKey(signature.signer);
          assert forall k :: 0 <= k < i - 1 ==> keys[1..][k] == keys[k + 1];
        }
      }
    }
  }

  /** The search meets a key that does not parse before one that verifies. */
  predicate BrokenKeyReached(payload: seq<Digest>, signature: Signature, keys: seq<PublicKey>) {
    exists i :: 0 <= i < |keys| && keys[i].MalformedKey? && NoneVerifies(payload, signature, keys, i)
  }

  predicate NoneVerifies(payload: seq<Digest>, signature: Signature, keys: seq<PublicKey>, n: nat) {
    forall k :: 0 <= k < n && k < |keys| ==> !SignedBy(payload, signature, keys[k])
  }

  predicate CannotVerify(payload: seq<Digest>, signature: Signature, keys: seq<PublicKey>) {
    keys != [] && (signature.MalformedSignature? || BrokenKeyReached(payload, signature, keys))
  }

  /** Verification is an error, and not a verdict, exactly when the signature does not
      parse, or some key does not parse and no key before it verifies. */
  lemma ErrorExactlyWhen(payload: seq<Digest>, signature: Signature, keys: seq<PublicKey>)
    ensures VerdictOf(payload, signature, keys).Err? <==> CannotVerify(payload, signature, keys)
  {
    if signature.Signature? {
      SearchFailsExactlyWhen(payload, signature, keys);
    }
  }

  lemma {:induction false} SearchFailsExactlyWhen(payload: seq<Digest>, signature: Signature, keys: seq<PublicKey>)
    ensures Search(payload, signature, keys).Err? <==> BrokenKeyReached(payload, signature, keys)
  {
    if keys != [] && keys[0].PublicKey? && !SignedBy(payload, signature, keys[0]) {
      var rest := keys[1..];
      SearchFailsExactlyWhen(payload, signature, rest);
      if BrokenKeyReached(payload, signature, rest) {
        var i :| 0 <= i < |rest| && rest[i].MalformedKey? && NoneVerifies(payload, signature, rest, i);
        assert forall k :: 1 <= k < i + 1 ==> keys[k] == rest[k - 1];
        assert keys[i + 1].MalformedKey? && NoneVerifies(payload, signature, keys, i + 1);
      }
      if BrokenKeyReached(payload, signature, keys) {
        var i :| 0 <= i < |keys| && keys[i].MalformedKey? && NoneVerifies(payload, signature, keys, i);
        assert forall k :: 0 <= k < i - 1 ==> rest[k] == keys[k + 1];
        assert rest[i - 1].MalformedKey? && NoneVerifies(payload, signature, rest, i - 1);
      }
    } else if keys != [] && keys[0].MalformedKey? {
      assert NoneVerifies(payload, signature, keys, 0);
    } else if keys != [] {
      assert forall n: nat :: n > 0 ==> !NoneVerifies(payload, signature, keys, n);
    }
  }

  /** The two inputs on which an unverifiable signature is an error, although a valid key
      of the signer is there; and one on which it is the verdict that is documented. */
  lemma UnverifiableCanBeAnError(payload: seq<Digest>, signer: KeyId, other: KeyId)
    requires signer != other
    ensures VerdictOf(payload, Signature(signer, payload), [MalformedKey, PublicKey(signer)]).Err?
    ensures VerdictOf(payload, MalformedSignature, [PublicKey(signer)]).Err?
    ensures VerdictOf(payload, Signature(signer, payload), [PublicKey(other)]) == Ok(WrongSigner)
  {
    assert Search(payload, Signature(signer, payload), [PublicKey(other)][1..]) == Ok(WrongSigner);
  }

  /** A key that does not parse stands before any key of `id`. */
  predicate BrokenBefore(id: KeyId, keys: seq<PublicKey>) {
    exists i :: 0 <= i < |keys| && keys[i].MalformedKey? && forall k :: 0 <= k < i ==> keys[k] != PublicKey(id)
  }

  /** For a signature over this payload the signer's key alone decides. */
  lemma BrokenBeforeSigner(payload: seq<Digest>, signer: KeyId, keys: seq<PublicKey>)
    ensures BrokenKeyReached(payload, Signature(signer, payload), keys) <==> BrokenBefore(signer, keys)
  {
    var signature := Signature(signer, payload);
    assert forall k :: 0 <= k < |keys| ==> (SignedBy(payload, signature, keys[k]) <==> keys[k] == PublicKey(signer));
  }

  predicate AllParse(keys: seq<PublicKey>) {
    forall i :: 0 <= i < |keys| ==> keys[i].PublicKey?
  }

  /** When every key parses a parsed signature always gets a verdict, and it verifies
      exactly when the signer is among the keys. */
  lemma VerifiedWhenKeysParse(payload: seq<Digest>, signature: Signature, keys: seq<PublicKey>)
    requires signature.Signature? && AllParse(keys)
    ensures VerdictOf(payload, signature, keys).Ok?
    ensures VerdictOf(payload, signature, keys) == Ok(Verified) <==>
      signature.payload == payload && PublicKey(signature.signer) in keys
    ensures VerdictOf(payload, signature, keys) == Ok(NoSignature) <==> keys == []
  {
    VerifiedExactlyWhen(payload, signature, keys);
    ErrorExactlyWhen(payload, signature, keys);
    SearchNamesTheSigner(payload, signature, keys);
  }

  lemma {:induction false} SearchNamesTheSigner(payload: seq<Digest>, signature: Signature, keys: seq<PublicKey>)
    ensures Search(payload, signature, keys) != Ok(NoSignature)
  {
    if keys != [] {
      SearchNamesTheSigner(payload, signature, keys[1..]);
    }
  }
}
