/**
 OpenPGP as symbolic terms: locked keys, messages with one wrapped session key per
 recipient, and the searches over packets and keys that unlocking is made of.
 */
module PgpTerms {
  import opened Results

  type KeyId = nat

  type SessionKey = nat

  datatype PrivateKey = PrivateKey(id: KeyId)

  /** A secret key that opens with one passphrase, or does not parse. */
  datatype LockedKey = LockedKey(id: KeyId, lock: string) | BrokenKey

  function DecryptKey(k: LockedKey, passphrase: string): Option<PrivateKey> {
    if k.LockedKey? && k.lock == passphrase then Some(PrivateKey(k.id)) else None
  }

  /** A session key wrapped for one recipient. */
  datatype Wrapped = Wrapped(recipient: KeyId, session: SessionKey)

  /** Wrapped session keys, and a body under one session key whose plaintext may
      not be text; or something that does not parse. */
  datatype Message = Message(wrapped: seq<Wrapped>, session: SessionKey, plain: Option<string>) | BrokenMessage

  predicate HasKey(keys: seq<PrivateKey>, id: KeyId) {
    exists i :: 0 <= i < |keys| && keys[i].id == id
  }

  /** The session key of the first packet that any of the keys opens. */
  function FirstSession(wrapped: seq<Wrapped>, keys: seq<PrivateKey>): Option<SessionKey> {
    if wrapped == [] then None
    else if HasKey(keys, wrapped[0].recipient) then Some(wrapped[0].session)
    else FirstSession(wrapped[1..], keys)
  }

  method DecryptSessionKey(wrapped: seq<Wrapped>, keys: seq<PrivateKey>) returns (r: Option<SessionKey>)
    ensures r == FirstSession(wrapped, keys)
  {
    for i := 0 to |wrapped|
      invariant FirstSession(wrapped, keys) == FirstSession(wrapped[i..], keys)
    {
      assert wrapped[i..][0] == wrapped[i] && wrapped[i..][1..] == wrapped[i + 1..];
      for j := 0 to |keys|
        invariant forall k :: 0 <= k < j ==> keys[k].id != wrapped[i].recipient
      {
        if keys[j].id == wrapped[i].recipient {
          return Some(wrapped[i].session);
        }
      }
    }
    r := None;
  }

  function DecryptBody(m: Message, session: SessionKey): Option<string> {
    if m.Message? && m.session == session then m.plain else None
  }

  /** Recover a passphrase from a message with any of `keys`, then unlock. */
  function UnlockWith(m: Message, k: LockedKey, keys: seq<PrivateKey>): Option<PrivateKey> {
    if !m.Message? then None
    else match FirstSession(m.wrapped, keys)
      case None => None
      case Some(session) =>
        match DecryptBody(m, session)
        case None => None
        case Some(passphrase) => DecryptKey(k, passphrase)
  }

  predicate Good(m: Message, i: nat) {
    m.Message? && i < |m.wrapped| && m.wrapped[i].session == m.session
  }

  /** No packet holding a wrong session key can hide a later, right one: some packet
      before it already answers to one of the two recipients. In particular this
      holds when every packet wraps the session key of the body. */
  predicate Orderly(m: Message) {
    m.Message? ==>
      forall i, j :: 0 <= i < j < |m.wrapped| && !Good(m, i) && Good(m, j) ==>
        Answered(m.wrapped, i, {m.wrapped[i].recipient, m.wrapped[j].recipient})
  }

  /** A packet before the `i`-th is for one of `ids`. */
  predicate Answered(wrapped: seq<Wrapped>, i: nat, ids: set<KeyId>) {
    exists k :: 0 <= k < i && k < |wrapped| && wrapped[k].recipient in ids
  }

  /** Some recipient among `ids` holds the key of the body, and the body is the
      passphrase of `k`. */
  predicate Readable(m: Message, k: LockedKey, ids: set<KeyId>) {
    && m.Message? && m.plain.Some? && DecryptKey(k, m.plain.value).Some?
    && exists i :: 0 <= i < |m.wrapped| && m.wrapped[i].recipient in ids && Good(m, i)
  }

  function Ids(keys: seq<PrivateKey>): set<KeyId> {
    set i | 0 <= i < |keys| :: keys[i].id
  }

  lemma {:induction false} FirstSessionIsTheFirstHit(wrapped: seq<Wrapped>, keys: seq<PrivateKey>) returns (i: nat)
    requires FirstSession(wrapped, keys).Some?
    ensures i < |wrapped| && wrapped[i].recipient in Ids(keys) && !Answered(wrapped, i, Ids(keys))
    ensures FirstSession(wrapped, keys) == Some(wrapped[i].session)
  {
    if HasKey(keys, wrapped[0].recipient) {
      i := 0;
    } else {
      i := FirstSessionIsTheFirstHit(wrapped[1..], keys);
      assert forall k :: 0 < k <= i ==> wrapped[k] == wrapped[1..][k - 1];
      i := i + 1;
    }
  }

  lemma {:induction false} HitIsFound(wrapped: seq<Wrapped>, keys: seq<PrivateKey>, i: nat)
    requires i < |wrapped| && wrapped[i].recipient in Ids(keys)
    ensures FirstSession(wrapped, keys).Some?
  {
    if !HasKey(keys, wrapped[0].recipient) {
      assert i > 0;
      assert wrapped[1..][i - 1] == wrapped[i];
      HitIsFound(wrapped[1..], keys, i - 1);
    }
  }

  /** Unlocking never succeeds without a recipient that can read the message. */
  lemma UnlockMeansReadable(m: Message, k: LockedKey, keys: seq<PrivateKey>)
    requires UnlockWith(m, k, keys).Some?
    ensures Readable(m, k, Ids(keys)) && k.LockedKey? && UnlockWith(m, k, keys) == Some(PrivateKey(k.id))
  {
    var i := FirstSessionIsTheFirstHit(m.wrapped, keys);
    assert Good(m, i);
  }

  lemma OrderlyUnlocks(m: Message, k: LockedKey, keys: seq<PrivateKey>)
    requires Orderly(m) && Readable(m, k, Ids(keys))
    ensures UnlockWith(m, k, keys).Some?
  {
    var j :| 0 <= j < |m.wrapped| && m.wrapped[j].recipient in Ids(keys) && Good(m, j);
    HitIsFound(m.wrapped, keys, j);
    var i := FirstSessionIsTheFirstHit(m.wrapped, keys);
    assert i <= j;
    assert !Answered(m.wrapped, i, {m.wrapped[i].recipient, m.wrapped[j].recipient});
  }

  lemma DisorderlyFails(m: Message, k: LockedKey) returns (keys: seq<PrivateKey>)
    requires m.Message? && m.plain.Some? && DecryptKey(k, m.plain.value).Some? && !Orderly(m)
    ensures |keys| == 2 && Readable(m, k, Ids(keys)) && UnlockWith(m, k, keys).None?
  {
    var i, j :| 0 <= i < j < |m.wrapped| && !Good(m, i) && Good(m, j)
                && !Answered(m.wrapped, i, {m.wrapped[i].recipient, m.wrapped[j].recipient});
    keys := [PrivateKey(m.wrapped[i].recipient), PrivateKey(m.wrapped[j].recipient)];
    assert keys[0].id in Ids(keys) && keys[1].id in Ids(keys);
    assert Ids(keys) == {m.wrapped[i].recipient, m.wrapped[j].recipient};
    HitIsFound(m.wrapped, keys, j);
    var first := FirstSessionIsTheFirstHit(m.wrapped, keys);
    assert first == i;
  }

  /** For a token that holds the passphrase of `k`: unlocking succeeds exactly when
      some recipient can read it, for every set of keys and in every order of them,
      if and only if the token is orderly. */
  lemma UnlockIsReadableExactlyWhenOrderly(m: Message, k: LockedKey)
    requires m.Message? && m.plain.Some? && DecryptKey(k, m.plain.value).Some?
    ensures Orderly(m) <==>
      forall keys: seq<PrivateKey> :: UnlockWith(m, k, keys).Some? <==> Readable(m, k, Ids(keys))
  {
    forall keys: seq<PrivateKey>
      ensures UnlockWith(m, k, keys).Some? ==> Readable(m, k, Ids(keys))
      ensures Orderly(m) && Readable(m, k, Ids(keys)) ==> UnlockWith(m, k, keys).Some?
    {
      if UnlockWith(m, k, keys).Some? {
        UnlockMeansReadable(m, k, keys);
      }
      if Orderly(m) && Readable(m, k, Ids(keys)) {
        OrderlyUnlocks(m, k, keys);
      }
    }
    if !Orderly(m) {
      var keys := DisorderlyFails(m, k);
      assert !(UnlockWith(m, k, keys).Some? <==> Readable(m, k, Ids(keys)));
    }
  }

  // ----- Helping keys must not hurt -------------------------------------------------------------

  /** Packet `i`, the first for its recipient, holds a wrong session key and stands before
      packet `j`, the first for its recipient, which holds the right one. */
  predicate Hides(m: Message, i: nat, j: nat) {
    && m.Message? && i < j < |m.wrapped| && !Good(m, i) && Good(m, j)
    && !Answered(m.wrapped, i, {m.wrapped[i].recipient}) && !Answered(m.wrapped, j, {m.wrapped[j].recipient})
  }

  /** No key can keep another from reading the message. */
  ghost predicate Steady(m: Message) {
    forall i: nat, j: nat :: !Hides(m, i, j)
  }

  lemma SteadyUnlocksMore(m: Message, k: LockedKey, keys: seq<PrivateKey>, more: seq<PrivateKey>)
    requires Steady(m) && Ids(keys) <= Ids(more) && UnlockWith(m, k, keys).Some?
    ensures UnlockWith(m, k, more).Some?
  {
    var j := FirstSessionIsTheFirstHit(m.wrapped, keys);
    HitIsFound(m.wrapped, more, j);
    var i := FirstSessionIsTheFirstHit(m.wrapped, more);
    assert Good(m, j);
    assert i <= j;
    assert !Answered(m.wrapped, i, {m.wrapped[i].recipient});
    assert !Answered(m.wrapped, j, {m.wrapped[j].recipient});
    assert !Hides(m, i, j);
  }

  lemma HiddenKeyIsLost(m: Message, k: LockedKey, i: nat, j: nat)
    requires Hides(m, i, j) && m.plain.Some? && DecryptKey(k, m.plain.value).Some?
    ensures m.wrapped[i].recipient != m.wrapped[j].recipient
    ensures UnlockWith(m, k, [PrivateKey(m.wrapped[j].recipient)]).Some?
    ensures UnlockWith(m, k, [PrivateKey(m.wrapped[j].recipient), PrivateKey(m.wrapped[i].recipient)]).None?
  {
    var one := [PrivateKey(m.wrapped[j].recipient)];
    var two := one + [PrivateKey(m.wrapped[i].recipient)];
    assert two == [PrivateKey(m.wrapped[j].recipient), PrivateKey(m.wrapped[i].recipient)];
    assert one[0].id in Ids(one) && two[0].id in Ids(two) && two[1].id in Ids(two);
    assert Ids(one) == {m.wrapped[j].recipient};
    assert Ids(two) == {m.wrapped[j].recipient, m.wrapped[i].recipient};
    HitIsFound(m.wrapped, one, j);
    HitIsFound(m.wrapped, two, i);
    var first := FirstSessionIsTheFirstHit(m.wrapped, one);
    assert first == j;
    var second := FirstSessionIsTheFirstHit(m.wrapped, two);
    assert second == i;
  }

  lemma OrderlyIsSteady(m: Message)
    requires Orderly(m)
    ensures Steady(m)
  {
  }

  /** ... and not conversely: two packets for one recipient, the wrong one first, can
      never be read, so the order of the keys does not matter for it. */
  lemma SteadyNeedNotBeOrderly(id: KeyId, wrong: SessionKey, right: SessionKey, plain: Option<string>)
    requires wrong != right
    ensures var m := Message([Wrapped(id, wrong), Wrapped(id, right)], right, plain); Steady(m) && !Orderly(m)
  {
    var m := Message([Wrapped(id, wrong), Wrapped(id, right)], right, plain);
    assert m.wrapped[0].recipient == id;
    assert Answered(m.wrapped, 1, {id});
    assert !Good(m, 0) && Good(m, 1);
    assert !Answered(m.wrapped, 0, {id, id});
  }
}
