/**
 The unlock of an account: which of its keys are tried, and what the caller gets. The
 entries of the user and of each address go through the cascade together.
 */
module AccountUnlock {
  import opened Results
  import opened PgpTerms
  import opened KeyCascade

  datatype AccountKey = AccountKey(key: LockedKey, token: Option<Message>, primary: int)

  datatype Address = Address(email: string, keys: seq<AccountKey>)

  datatype CascadeError = NothingUnlocked

  // ----- The work list -------------------------------------------------------------------

  function AsciiLower(s: string): string {
    seq(|s|, i requires 0 <= i < |s| => if 'A' <= s[i] <= 'Z' then s[i] + ('a' - 'A') else s[i])
  }

  /** The first key marked primary, else the first key. */
  function AddressKey(keys: seq<AccountKey>): Option<AccountKey> {
    if keys == [] then None
    else match FirstPrimary(keys)
      case Some(k) => Some(k)
      case None => Some(keys[0])
  }

  function FirstPrimary(keys: seq<AccountKey>): Option<AccountKey> {
    if keys == [] then None
    else if keys[0].primary == 1 then Some(keys[0])
    else FirstPrimary(keys[1..])
  }

  function UserWork(keys: seq<AccountKey>): seq<Pending> {
    seq(|keys|, i requires 0 <= i < |keys| => Pending(keys[i].key, keys[i].token, ToUser))
  }

  function AddressWork(addresses: seq<Address>): seq<Pending> {
    if addresses == [] then []
    else
      (match AddressKey(addresses[0].keys)
       case Some(k) => [Pending(k.key, k.token, ToAddress(AsciiLower(addresses[0].email)))]
       case None => []) + AddressWork(addresses[1..])
  }

  function Work(userKeys: seq<AccountKey>, addresses: seq<Address>): seq<Pending> {
    UserWork(userKeys) + AddressWork(addresses)
  }

  // ----- What opens, in the account's own terms ----------------------------------------------

  /** `low` is `s` with the letters A to Z, and no others, in lower case. */
  predicate IsLowerOf(low: string, s: string) {
    && |low| == |s|
    && forall i :: 0 <= i < |s| ==> low[i] as int == s[i] as int + (if 'A' <= s[i] <= 'Z' then 32 else 0)
  }

  /** The key of an address that is tried: the first marked primary, or the first key when
      none is. */
  predicate IsChosen(keys: seq<AccountKey>, i: nat) {
    && i < |keys|
    && ((keys[i].primary == 1 && forall k :: 0 <= k < i ==> keys[k].primary != 1)
        || (i == 0 && forall k :: 0 <= k < |keys| ==> keys[k].primary != 1))
  }

  ghost predicate IsChosenKey(addresses: seq<Address>, a: nat, i: nat, k: AccountKey) {
    a < |addresses| && IsChosen(addresses[a].keys, i) && addresses[a].keys[i] == k
  }

  /** The keys that are tried: all of the user's, and one of each address. */
  ghost predicate Tried(userKeys: seq<AccountKey>, addresses: seq<Address>, k: AccountKey) {
    k in userKeys || exists a: nat, i: nat :: IsChosenKey(addresses, a, i, k)
  }

  predicate OpensWith(k: AccountKey, password: string) {
    k.key.LockedKey? && k.key.lock == password
  }

  /** Opens with the password, or with its token, which a key in `ids` can read. */
  predicate OpensAmong(k: AccountKey, password: string, ids: set<KeyId>) {
    OpensWith(k, password) || (k.key.LockedKey? && k.token.Some? && Gives(k.token.value, k.key.lock, ids))
  }

  /** Some recipient among `ids` was given the session key of this passphrase. */
  predicate Gives(m: Message, passphrase: string, ids: set<KeyId>) {
    && m.Message? && m.plain == Some(passphrase)
    && exists i :: 0 <= i < |m.wrapped| && m.wrapped[i].recipient in ids && m.wrapped[i].session == m.session
  }

  ghost predicate TokensOrderly(userKeys: seq<AccountKey>, addresses: seq<Address>) {
    forall k :: Tried(userKeys, addresses, k) && k.token.Some? ==> Orderly(k.token.value)
  }

  ghost predicate ClosedFor(userKeys: seq<AccountKey>, addresses: seq<Address>, password: string, ids: set<KeyId>) {
    forall k :: Tried(userKeys, addresses, k) && OpensAmong(k, password, ids) ==> k.key.id in ids
  }

  /** `ids` are the keys that unlock: least among the closed sets, and closed itself when
      the tokens are orderly. */
  ghost predicate Unlocks(userKeys: seq<AccountKey>, addresses: seq<Address>, password: string, ids: set<KeyId>) {
    && (forall other: set<KeyId> :: ClosedFor(userKeys, addresses, password, other) ==> ids <= other)
    && (TokensOrderly(userKeys, addresses) ==> ClosedFor(userKeys, addresses, password, ids))
  }

  predicate UserOpens(userKeys: seq<AccountKey>, i: nat, id: KeyId, password: string, ids: set<KeyId>) {
    i < |userKeys| && OpensAmong(userKeys[i], password, ids) && userKeys[i].key.id == id
  }

  /** The keys returned for the user are those of the user's entries that open. */
  ghost predicate UsersAre(userKeys: seq<AccountKey>, addresses: seq<Address>, password: string, ids: set<KeyId>,
                           users: seq<PrivateKey>)
  {
    forall id: KeyId ::
      && (PrivateKey(id) in users ==> exists i: nat :: UserOpens(userKeys, i, id, password, ids))
      && (TokensOrderly(userKeys, addresses) && (exists i: nat :: UserOpens(userKeys, i, id, password, ids)) ==>
            PrivateKey(id) in users)
  }

  /** The chosen key of address `a`, whose email is `email` but for case, is `id` and opens. */
  predicate AddressOpens(addresses: seq<Address>, a: nat, i: nat, email: string, id: KeyId, password: string,
                         ids: set<KeyId>)
  {
    && a < |addresses| && IsLowerOf(email, addresses[a].email) && IsChosen(addresses[a].keys, i)
    && OpensAmong(addresses[a].keys[i], password, ids) && addresses[a].keys[i].key.id == id
  }

  /** A lower-case email has a key exactly when the chosen key of some address with that
      email opens, and has the key of such an address. */
  ghost predicate AddressesAre(userKeys: seq<AccountKey>, addresses: seq<Address>, password: string, ids: set<KeyId>,
                               byEmail: map<string, PrivateKey>)
  {
    forall email: string ::
      && (email in byEmail ==>
            exists a: nat, i: nat :: AddressOpens(addresses, a, i, email, byEmail[email].id, password, ids))
      && (TokensOrderly(userKeys, addresses)
          && (exists a: nat, i: nat, id: KeyId :: AddressOpens(addresses, a, i, email, id, password, ids)) ==>
            email in byEmail)
  }

  // ----- The unlock ----------------------------------------------------------------------------

  /** Fails exactly when no key that is tried opens with the password. */
  method CascadeUnlock(userKeys: seq<AccountKey>, addresses: seq<Address>, password: string)
      returns (r: Result<(seq<PrivateKey>, map<string, PrivateKey>), CascadeError>, ghost ids: set<KeyId>)
    ensures
      var done := Cascade(Work(userKeys, addresses), password);
      r == if done.filed == [] then Err(NothingUnlocked) else Ok((UserKeys(done.filed), AddressKeys(done.filed)))
    ensures r.Err? <==> forall k :: Tried(userKeys, addresses, k) ==> !OpensWith(k, password)
    ensures Unlocks(userKeys, addresses, password, ids)
    ensures r.Ok? ==> UsersAre(userKeys, addresses, password, ids, r.value.0)
    ensures r.Ok? ==> AddressesAre(userKeys, addresses, password, ids, r.value.1)
  {
    var pending := Work(userKeys, addresses);
    ghost var goal := Cascade(pending, password);
    ids := FiledIds(goal.filed);
    ResultOfAccount(userKeys, addresses, password);
    ghost var filed := DirectRound(pending, password).filed;
    var keys;
    keys, pending := DirectPass(pending, password);
    while pending != [] && keys.pool != []
      invariant Rounds(Progress(filed, pending)) == goal
      invariant keys == Filed(filed)
      decreases |pending|
    {
      TokenRoundShrinks(filed, pending);
      RoundsStep(Progress(filed, pending));
      ghost var round := TokenRound(filed, pending);
      var progress;
      progress, keys, pending := TokenPass(pending, keys, filed);
      filed := round.filed;
      if !progress {
        break;
      }
    }
    SomethingFiled(filed);
    if keys.users == [] && keys.byEmail == map[] {
      r := Err(NothingUnlocked);
      return;
    }
    r := Ok((keys.users, keys.byEmail));
  }

  // ----- From the work list to the account -----------------------------------------------------

  lemma LowerIsLower(s: string, low: string)
    ensures low == AsciiLower(s) <==> IsLowerOf(low, s)
  {
    if IsLowerOf(low, s) {
      forall i | 0 <= i < |s| ensures low[i] == AsciiLower(s)[i] {
        assert AsciiLower(s)[i] as int == low[i] as int;
      }
    }
  }

  lemma {:induction false} ChosenIsFirstPrimary(keys: seq<AccountKey>)
    ensures FirstPrimary(keys).None? <==> forall k :: 0 <= k < |keys| ==> keys[k].primary != 1
    ensures forall i :: 0 <= i < |keys| && keys[i].primary == 1 && (forall k :: 0 <= k < i ==> keys[k].primary != 1) ==>
      FirstPrimary(keys) == Some(keys[i])
    ensures FirstPrimary(keys).Some? ==>
      exists i :: 0 <= i < |keys| && keys[i].primary == 1 && forall k :: 0 <= k < i ==> keys[k].primary != 1
  {
    if keys != [] && keys[0].primary != 1 {
      var rest := keys[1..];
      ChosenIsFirstPrimary(rest);
      assert forall k :: 1 <= k < |keys| ==> keys[k] == rest[k - 1];
      if FirstPrimary(rest).Some? {
        var i :| 0 <= i < |rest| && rest[i].primary == 1 && forall k :: 0 <= k < i ==> rest[k].primary != 1;
        assert keys[i + 1].primary == 1;
      }
      forall i | 0 <= i < |keys| && keys[i].primary == 1 && (forall k :: 0 <= k < i ==> keys[k].primary != 1)
        ensures FirstPrimary(keys) == Some(keys[i])
      {
        assert rest[i - 1] == keys[i];
        assert forall k :: 0 <= k < i - 1 ==> rest[k] == keys[k + 1];
      }
    }
  }

  /** The key of an address that is tried is the chosen one. */
  lemma AddressKeyIsChosen(keys: seq<AccountKey>)
    ensures AddressKey(keys).None? <==> keys == []
    ensures forall i: nat :: IsChosen(keys, i) ==> AddressKey(keys) == Some(keys[i])
    ensures keys != [] ==> exists i: nat :: IsChosen(keys, i)
  {
    ChosenIsFirstPrimary(keys);
    if keys != [] {
      if FirstPrimary(keys).Some? {
        var i :| 0 <= i < |keys| && keys[i].primary == 1 && forall k :: 0 <= k < i ==> keys[k].primary != 1;
        assert IsChosen(keys, i);
      } else {
        assert IsChosen(keys, 0);
      }
    }
  }

  function Entry(address: Address, i: nat): Pending
    requires i < |address.keys|
  {
    Pending(address.keys[i].key, address.keys[i].token, ToAddress(AsciiLower(address.email)))
  }

  ghost predicate FromAddress(addresses: seq<Address>, a: nat, i: nat, p: Pending) {
    a < |addresses| && IsChosen(addresses[a].keys, i) && p == Entry(addresses[a], i)
  }

  lemma {:induction false} AddressEntries(addresses: seq<Address>, p: Pending)
    ensures p in AddressWork(addresses) <==> exists a: nat, i: nat :: FromAddress(addresses, a, i, p)
  {
    if addresses != [] {
      var first, rest := addresses[0], addresses[1..];
      AddressEntries(rest, p);
      AddressKeyIsChosen(first.keys);
      if p in AddressWork(rest) {
        var a: nat, i: nat :| FromAddress(rest, a, i, p);
        assert FromAddress(addresses, a + 1, i, p);
      } else if p in AddressWork(addresses) {
        var i: nat :| IsChosen(first.keys, i);
        assert FromAddress(addresses, 0, i, p);
      }
      if a: nat, i: nat :| FromAddress(addresses, a, i, p) {
        if a > 0 {
          assert FromAddress(rest, a - 1, i, p);
        }
      }
    }
  }

  lemma UserEntries(keys: seq<AccountKey>, p: Pending)
    ensures p in UserWork(keys) <==> exists i :: 0 <= i < |keys| && p == Pending(keys[i].key, keys[i].token, ToUser)
  {
    forall i | 0 <= i < |keys| && p == Pending(keys[i].key, keys[i].token, ToUser) ensures p in UserWork(keys) {
      assert UserWork(keys)[i] == p;
    }
  }

  lemma OpensIsOpens(k: AccountKey, dest: Dest, password: string, ids: set<KeyId>)
    ensures var p := Pending(k.key, k.token, dest);
      && (OpensAmong(k, password, ids) <==> Opens(p, password, ids))
      && (OpensWith(k, password) <==> OpensDirectly(p, password).Some?)
      && (OpensAmong(k, password, ids) ==> KeyOf(p) == PrivateKey(k.key.id))
  {
    if k.token.Some? && k.token.value.Message? {
      var m := k.token.value;
      assert forall i :: 0 <= i < |m.wrapped| ==> (Good(m, i) <==> m.wrapped[i].session == m.session);
    }
  }

  /** An entry of the work list stands for a key that is tried, and each such key has one. */
  lemma EntryOfKey(userKeys: seq<AccountKey>, addresses: seq<Address>, k: AccountKey) returns (p: Pending)
    requires Tried(userKeys, addresses, k)
    ensures p in Work(userKeys, addresses) && p == Pending(k.key, k.token, p.dest)
  {
    if k in userKeys {
      p := Pending(k.key, k.token, ToUser);
      UserEntries(userKeys, p);
    } else {
      var a: nat, i: nat :| IsChosenKey(addresses, a, i, k);
      p := Entry(addresses[a], i);
      assert FromAddress(addresses, a, i, p);
      AddressEntries(addresses, p);
    }
  }

  lemma KeyOfEntry(userKeys: seq<AccountKey>, addresses: seq<Address>, p: Pending) returns (k: AccountKey)
    requires p in Work(userKeys, addresses)
    ensures Tried(userKeys, addresses, k) && p == Pending(k.key, k.token, p.dest)
  {
    if p in UserWork(userKeys) {
      UserEntries(userKeys, p);
      var i :| 0 <= i < |userKeys| && p == Pending(userKeys[i].key, userKeys[i].token, ToUser);
      k := userKeys[i];
    } else {
      AddressEntries(addresses, p);
      var a: nat, i: nat :| FromAddress(addresses, a, i, p);
      k := addresses[a].keys[i];
      assert IsChosenKey(addresses, a, i, k);
    }
  }

  lemma OrderlyWork(userKeys: seq<AccountKey>, addresses: seq<Address>)
    requires TokensOrderly(userKeys, addresses)
    ensures AllOrderly(Work(userKeys, addresses))
  {
    forall p | p in Work(userKeys, addresses) && p.token.Some? ensures Orderly(p.token.value) {
      var k := KeyOfEntry(userKeys, addresses, p);
    }
  }

  lemma ClosedWork(userKeys: seq<AccountKey>, addresses: seq<Address>, password: string, ids: set<KeyId>)
    ensures ClosedFor(userKeys, addresses, password, ids) <==> Closed(Work(userKeys, addresses), password, ids)
  {
    if ClosedFor(userKeys, addresses, password, ids) {
      forall p | p in Work(userKeys, addresses) && Opens(p, password, ids) ensures KeyOf(p).id in ids {
        var k := KeyOfEntry(userKeys, addresses, p);
        OpensIsOpens(k, p.dest, password, ids);
      }
    }
    if Closed(Work(userKeys, addresses), password, ids) {
      forall k | Tried(userKeys, addresses, k) && OpensAmong(k, password, ids) ensures k.key.id in ids {
        var p := EntryOfKey(userKeys, addresses, k);
        OpensIsOpens(k, p.dest, password, ids);
      }
    }
  }

  lemma UnlockedIds(userKeys: seq<AccountKey>, addresses: seq<Address>, password: string)
    ensures Unlocks(userKeys, addresses, password, FiledIds(Cascade(Work(userKeys, addresses), password).filed))
  {
    var work := Work(userKeys, addresses);
    var ids := FiledIds(Cascade(work, password).filed);
    CascadeIsSound(work, password);
    forall other: set<KeyId> | ClosedFor(userKeys, addresses, password, other) ensures ids <= other {
      ClosedWork(userKeys, addresses, password, other);
    }
    if TokensOrderly(userKeys, addresses) {
      OrderlyWork(userKeys, addresses);
      CascadeIsTheLeastFixpoint(work, password);
      ClosedWork(userKeys, addresses, password, ids);
    }
  }

  /** An entry that is filed opens, and with orderly tokens one that opens is filed. */
  lemma FiledExactlyWhenItOpens(userKeys: seq<AccountKey>, addresses: seq<Address>, password: string, p: Pending)
    requires p in Work(userKeys, addresses)
    ensures var filed := Cascade(Work(userKeys, addresses), password).filed;
      && (p in filed ==> Opens(p, password, FiledIds(filed)))
      && (TokensOrderly(userKeys, addresses) && Opens(p, password, FiledIds(filed)) ==> p in filed)
  {
    CascadeIsSound(Work(userKeys, addresses), password);
    if TokensOrderly(userKeys, addresses) {
      OrderlyWork(userKeys, addresses);
      CascadeIsTheLeastFixpoint(Work(userKeys, addresses), password);
    }
  }

  lemma ReturnedUsers(userKeys: seq<AccountKey>, addresses: seq<Address>, password: string)
    ensures var filed := Cascade(Work(userKeys, addresses), password).filed;
      UsersAre(userKeys, addresses, password, FiledIds(filed), UserKeys(filed))
  {
    var work := Work(userKeys, addresses);
    var filed := Cascade(work, password).filed;
    var ids := FiledIds(filed);
    FiledAreFromTodo(work, password);
    forall id: KeyId
      ensures PrivateKey(id) in UserKeys(filed) ==> exists i: nat :: UserOpens(userKeys, i, id, password, ids)
      ensures TokensOrderly(userKeys, addresses) && (exists i: nat :: UserOpens(userKeys, i, id, password, ids)) ==>
        PrivateKey(id) in UserKeys(filed)
    {
      UserKeysAreFiled(filed, PrivateKey(id));
      if PrivateKey(id) in UserKeys(filed) {
        var p :| p in filed && p.dest.ToUser? && KeyOf(p) == PrivateKey(id);
        FiledExactlyWhenItOpens(userKeys, addresses, password, p);
        var i := UserOfEntry(userKeys, addresses, p);
        OpensIsOpens(userKeys[i], ToUser, password, ids);
        assert UserOpens(userKeys, i, id, password, ids);
      }
      if TokensOrderly(userKeys, addresses) {
        if i: nat :| UserOpens(userKeys, i, id, password, ids) {
          var p := Pending(userKeys[i].key, userKeys[i].token, ToUser);
          UserEntries(userKeys, p);
          OpensIsOpens(userKeys[i], ToUser, password, ids);
          FiledExactlyWhenItOpens(userKeys, addresses, password, p);
        }
      }
    }
  }

  lemma UserOfEntry(userKeys: seq<AccountKey>, addresses: seq<Address>, p: Pending) returns (i: nat)
    requires p in Work(userKeys, addresses) && p.dest.ToUser?
    ensures i < |userKeys| && p == Pending(userKeys[i].key, userKeys[i].token, ToUser)
  {
    AddressEntries(addresses, p);
    UserEntries(userKeys, p);
    i :| i < |userKeys| && p == Pending(userKeys[i].key, userKeys[i].token, ToUser);
  }

  lemma AddressOfEntry(userKeys: seq<AccountKey>, addresses: seq<Address>, p: Pending) returns (a: nat, i: nat)
    requires p in Work(userKeys, addresses) && p.dest.ToAddress?
    ensures FromAddress(addresses, a, i, p)
  {
    AddressEntries(addresses, p);
    UserEntries(userKeys, p);
    a, i :| FromAddress(addresses, a, i, p);
  }

  lemma ReturnedAddresses(userKeys: seq<AccountKey>, addresses: seq<Address>, password: string)
    ensures var filed := Cascade(Work(userKeys, addresses), password).filed;
      AddressesAre(userKeys, addresses, password, FiledIds(filed), AddressKeys(filed))
  {
    var work := Work(userKeys, addresses);
    var filed := Cascade(work, password).filed;
    var ids := FiledIds(filed);
    FiledAreFromTodo(work, password);
    forall email: string
      ensures email in AddressKeys(filed) ==>
        exists a: nat, i: nat :: AddressOpens(addresses, a, i, email, AddressKeys(filed)[email].id, password, ids)
      ensures TokensOrderly(userKeys, addresses)
              && (exists a: nat, i: nat, id: KeyId :: AddressOpens(addresses, a, i, email, id, password, ids)) ==>
        email in AddressKeys(filed)
    {
      AddressKeysAreFiled(filed, email);
      if email in AddressKeys(filed) {
        var p :| p in filed && p.dest == ToAddress(email) && KeyOf(p) == AddressKeys(filed)[email];
        FiledExactlyWhenItOpens(userKeys, addresses, password, p);
        var a, i := AddressOfEntry(userKeys, addresses, p);
        OpensIsOpens(addresses[a].keys[i], p.dest, password, ids);
        LowerIsLower(addresses[a].email, email);
        assert AddressOpens(addresses, a, i, email, AddressKeys(filed)[email].id, password, ids);
      }
      if TokensOrderly(userKeys, addresses) {
        if a: nat, i: nat, id: KeyId :| AddressOpens(addresses, a, i, email, id, password, ids) {
          var p := Entry(addresses[a], i);
          assert FromAddress(addresses, a, i, p);
          AddressEntries(addresses, p);
          OpensIsOpens(addresses[a].keys[i], p.dest, password, ids);
          LowerIsLower(addresses[a].email, email);
          FiledExactlyWhenItOpens(userKeys, addresses, password, p);
        }
      }
    }
  }

  lemma NothingFiledExactlyWhen(userKeys: seq<AccountKey>, addresses: seq<Address>, password: string)
    ensures Cascade(Work(userKeys, addresses), password).filed == [] <==>
      forall k :: Tried(userKeys, addresses, k) ==> !OpensWith(k, password)
  {
    var work := Work(userKeys, addresses);
    FiledFirst(work, password);
    if k :| Tried(userKeys, addresses, k) && OpensWith(k, password) {
      var p := EntryOfKey(userKeys, addresses, k);
      OpensIsOpens(k, p.dest, password, {});
    }
    if p :| p in work && OpensDirectly(p, password).Some? {
      var k := KeyOfEntry(userKeys, addresses, p);
      OpensIsOpens(k, p.dest, password, {});
    }
  }

  /** Nothing is filed in the end exactly when nothing opens with the password. */
  lemma FiledFirst(work: seq<Pending>, password: string)
    ensures Cascade(work, password).filed == [] <==> forall p :: p in work ==> OpensDirectly(p, password).None?
  {
    NoneOpensDirectly(work, password);
    DirectRoundIsSound(work, password, work);
    FirstPending(work, password);
    RoundsAreSound(DirectRound(work, password), password, work);
  }

  lemma {:induction false} NoneOpensDirectly(work: seq<Pending>, password: string)
    ensures DirectRound(work, password).filed == [] <==> forall p :: p in work ==> OpensDirectly(p, password).None?
  {
    if work != [] {
      var k := |work| - 1;
      NoneOpensDirectly(work[..k], password);
      assert work == work[..k] + [work[k]];
    }
  }

  lemma ResultOfAccount(userKeys: seq<AccountKey>, addresses: seq<Address>, password: string)
    ensures var filed := Cascade(Work(userKeys, addresses), password).filed;
      && (filed == [] <==> forall k :: Tried(userKeys, addresses, k) ==> !OpensWith(k, password))
      && Unlocks(userKeys, addresses, password, FiledIds(filed))
      && UsersAre(userKeys, addresses, password, FiledIds(filed), UserKeys(filed))
      && AddressesAre(userKeys, addresses, password, FiledIds(filed), AddressKeys(filed))
  {
    NothingFiledExactlyWhen(userKeys, addresses, password);
    UnlockedIds(userKeys, addresses, password);
    ReturnedUsers(userKeys, addresses, password);
    ReturnedAddresses(userKeys, addresses, password);
  }

  /** With one address for an email, its key is the first marked primary, else the first. */
  lemma KeyOfSoleAddress(userKeys: seq<AccountKey>, addresses: seq<Address>, password: string, ids: set<KeyId>,
                         byEmail: map<string, PrivateKey>, email: string, a: nat, i: nat)
    requires AddressesAre(userKeys, addresses, password, ids, byEmail) && TokensOrderly(userKeys, addresses)
    requires a < |addresses| && IsLowerOf(email, addresses[a].email) && IsChosen(addresses[a].keys, i)
    requires forall b :: 0 <= b < |addresses| && b != a ==> !IsLowerOf(email, addresses[b].email)
    ensures email in byEmail <==> OpensAmong(addresses[a].keys[i], password, ids)
    ensures email in byEmail ==> byEmail[email] == PrivateKey(addresses[a].keys[i].key.id)
  {
    AddressKeyIsChosen(addresses[a].keys);
    if email in byEmail {
      var b: nat, j: nat :| AddressOpens(addresses, b, j, email, byEmail[email].id, password, ids);
      assert b == a && addresses[a].keys[j] == addresses[a].keys[i];
    } else if OpensAmong(addresses[a].keys[i], password, ids) {
      assert AddressOpens(addresses, a, i, email, addresses[a].keys[i].key.id, password, ids);
    }
  }
}
