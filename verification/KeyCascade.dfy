/**
 The cascading unlock of account keys: first with the mailbox password, then in
 rounds with tokens that keys unlocked so far can read.
 */
module KeyCascade {
  import opened Results
  import opened PgpTerms

  datatype Dest = ToUser | ToAddress(email: string)

  datatype Pending = Pending(key: LockedKey, token: Option<Message>, dest: Dest)

  // ----- Rounds ----------------------------------------------------------------------------

  /** The entries filed so far, in the order they were unlocked, and the rest. */
  datatype Progress = Progress(filed: seq<Pending>, pending: seq<Pending>)

  function KeyOf(p: Pending): PrivateKey {
    PrivateKey(if p.key.LockedKey? then p.key.id else 0)
  }

  function Pool(filed: seq<Pending>): seq<PrivateKey> {
    seq(|filed|, i requires 0 <= i < |filed| => KeyOf(filed[i]))
  }

  function OpensDirectly(p: Pending, password: string): Option<PrivateKey> {
    DecryptKey(p.key, password)
  }

  function OpensByToken(p: Pending, pool: seq<PrivateKey>): Option<PrivateKey> {
    match p.token
    case None => None
    case Some(token) => UnlockWith(token, p.key, pool)
  }

  function DirectRound(todo: seq<Pending>, password: string): Progress {
    if todo == [] then Progress([], [])
    else
      var k := |todo| - 1;
      var before := DirectRound(todo[..k], password);
      if OpensDirectly(todo[k], password).Some?
      then before.(filed := before.filed + [todo[k]])
      else before.(pending := before.pending + [todo[k]])
  }

  /** One pass over the pending entries; what unlocks helps those after it. */
  function TokenRound(filed: seq<Pending>, todo: seq<Pending>): Progress {
    if todo == [] then Progress(filed, [])
    else
      var k := |todo| - 1;
      var before := TokenRound(filed, todo[..k]);
      if OpensByToken(todo[k], Pool(before.filed)).Some?
      then before.(filed := before.filed + [todo[k]])
      else before.(pending := before.pending + [todo[k]])
  }

  lemma {:induction false} TokenRoundShrinks(filed: seq<Pending>, todo: seq<Pending>)
    ensures var r := TokenRound(filed, todo);
      && |r.filed| + |r.pending| == |filed| + |todo| && filed <= r.filed
      && (r.filed != filed ==> |r.pending| < |todo|)
  {
    if todo != [] {
      TokenRoundShrinks(filed, todo[..|todo| - 1]);
    }
  }

  /** Rounds until nothing is pending, nothing is unlocked, or a round is idle. */
  function Rounds(p: Progress): Progress
    decreases |p.pending|
  {
    if p.pending == [] || p.filed == [] then p
    else
      var r := TokenRound(p.filed, p.pending);
      TokenRoundShrinks(p.filed, p.pending);
      if r.filed == p.filed then r else Rounds(r)
  }

  function Cascade(todo: seq<Pending>, password: string): Progress {
    Rounds(DirectRound(todo, password))
  }

  function UserKeys(filed: seq<Pending>): seq<PrivateKey> {
    if filed == [] then []
    else
      var k := |filed| - 1;
      UserKeys(filed[..k]) + (if filed[k].dest.ToUser? then [KeyOf(filed[k])] else [])
  }

  function AddressKeys(filed: seq<Pending>): map<string, PrivateKey> {
    if filed == [] then map[]
    else
      var k := |filed| - 1;
      var before := AddressKeys(filed[..k]);
      if filed[k].dest.ToAddress? then before[filed[k].dest.email := KeyOf(filed[k])] else before
  }

  // ----- The loops ----------------------------------------------------------------------------

  /** The keys unlocked so far: all of them, and filed by destination. */
  datatype Unlocked = Unlocked(pool: seq<PrivateKey>, users: seq<PrivateKey>, byEmail: map<string, PrivateKey>)

  method File(dest: Dest, key: PrivateKey, before: Unlocked) returns (after: Unlocked)
    ensures after.pool == before.pool + [key]
    ensures after.users == if dest.ToUser? then before.users + [key] else before.users
    ensures after.byEmail == if dest.ToAddress? then before.byEmail[dest.email := key] else before.byEmail
  {
    var pool, users, byEmail := before.pool + [key], before.users, before.byEmail;
    match dest {
      case ToUser => users := users + [key];
      case ToAddress(email) => byEmail := byEmail[email := key];
    }
    after := Unlocked(pool, users, byEmail);
  }

  method DirectPass(pending: seq<Pending>, password: string) returns (keys: Unlocked, stillPending: seq<Pending>)
    ensures var r := DirectRound(pending, password);
      stillPending == r.pending && keys == Filed(r.filed)
  {
    keys, stillPending := Unlocked([], [], map[]), [];
    ghost var filed: seq<Pending> := [];
    assert keys == Filed(filed);
    for i := 0 to |pending|
      invariant DirectRound(pending[..i], password) == Progress(filed, stillPending)
      invariant keys == Filed(filed)
    {
      assert pending[..i + 1][..i] == pending[..i];
      var found := DecryptKey(pending[i].key, password);
      if found.Some? {
        FileKeeps(filed, pending[i]);
        keys := File(pending[i].dest, found.value, keys);
        filed := filed + [pending[i]];
      } else {
        stillPending := stillPending + [pending[i]];
      }
    }
    assert pending[..|pending|] == pending;
  }

  method TokenPass(pending: seq<Pending>, keys: Unlocked, ghost filed: seq<Pending>)
      returns (progress: bool, keys': Unlocked, nextPending: seq<Pending>)
    requires keys == Filed(filed)
    ensures var r := TokenRound(filed, pending);
      nextPending == r.pending && keys' == Filed(r.filed) && (progress <==> r.filed != filed)
  {
    progress, keys', nextPending := false, keys, [];
    ghost var now := filed;
    for i := 0 to |pending|
      invariant TokenRound(filed, pending[..i]) == Progress(now, nextPending)
      invariant keys' == Filed(now)
      invariant progress <==> |now| > |filed|
      invariant |filed| <= |now|
    {
      assert pending[..i + 1][..i] == pending[..i];
      var found := OpensByToken(pending[i], keys'.pool);
      if found.Some? {
        OpensAsItself(pending[i], keys'.pool);
        FileKeeps(now, pending[i]);
        keys' := File(pending[i].dest, found.value, keys');
        now := now + [pending[i]];
        progress := true;
      } else {
        nextPending := nextPending + [pending[i]];
      }
    }
    assert pending[..|pending|] == pending;
    TokenRoundShrinks(filed, pending);
  }

  /** The pool and the two results are those of the filed entries. */
  ghost function Filed(filed: seq<Pending>): Unlocked {
    Unlocked(Pool(filed), UserKeys(filed), AddressKeys(filed))
  }

  lemma FileKeeps(filed: seq<Pending>, p: Pending)
    ensures Pool(filed + [p]) == Pool(filed) + [KeyOf(p)]
    ensures UserKeys(filed + [p]) == if p.dest.ToUser? then UserKeys(filed) + [KeyOf(p)] else UserKeys(filed)
    ensures AddressKeys(filed + [p]) ==
      if p.dest.ToAddress? then AddressKeys(filed)[p.dest.email := KeyOf(p)] else AddressKeys(filed)
  {
    assert (filed + [p])[..|filed|] == filed;
  }

  lemma OpensAsItself(p: Pending, pool: seq<PrivateKey>)
    requires OpensByToken(p, pool).Some?
    ensures OpensByToken(p, pool) == Some(KeyOf(p))
  {
    UnlockMeansReadable(p.token.value, p.key, pool);
  }

  lemma SomethingFiled(filed: seq<Pending>)
    ensures UserKeys(filed) == [] && AddressKeys(filed) == map[] <==> filed == []
  {
    if filed != [] {
      var k := |filed| - 1;
      if filed[k].dest.ToAddress? {
        assert filed[k].dest.email in AddressKeys(filed);
      }
    }
  }

  // ----- The least fixpoint ------------------------------------------------------------------

  /** Opens with the password, or has a token that some key in `ids` can read. */
  predicate Opens(p: Pending, password: string, ids: set<KeyId>) {
    OpensDirectly(p, password).Some? || (p.token.Some? && Readable(p.token.value, p.key, ids))
  }

  /** Nothing outside `ids` opens with the help of `ids`. */
  ghost predicate Closed(todo: seq<Pending>, password: string, ids: set<KeyId>) {
    forall p | p in todo :: Opens(p, password, ids) ==> KeyOf(p).id in ids
  }

  function FiledIds(filed: seq<Pending>): set<KeyId> {
    set p | p in filed :: KeyOf(p).id
  }

  predicate AllOrderly(todo: seq<Pending>) {
    forall p | p in todo :: p.token.Some? ==> Orderly(p.token.value)
  }

  lemma PoolIds(filed: seq<Pending>)
    ensures Ids(Pool(filed)) == FiledIds(filed)
  {
    forall id | id in FiledIds(filed) ensures id in Ids(Pool(filed)) {
      var p :| p in filed && KeyOf(p).id == id;
      var i :| 0 <= i < |filed| && filed[i] == p;
      assert Pool(filed)[i].id == id;
    }
  }

  /** What has been filed is opened by what was filed, and lies in every closed set. */
  ghost predicate Sound(filed: seq<Pending>, password: string, todo: seq<Pending>) {
    && (forall p | p in filed :: Opens(p, password, FiledIds(filed)))
    && (forall ids | Closed(todo, password, ids) :: FiledIds(filed) <= ids)
  }

  lemma FilingIsSound(filed: seq<Pending>, p: Pending, password: string, todo: seq<Pending>)
    requires Sound(filed, password, todo) && p in todo && Opens(p, password, FiledIds(filed))
    ensures Sound(filed + [p], password, todo)
  {
    var more := FiledIds(filed + [p]);
    assert more == FiledIds(filed) + {KeyOf(p).id};
    forall q | q in filed + [p] ensures Opens(q, password, more) {
      assert Opens(q, password, FiledIds(filed));
    }
    forall ids | Closed(todo, password, ids) ensures more <= ids {
      assert FiledIds(filed) <= ids;
      assert Opens(p, password, ids);
    }
  }

  lemma {:induction false} DirectRoundIsSound(part: seq<Pending>, password: string, todo: seq<Pending>)
    requires forall p | p in part :: p in todo
    ensures var r := DirectRound(part, password);
      && Sound(r.filed, password, todo)
      && multiset(r.filed + r.pending) == multiset(part)
      && forall p | p in r.pending :: OpensDirectly(p, password).None?
  {
    if part != [] {
      var k := |part| - 1;
      DirectRoundIsSound(part[..k], password, todo);
      assert part == part[..k] + [part[k]];
      var before := DirectRound(part[..k], password);
      if OpensDirectly(part[k], password).Some? {
        FilingIsSound(before.filed, part[k], password, todo);
      }
    }
  }

  lemma {:induction false} TokenRoundIsSound(filed: seq<Pending>, part: seq<Pending>, password: string,
      todo: seq<Pending>)
    requires Sound(filed, password, todo) && forall p | p in part :: p in todo
    ensures var r := TokenRound(filed, part);
      && Sound(r.filed, password, todo)
      && forall p | p in r.pending :: p in part
  {
    if part != [] {
      var k := |part| - 1;
      TokenRoundIsSound(filed, part[..k], password, todo);
      assert part == part[..k] + [part[k]];
      var before := TokenRound(filed, part[..k]);
      if OpensByToken(part[k], Pool(before.filed)).Some? {
        UnlockMeansReadable(part[k].token.value, part[k].key, Pool(before.filed));
        PoolIds(before.filed);
        FilingIsSound(before.filed, part[k], password, todo);
      }
    }
  }

  lemma {:induction false} TokenRoundConserves(filed: seq<Pending>, part: seq<Pending>)
    ensures var r := TokenRound(filed, part);
      multiset(r.filed + r.pending) == multiset(filed + part)
  {
    if part != [] {
      var k := |part| - 1;
      TokenRoundConserves(filed, part[..k]);
      var before := TokenRound(filed, part[..k]);
      assert filed + part == (filed + part[..k]) + [part[k]];
      if OpensByToken(part[k], Pool(before.filed)).Some? {
        MovedForward(before.filed, part[k], before.pending);
      } else {
        assert before.filed + (before.pending + [part[k]]) == (before.filed + before.pending) + [part[k]];
      }
    } else {
      assert TokenRound(filed, part).filed + TokenRound(filed, part).pending == filed + part;
    }
  }

  lemma MovedForward(a: seq<Pending>, p: Pending, b: seq<Pending>)
    ensures multiset((a + [p]) + b) == multiset(a + b) + multiset{p}
  {
  }

  /** A round that files nothing has tried every entry against the same pool. */
  lemma {:induction false} IdleRound(filed: seq<Pending>, part: seq<Pending>)
    requires TokenRound(filed, part).filed == filed
    ensures TokenRound(filed, part).pending == part
    ensures forall p | p in part :: OpensByToken(p, Pool(filed)).None?
  {
    if part != [] {
      var k := |part| - 1;
      TokenRoundShrinks(filed, part[..k]);
      assert part == part[..k] + [part[k]];
      IdleRound(filed, part[..k]);
    }
  }

  /** Nothing still pending opens. */
  ghost predicate Settled(p: Progress, password: string) {
    forall q | q in p.pending :: !Opens(q, password, FiledIds(p.filed))
  }

  lemma ExitIsSettled(p: Progress, password: string)
    requires AllOrderly(p.pending) && forall q | q in p.pending :: OpensDirectly(q, password).None?
    requires p.pending == [] || p.filed == [] || TokenRound(p.filed, p.pending).filed == p.filed
    ensures Settled(p, password)
  {
    forall q | q in p.pending ensures !Opens(q, password, FiledIds(p.filed)) {
      if q.token.Some? && Readable(q.token.value, q.key, FiledIds(p.filed)) {
        PoolIds(p.filed);
        OrderlyUnlocks(q.token.value, q.key, Pool(p.filed));
        IdleRound(p.filed, p.pending);
      }
    }
  }

  lemma {:induction false} RoundsAreSound(p: Progress, password: string, todo: seq<Pending>)
    requires Sound(p.filed, password, todo)
    requires forall q | q in p.pending :: q in todo && OpensDirectly(q, password).None?
    ensures var r := Rounds(p);
      && Sound(r.filed, password, todo)
      && multiset(r.filed + r.pending) == multiset(p.filed + p.pending)
      && p.filed <= r.filed
      && (AllOrderly(todo) ==> Settled(r, password))
    decreases |p.pending|
  {
    if p.pending == [] || p.filed == [] {
      if AllOrderly(todo) {
        ExitIsSettled(p, password);
      }
    } else {
      var r := TokenRound(p.filed, p.pending);
      TokenRoundShrinks(p.filed, p.pending);
      TokenRoundIsSound(p.filed, p.pending, password, todo);
      TokenRoundConserves(p.filed, p.pending);
      if r.filed == p.filed {
        IdleRound(p.filed, p.pending);
        if AllOrderly(todo) {
          ExitIsSettled(p, password);
        }
      } else {
        RoundsAreSound(r, password, todo);
      }
    }
  }

  /** Whatever the tokens: every entry ends in exactly one of filed and pending,
      what is filed is opened by what is filed, and every closed set contains it. */
  lemma CascadeIsSound(todo: seq<Pending>, password: string)
    ensures var done := Cascade(todo, password);
      && multiset(done.filed + done.pending) == multiset(todo)
      && (forall p | p in done.filed :: Opens(p, password, FiledIds(done.filed)))
      && (forall ids | Closed(todo, password, ids) :: FiledIds(done.filed) <= ids)
  {
    DirectRoundIsSound(todo, password, todo);
    FirstPending(todo, password);
    RoundsAreSound(DirectRound(todo, password), password, todo);
  }

  lemma FirstPending(todo: seq<Pending>, password: string)
    ensures forall p | p in DirectRound(todo, password).pending :: p in todo && OpensDirectly(p, password).None?
  {
    DirectRoundIsSound(todo, password, todo);
    var r := DirectRound(todo, password);
    forall p | p in r.pending ensures p in todo {
      assert p in multiset(r.filed + r.pending);
      assert p in multiset(todo);
    }
  }

  /** With orderly tokens the unlocked keys are the least set closed under opening,
      at each of the three ways out of the loop: an entry is filed exactly when it
      opens with the help of the unlocked keys. */
  lemma CascadeIsTheLeastFixpoint(todo: seq<Pending>, password: string)
    requires AllOrderly(todo)
    ensures var done := Cascade(todo, password); var ids := FiledIds(done.filed);
      && Closed(todo, password, ids)
      && (forall other | Closed(todo, password, other) :: ids <= other)
      && (forall p | p in todo :: Opens(p, password, ids) <==> p in done.filed)
      && (forall p | p in todo :: Opens(p, password, ids) <==> p !in done.pending)
  {
    CascadeIsSound(todo, password);
    FirstPending(todo, password);
    DirectRoundIsSound(todo, password, todo);
    RoundsAreSound(DirectRound(todo, password), password, todo);
    var done := Cascade(todo, password);
    assert Settled(done, password);
    forall p | p in todo ensures p in done.filed || p in done.pending {
      assert p in multiset(todo);
      assert p in multiset(done.filed + done.pending);
    }
  }

  lemma {:induction false} UserKeysAreFiled(filed: seq<Pending>, key: PrivateKey)
    ensures key in UserKeys(filed) <==> exists p | p in filed :: p.dest.ToUser? && KeyOf(p) == key
  {
    if filed != [] {
      var k := |filed| - 1;
      UserKeysAreFiled(filed[..k], key);
      assert filed == filed[..k] + [filed[k]];
    }
  }

  lemma {:induction false} AddressKeysAreFiled(filed: seq<Pending>, email: string)
    ensures email in AddressKeys(filed) <==> exists p | p in filed :: p.dest == ToAddress(email)
    ensures email in AddressKeys(filed) ==>
      exists p | p in filed :: p.dest == ToAddress(email) && KeyOf(p) == AddressKeys(filed)[email]
  {
    if filed != [] {
      var k := |filed| - 1;
      AddressKeysAreFiled(filed[..k], email);
      assert filed == filed[..k] + [filed[k]];
      if filed[k].dest == ToAddress(email) {
        assert filed[k] in filed;
      }
    }
  }

  /** What the caller gets: the user keys are those of the user entries that open,
      and an address has a key exactly when one of its entries opens. */
  lemma ResultIsWhatOpens(todo: seq<Pending>, password: string, key: PrivateKey, email: string)
    requires AllOrderly(todo)
    ensures var done := Cascade(todo, password); var ids := FiledIds(done.filed);
      && (key in UserKeys(done.filed) <==>
            exists p | p in todo :: p.dest.ToUser? && KeyOf(p) == key && Opens(p, password, ids))
      && (email in AddressKeys(done.filed) <==>
            exists p | p in todo :: p.dest == ToAddress(email) && Opens(p, password, ids))
  {
    var done := Cascade(todo, password);
    CascadeIsTheLeastFixpoint(todo, password);
    FiledAreFromTodo(todo, password);
    UserKeysAreFiled(done.filed, key);
    AddressKeysAreFiled(done.filed, email);
  }

  lemma FiledAreFromTodo(todo: seq<Pending>, password: string)
    ensures forall p | p in Cascade(todo, password).filed :: p in todo
  {
    CascadeIsSound(todo, password);
    var done := Cascade(todo, password);
    forall p | p in done.filed ensures p in todo {
      assert p in multiset(done.filed + done.pending);
    }
  }

  lemma RoundsStep(p: Progress)
    requires p.pending != [] && p.filed != []
    ensures var r := TokenRound(p.filed, p.pending);
      Rounds(p) == if r.filed == p.filed then r else Rounds(r)
  {
  }
}
