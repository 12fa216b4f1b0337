/**
 Exactly which tokens make the cascade independent of the order of its entries, and
 exactly which make it complete.
 */
module CascadeOrder {
  import opened Results
  import opened PgpTerms
  import opened KeyCascade

  ghost predicate AllSteady(todo: seq<Pending>) {
    forall p | p in todo :: p.token.Some? ==> Steady(p.token.value)
  }

  // ----- Steady tokens: the order does not matter --------------------------------------------------

  /** Whatever the tokens, what is left pending opens neither way with the final pool. */
  lemma {:induction false} RoundsEndIdle(p: Progress)
    ensures var r := Rounds(p);
      && (forall q | q in r.pending :: OpensByToken(q, Pool(r.filed)).None?)
      && (forall q | q in r.pending :: q in p.pending)
    decreases |p.pending|
  {
    if p.filed == [] {
      forall q | q in p.pending ensures OpensByToken(q, []).None? {
        if OpensByToken(q, []).Some? {
          UnlockMeansReadable(q.token.value, q.key, []);
        }
      }
      assert Pool([]) == [];
    } else if p.pending != [] {
      var r := TokenRound(p.filed, p.pending);
      TokenRoundShrinks(p.filed, p.pending);
      TokenRoundKeeps(p.filed, p.pending);
      RoundsStep(p);
      if r.filed == p.filed {
        IdleRound(p.filed, p.pending);
      } else {
        RoundsEndIdle(r);
      }
    }
  }

  lemma {:induction false} TokenRoundKeeps(filed: seq<Pending>, todo: seq<Pending>)
    ensures forall q | q in TokenRound(filed, todo).pending :: q in todo
  {
    if todo != [] {
      TokenRoundKeeps(filed, todo[..|todo| - 1]);
    }
  }

  /** Every entry that opens with the pool of `done` is in it. */
  ghost predicate Complete(todo: seq<Pending>, password: string, done: seq<Pending>) {
    forall p | p in todo ::
      OpensDirectly(p, password).Some? || OpensByToken(p, Pool(done)).Some? ==> p in done
  }

  lemma EntryEnds(todo: seq<Pending>, password: string, p: Pending)
    requires p in todo
    ensures var done := Cascade(todo, password);
      p in done.filed || (OpensDirectly(p, password).None? && OpensByToken(p, Pool(done.filed)).None?)
  {
    var done := Cascade(todo, password);
    CascadeIsSound(todo, password);
    assert p in multiset(todo);
    assert p in multiset(done.filed + done.pending);
    if p !in done.filed {
      assert p in done.pending;
      RoundsEndIdle(DirectRound(todo, password));
      assert p in DirectRound(todo, password).pending;
      FirstPending(todo, password);
    }
  }

  lemma CascadeIsComplete(todo: seq<Pending>, password: string)
    ensures Complete(todo, password, Cascade(todo, password).filed)
  {
    forall p | p in todo
      ensures p in Cascade(todo, password).filed
        || (OpensDirectly(p, password).None? && OpensByToken(p, Pool(Cascade(todo, password).filed)).None?)
    {
      EntryEnds(todo, password, p);
    }
  }

  predicate Within(filed: seq<Pending>, done: seq<Pending>) {
    forall p | p in filed :: p in done
  }

  lemma WithinPool(filed: seq<Pending>, done: seq<Pending>)
    requires Within(filed, done)
    ensures Ids(Pool(filed)) <= Ids(Pool(done))
  {
    PoolIds(filed);
    PoolIds(done);
  }

  lemma {:induction false} DirectRoundStaysWithin(part: seq<Pending>, password: string, todo: seq<Pending>,
      done: seq<Pending>)
    requires Complete(todo, password, done) && Within(part, todo)
    ensures Within(DirectRound(part, password).filed, done)
  {
    if part != [] {
      DirectRoundStaysWithin(part[..|part| - 1], password, todo, done);
    }
  }

  lemma {:induction false} TokenRoundStaysWithin(filed: seq<Pending>, part: seq<Pending>, password: string,
                                                 todo: seq<Pending>, done: seq<Pending>)
    requires Complete(todo, password, done) && AllSteady(todo) && Within(part, todo) && Within(filed, done)
    ensures Within(TokenRound(filed, part).filed, done)
  {
    if part != [] {
      var k := |part| - 1;
      TokenRoundStaysWithin(filed, part[..k], password, todo, done);
      var before := TokenRound(filed, part[..k]);
      assert part[k] in todo;
      if OpensByToken(part[k], Pool(before.filed)).Some? {
        WithinPool(before.filed, done);
        SteadyUnlocksMore(part[k].token.value, part[k].key, Pool(before.filed), Pool(done));
      }
    }
  }

  lemma {:induction false} RoundsStayWithin(p: Progress, password: string, todo: seq<Pending>, done: seq<Pending>)
    requires Complete(todo, password, done) && AllSteady(todo) && Within(p.pending, todo) && Within(p.filed, done)
    ensures Within(Rounds(p).filed, done)
    decreases |p.pending|
  {
    if p.pending != [] && p.filed != [] {
      var r := TokenRound(p.filed, p.pending);
      TokenRoundShrinks(p.filed, p.pending);
      TokenRoundKeeps(p.filed, p.pending);
      TokenRoundStaysWithin(p.filed, p.pending, password, todo, done);
      if r.filed != p.filed {
        RoundsStayWithin(r, password, todo, done);
      }
    }
  }

  lemma CascadeStaysWithin(todo: seq<Pending>, password: string, done: seq<Pending>)
    requires Complete(todo, password, done) && AllSteady(todo)
    ensures Within(Cascade(todo, password).filed, done)
  {
    FirstPending(todo, password);
    DirectRoundStaysWithin(todo, password, todo, done);
    RoundsStayWithin(DirectRound(todo, password), password, todo, done);
  }

  lemma SameEntries(todo: seq<Pending>, other: seq<Pending>)
    requires multiset(todo) == multiset(other)
    ensures forall p :: p in todo <==> p in other
  {
    forall p ensures p in todo <==> p in other {
      assert p in todo <==> p in multiset(todo);
      assert p in other <==> p in multiset(other);
    }
  }

  /** With steady tokens the order of the entries decides nothing. */
  lemma CascadeIgnoresOrder(todo: seq<Pending>, other: seq<Pending>, password: string)
    requires AllSteady(todo) && multiset(todo) == multiset(other)
    ensures var a, b := Cascade(todo, password).filed, Cascade(other, password).filed;
      (forall p :: p in a <==> p in b) && FiledIds(a) == FiledIds(b)
  {
    var a, b := Cascade(todo, password).filed, Cascade(other, password).filed;
    SameEntries(todo, other);
    CascadeIsComplete(todo, password);
    CascadeIsComplete(other, password);
    assert Complete(todo, password, b) && Complete(other, password, a);
    CascadeStaysWithin(todo, password, b);
    CascadeStaysWithin(other, password, a);
  }

  // ----- Other tokens: it does ------------------------------------------------------------------------

  lemma DirectRoundOfThree(a: Pending, b: Pending, c: Pending, password: string)
    requires OpensDirectly(a, password).Some? && OpensDirectly(c, password).None?
    ensures DirectRound([a, b, c], password) ==
      if OpensDirectly(b, password).Some? then Progress([a, b], [c]) else Progress([a], [b, c])
  {
    assert [a, b, c][..2] == [a, b] && [a, b][..1] == [a] && [a][..0] == [];
    assert DirectRound([], password) == Progress([], []);
    assert DirectRound([a], password) == Progress([a], []);
    assert [a] + [b] == [a, b];
  }

  lemma TokenRoundOfTwo(filed: seq<Pending>, b: Pending, c: Pending)
    requires OpensByToken(b, Pool(filed)).Some?
    ensures TokenRound(filed, [b, c]) ==
      if OpensByToken(c, Pool(filed + [b])).Some? then Progress(filed + [b, c], []) else Progress(filed + [b], [c])
  {
    assert [b, c][..1] == [b] && [b][..0] == [];
    assert TokenRound(filed, []) == Progress(filed, []);
    assert TokenRound(filed, [b]) == Progress(filed + [b], []);
    assert (filed + [b]) + [c] == filed + [b, c];
  }

  lemma {:induction false} RoundsExtend(p: Progress)
    ensures p.filed <= Rounds(p).filed
    decreases |p.pending|
  {
    if p.pending != [] && p.filed != [] {
      var r := TokenRound(p.filed, p.pending);
      TokenRoundShrinks(p.filed, p.pending);
      if r.filed != p.filed {
        RoundsExtend(r);
      }
    }
  }

  lemma LateHelper(a: Pending, target: Pending, helper: Pending, password: string)
    requires OpensDirectly(a, password).Some?
    requires OpensDirectly(target, password).None? && OpensDirectly(helper, password).None?
    requires OpensByToken(target, Pool([a])).Some?
    ensures target in Cascade([a, target, helper], password).filed
  {
    DirectRoundOfThree(a, target, helper, password);
    TokenRoundOfTwo([a], target, helper);
    var r := TokenRound([a], [target, helper]);
    assert r.filed[1] == target;
    RoundsExtend(r);
    RoundsStep(Progress([a], [target, helper]));
  }

  /** Nothing pending but one entry that does not open. */
  lemma LastOneStays(filed: seq<Pending>, target: Pending)
    requires filed != [] && OpensByToken(target, Pool(filed)).None?
    ensures Rounds(Progress(filed, [target])) == Progress(filed, [target])
  {
    assert [target][..0] == [];
    assert TokenRound(filed, []) == Progress(filed, []);
    assert TokenRound(filed, [target]) == Progress(filed, [target]);
    RoundsStep(Progress(filed, [target]));
  }

  lemma EarlyHelper(a: Pending, helper: Pending, target: Pending, password: string)
    requires OpensDirectly(a, password).Some?
    requires OpensDirectly(target, password).None? && OpensDirectly(helper, password).None?
    requires OpensByToken(helper, Pool([a])).Some?
    requires OpensByToken(target, Pool([a, helper])).None?
    ensures Cascade([a, helper, target], password) == Progress([a, helper], [target])
  {
    DirectRoundOfThree(a, helper, target, password);
    assert [a] + [helper] == [a, helper];
    TokenRoundOfTwo([a], helper, target);
    RoundsStep(Progress([a], [helper, target]));
    LastOneStays([a, helper], target);
  }

  /** An entry whose token holds its passphrase and that does not open directly. */
  predicate NeedsItsToken(p: Pending, password: string) {
    && OpensDirectly(p, password).None? && p.token.Some? && p.token.value.Message?
    && p.token.value.plain.Some? && DecryptKey(p.key, p.token.value.plain.value).Some?
  }

  /** A key that the password opens, and one that a clean token for it opens. */
  function DirectEntry(id: KeyId, password: string): Pending {
    Pending(LockedKey(id, password), None, ToUser)
  }

  function HelperEntry(id: KeyId, reader: KeyId, password: string): Pending {
    Pending(LockedKey(id, password + "+"), Some(Message([Wrapped(reader, 0)], 0, Some(password + "+"))), ToUser)
  }

  lemma HelperOpens(id: KeyId, reader: KeyId, password: string)
    ensures var h := HelperEntry(id, reader, password);
      OpensDirectly(h, password).None? && Steady(h.token.value) && OpensByToken(h, [PrivateKey(reader)]).Some?
  {
    var h := HelperEntry(id, reader, password);
    assert |password + "+"| != |password|;
    var keys := [PrivateKey(reader)];
    assert keys[0].id == reader;
    assert HasKey(keys, reader);
  }

  lemma PoolOfTwo(a: Pending, b: Pending)
    ensures Pool([a]) == [KeyOf(a)] && Pool([a, b]) == [KeyOf(a), KeyOf(b)]
  {
  }

  lemma UnsteadyIsOrderSensitive(p: Pending, password: string) returns (todo: seq<Pending>, other: seq<Pending>)
    requires NeedsItsToken(p, password) && !Steady(p.token.value)
    ensures |todo| == 3 && todo[1] == p && AllSteady([todo[0], todo[2]])
    ensures multiset(todo) == multiset(other)
    ensures p in Cascade(todo, password).filed && p !in Cascade(other, password).filed
  {
    var m := p.token.value;
    var i: nat, j: nat :| Hides(m, i, j);
    HiddenKeyIsLost(m, p.key, i, j);
    var a := DirectEntry(m.wrapped[j].recipient, password);
    var helper := HelperEntry(m.wrapped[i].recipient, m.wrapped[j].recipient, password);
    HelperOpens(m.wrapped[i].recipient, m.wrapped[j].recipient, password);
    PoolOfTwo(a, helper);
    LateHelper(a, p, helper, password);
    EarlyHelper(a, helper, p, password);
    todo, other := [a, p, helper], [a, helper, p];
    Different(a, helper, p, password);
  }

  lemma Different(a: Pending, helper: Pending, p: Pending, password: string)
    requires OpensDirectly(a, password).Some? && OpensDirectly(p, password).None?
    requires p.token.Some? && helper.token.Some? && Steady(helper.token.value) && !Steady(p.token.value)
    ensures p !in [a, helper]
  {
  }

  /** The order of the entries never decides whether `p` is unlocked, beside any entries
      with steady tokens, if and only if the token of `p` is steady. */
  lemma OrderIsIrrelevantExactlyWhenSteady(p: Pending, password: string)
    requires NeedsItsToken(p, password)
    ensures Steady(p.token.value) <==>
      forall todo, other | OnlyOneUnsteady(todo, p) && multiset(todo) == multiset(other) ::
        p in Cascade(todo, password).filed <==> p in Cascade(other, password).filed
  {
    if Steady(p.token.value) {
      forall todo, other | OnlyOneUnsteady(todo, p) && multiset(todo) == multiset(other)
        ensures p in Cascade(todo, password).filed <==> p in Cascade(other, password).filed
      {
        CascadeIgnoresOrder(todo, other, password);
      }
    } else {
      var todo, other := UnsteadyIsOrderSensitive(p, password);
      assert OnlyOneUnsteady(todo, p);
    }
  }

  /** Every token but perhaps that of `p` is steady. */
  ghost predicate OnlyOneUnsteady(todo: seq<Pending>, p: Pending) {
    forall q | q in todo :: q == p || (q.token.Some? ==> Steady(q.token.value))
  }

  // ----- Completeness -----------------------------------------------------------------------------------

  predicate FiledAsReadable(others: seq<Pending>, p: Pending, password: string) {
    var filed := Cascade(others + [p], password).filed;
    p in filed <==> Opens(p, password, FiledIds(filed))
  }

  lemma DisorderlyStaysLocked(p: Pending, password: string) returns (others: seq<Pending>)
    requires NeedsItsToken(p, password) && !Orderly(p.token.value)
    ensures AllOrderly(others) && !FiledAsReadable(others, p, password)
  {
    var keys := DisorderlyFails(p.token.value, p.key);
    var a, b := DirectEntry(keys[0].id, password), DirectEntry(keys[1].id, password);
    others := [a, b];
    assert others + [p] == [a, b, p];
    assert keys == [keys[0], keys[1]];
    PoolOfTwo(a, b);
    PoolIds([a, b]);
    StuckAfterTwo(a, b, p, password);
    NotAmong(a, b, p, password);
  }

  lemma StuckAfterTwo(a: Pending, b: Pending, p: Pending, password: string)
    requires OpensDirectly(a, password).Some? && OpensDirectly(b, password).Some? && OpensDirectly(p, password).None?
    requires OpensByToken(p, Pool([a, b])).None?
    ensures Cascade([a, b, p], password) == Progress([a, b], [p])
  {
    DirectRoundOfThree(a, b, p, password);
    LastOneStays([a, b], p);
  }

  lemma NotAmong(a: Pending, b: Pending, p: Pending, password: string)
    requires OpensDirectly(a, password).Some? && OpensDirectly(b, password).Some? && OpensDirectly(p, password).None?
    ensures p !in [a, b]
  {
  }

  /** Beside any entries with orderly tokens, `p` is unlocked exactly when it opens with
      the help of the unlocked keys, if and only if its own token is orderly. */
  lemma CompleteExactlyWhenOrderly(p: Pending, password: string)
    requires NeedsItsToken(p, password)
    ensures Orderly(p.token.value) <==>
      forall others :: AllOrderly(others) ==> FiledAsReadable(others, p, password)
  {
    if Orderly(p.token.value) {
      forall others | AllOrderly(others) ensures FiledAsReadable(others, p, password) {
        CascadeIsTheLeastFixpoint(others + [p], password);
      }
    } else {
      var others := DisorderlyStaysLocked(p, password);
    }
  }
}
