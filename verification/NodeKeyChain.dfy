/**
 Node keys: each node's passphrase is encrypted to its parent node's key, the share
 root's to the share key. The walk climbs the parent links and derives keys downwards.
 */
module NodeKeyChain {
  import opened Results
  import opened PgpTerms

  type LinkId = string

  datatype Link = Link(parent: Option<LinkId>, key: LockedKey, passphrase: Message)

  datatype ChainError = TooDeep | NoSuchLink(id: LinkId) | CannotUnlock

  const MAX_CHAIN_DEPTH: nat := 64

  /** Unlock a node with the one key its passphrase should be encrypted to. */
  function DecryptNodeKey(link: Link, parentKey: PrivateKey): Result<PrivateKey, ChainError> {
    match UnlockWith(link.passphrase, link.key, [parentKey])
    case Some(key) => Ok(key)
    case None => Err(CannotUnlock)
  }

  // ----- The recursive definition ------------------------------------------------------------

  /** key(n) is n unlocked by key(parent(n)), or by the share key at the root; at most
      `budget` nodes deep. */
  function NodeKey(links: map<LinkId, Link>, id: LinkId, share: PrivateKey, budget: nat): Result<PrivateKey, ChainError>
    decreases budget
  {
    if budget == 0 then Err(TooDeep)
    else if id !in links then Err(NoSuchLink(id))
    else
      match links[id].parent
      case None => DecryptNodeKey(links[id], share)
      case Some(parent) =>
        match NodeKey(links, parent, share, budget - 1)
        case Err(e) => Err(e)
        case Ok(parentKey) => DecryptNodeKey(links[id], parentKey)
  }

  /** Links asked for before the root, a gap or the limit is met. */
  function Fetches(links: map<LinkId, Link>, id: LinkId, budget: nat): nat
    decreases budget
  {
    if budget == 0 then 0
    else if id in links && links[id].parent.Some? then 1 + Fetches(links, links[id].parent.value, budget - 1)
    else 1
  }

  /** What is left to do once `chain` has been collected, deepest node first. */
  function UnlockDown(chain: seq<Link>, top: Result<PrivateKey, ChainError>): Result<PrivateKey, ChainError> {
    if chain == [] then top
    else
      match UnlockDown(chain[1..], top)
      case Err(e) => Err(e)
      case Ok(parentKey) => DecryptNodeKey(chain[0], parentKey)
  }

  lemma {:induction false} UnlockDownOneMore(chain: seq<Link>, link: Link, top: Result<PrivateKey, ChainError>)
    ensures UnlockDown(chain + [link], top) ==
      UnlockDown(chain, match top case Err(e) => Err(e) case Ok(key) => DecryptNodeKey(link, key))
  {
    if chain != [] {
      assert (chain + [link])[1..] == chain[1..] + [link];
      UnlockDownOneMore(chain[1..], link, top);
    } else {
      assert (chain + [link])[1..] == [];
    }
  }

  lemma {:induction false} UnlockDownKeepsError(chain: seq<Link>, e: ChainError)
    ensures UnlockDown(chain, Err(e)) == Err(e)
  {
    if chain != [] {
      UnlockDownKeepsError(chain[1..], e);
    }
  }

  // ----- The walk --------------------------------------------------------------------------------

  method ResolveNodeKeyViaChain(links: map<LinkId, Link>, id: LinkId, share: PrivateKey)
      returns (r: Result<PrivateKey, ChainError>, fetches: nat)
    ensures r == NodeKey(links, id, share, MAX_CHAIN_DEPTH)
    ensures fetches == Fetches(links, id, MAX_CHAIN_DEPTH) && fetches <= 64
    ensures r == Err(TooDeep) ==> fetches == 64
  {
    var chain: seq<Link> := [];
    var currentId := id;
    fetches := 0;
    while true
      invariant |chain| == fetches <= MAX_CHAIN_DEPTH
      invariant NodeKey(links, id, share, MAX_CHAIN_DEPTH) ==
        UnlockDown(chain, NodeKey(links, currentId, share, MAX_CHAIN_DEPTH - |chain|))
      invariant Fetches(links, id, MAX_CHAIN_DEPTH) == fetches + Fetches(links, currentId, MAX_CHAIN_DEPTH - |chain|)
      decreases MAX_CHAIN_DEPTH - |chain|
    {
      if |chain| >= MAX_CHAIN_DEPTH {
        UnlockDownKeepsError(chain, TooDeep);
        return Err(TooDeep), fetches;
      }
      fetches := fetches + 1;
      if currentId !in links {
        UnlockDownKeepsError(chain, NoSuchLink(currentId));
        return Err(NoSuchLink(currentId)), fetches;
      }
      var link := links[currentId];
      UnlockDownOneMore(chain, link, Ok(share));
      if link.parent.Some? {
        UnlockDownOneMore(chain, link, NodeKey(links, link.parent.value, share, MAX_CHAIN_DEPTH - |chain| - 1));
      }
      chain := chain + [link];
      match link.parent
      case Some(p) => currentId := p;
      case None => break;
    }

    var current: Option<PrivateKey> := None;
    var i := |chain|;
    assert chain[..i] == chain;
    while i > 0
      invariant 0 <= i <= |chain|
      invariant current.None? <==> i == |chain|
      invariant UnlockDown(chain, Ok(share)) ==
        UnlockDown(chain[..i], Ok(if current.Some? then current.value else share))
    {
      i := i - 1;
      var parentKey := if current.Some? then current.value else share;
      var next := DecryptNodeKey(chain[i], parentKey);
      assert chain[..i + 1] == chain[..i] + [chain[i]];
      UnlockDownOneMore(chain[..i], chain[i], Ok(parentKey));
      if next.Err? {
        UnlockDownKeepsError(chain[..i], next.error);
        return next, fetches;
      }
      current := Some(next.value);
    }
    r := Ok(current.value);
  }

  // ----- Chains of ancestors ----------------------------------------------------------------------

  /** `path` climbs from `id` along parent links. */
  predicate IsClimb(links: map<LinkId, Link>, id: LinkId, path: seq<LinkId>) {
    && path != [] && path[0] == id
    && (forall i :: 0 <= i < |path| ==> path[i] in links)
    && (forall i :: 0 < i < |path| ==> links[path[i - 1]].parent == Some(path[i]))
  }

  /** ... up to the share root. */
  predicate IsChain(links: map<LinkId, Link>, id: LinkId, path: seq<LinkId>) {
    IsClimb(links, id, path) && links[path[|path| - 1]].parent.None?
  }

  /** The keys along a chain of any length: the definition with no limit. */
  function KeyAlong(links: map<LinkId, Link>, path: seq<LinkId>, share: PrivateKey): (r: Result<PrivateKey, ChainError>)
    requires path != [] && forall i :: 0 <= i < |path| ==> path[i] in links
    ensures r.Err? ==> r == Err(CannotUnlock)
  {
    if |path| == 1 then DecryptNodeKey(links[path[0]], share)
    else
      match KeyAlong(links, path[1..], share)
      case Err(e) => Err(e)
      case Ok(parentKey) => DecryptNodeKey(links[path[0]], parentKey)
  }

  lemma TailIsChain(links: map<LinkId, Link>, id: LinkId, path: seq<LinkId>)
    requires IsChain(links, id, path) && |path| > 1
    ensures links[id].parent == Some(path[1]) && IsChain(links, path[1], path[1..])
  {
  }

  /** On a chain within the limit the walk yields the unlimited definition, and asks for
      each node once; on a longer chain it fails after exactly `budget` requests. */
  lemma {:induction false} NodeKeyOnChain(links: map<LinkId, Link>, id: LinkId, path: seq<LinkId>,
      share: PrivateKey, budget: nat)
    requires IsChain(links, id, path)
    ensures NodeKey(links, id, share, budget) == if |path| <= budget then KeyAlong(links, path, share) else Err(TooDeep)
    ensures Fetches(links, id, budget) == if |path| <= budget then |path| else budget
    decreases budget
  {
    if budget > 0 && |path| > 1 {
      TailIsChain(links, id, path);
      NodeKeyOnChain(links, path[1], path[1..], share, budget - 1);
    }
  }

  lemma {:induction false} NodeKeyHasChain(links: map<LinkId, Link>, id: LinkId, share: PrivateKey, budget: nat)
      returns (path: seq<LinkId>)
    requires NodeKey(links, id, share, budget).Ok?
    ensures IsChain(links, id, path) && |path| <= budget
    decreases budget
  {
    if links[id].parent.None? {
      path := [id];
    } else {
      var rest := NodeKeyHasChain(links, links[id].parent.value, share, budget - 1);
      path := [id] + rest;
    }
  }

  /** The walk succeeds exactly when a chain to the root exists, is no longer than the
      limit, and unlocks from the top down. */
  lemma ResolvedExactlyWhen(links: map<LinkId, Link>, id: LinkId, share: PrivateKey, limit: nat)
    ensures NodeKey(links, id, share, limit).Ok? <==>
      exists path :: IsChain(links, id, path) && |path| <= limit && KeyAlong(links, path, share).Ok?
  {
    if NodeKey(links, id, share, limit).Ok? {
      var path := NodeKeyHasChain(links, id, share, limit);
      NodeKeyOnChain(links, id, path, share, limit);
    }
    if path :| IsChain(links, id, path) && |path| <= limit && KeyAlong(links, path, share).Ok? {
      NodeKeyOnChain(links, id, path, share, limit);
    }
  }

  // ----- The errors ------------------------------------------------------------------------------

  /** `limit` links lead up from `id`, and there are more. */
  predicate LeadsOn(links: map<LinkId, Link>, id: LinkId, climb: seq<LinkId>, limit: nat) {
    IsClimb(links, id, climb) && |climb| == limit && links[climb[|climb| - 1]].parent.Some?
  }

  /** Fewer than `limit` links lead up from `id` to one that is not there. */
  predicate LeadsNowhere(links: map<LinkId, Link>, id: LinkId, climb: seq<LinkId>, gap: LinkId, limit: nat) {
    && IsClimb(links, id, climb) && |climb| < limit
    && links[climb[|climb| - 1]].parent == Some(gap) && gap !in links
  }

  lemma TailIsClimb(links: map<LinkId, Link>, id: LinkId, climb: seq<LinkId>)
    requires IsClimb(links, id, climb) && |climb| > 1
    ensures links[id].parent == Some(climb[1]) && IsClimb(links, climb[1], climb[1..])
  {
  }

  lemma {:induction false} LongClimbIsTooDeep(links: map<LinkId, Link>, id: LinkId, climb: seq<LinkId>,
      share: PrivateKey, limit: nat)
    requires LeadsOn(links, id, climb, limit)
    ensures NodeKey(links, id, share, limit) == Err(TooDeep)
    decreases limit
  {
    if limit > 1 {
      TailIsClimb(links, id, climb);
      LongClimbIsTooDeep(links, climb[1], climb[1..], share, limit - 1);
    }
  }

  lemma {:induction false} TooDeepHasClimb(links: map<LinkId, Link>, id: LinkId, share: PrivateKey, limit: nat)
      returns (climb: seq<LinkId>)
    requires limit > 0 && NodeKey(links, id, share, limit) == Err(TooDeep)
    ensures LeadsOn(links, id, climb, limit)
    decreases limit
  {
    climb := [id];
    if limit > 1 {
      var rest := TooDeepHasClimb(links, links[id].parent.value, share, limit - 1);
      climb := climb + rest;
    }
  }

  lemma {:induction false} GapIsReported(links: map<LinkId, Link>, id: LinkId, climb: seq<LinkId>, gap: LinkId,
      share: PrivateKey, limit: nat)
    requires LeadsNowhere(links, id, climb, gap, limit)
    ensures NodeKey(links, id, share, limit) == Err(NoSuchLink(gap))
    decreases limit
  {
    if |climb| > 1 {
      TailIsClimb(links, id, climb);
      GapIsReported(links, climb[1], climb[1..], gap, share, limit - 1);
    }
  }

  lemma {:induction false} ReportedGapExists(links: map<LinkId, Link>, id: LinkId, gap: LinkId, share: PrivateKey,
      limit: nat) returns (climb: seq<LinkId>)
    requires NodeKey(links, id, share, limit) == Err(NoSuchLink(gap))
    ensures if id !in links then gap == id && climb == [] else LeadsNowhere(links, id, climb, gap, limit)
    decreases limit
  {
    climb := [];
    if id in links {
      var rest := ReportedGapExists(links, links[id].parent.value, gap, share, limit - 1);
      climb := [id] + rest;
    }
  }

  /** A walk is too deep exactly when more links than the limit lead up, and misses a link
      exactly when one it asks for is not there; else a key does not unlock. */
  lemma WalkFailsExactlyWhen(links: map<LinkId, Link>, id: LinkId, share: PrivateKey, limit: nat, gap: LinkId)
    requires limit > 0
    ensures NodeKey(links, id, share, limit) == Err(TooDeep) <==> exists climb :: LeadsOn(links, id, climb, limit)
    ensures NodeKey(links, id, share, limit) == Err(NoSuchLink(gap)) <==>
      (id == gap && id !in links) || exists climb :: LeadsNowhere(links, id, climb, gap, limit)
  {
    if NodeKey(links, id, share, limit) == Err(TooDeep) {
      var climb := TooDeepHasClimb(links, id, share, limit);
    }
    if climb :| LeadsOn(links, id, climb, limit) {
      LongClimbIsTooDeep(links, id, climb, share, limit);
    }
    if NodeKey(links, id, share, limit) == Err(NoSuchLink(gap)) {
      var climb := ReportedGapExists(links, id, gap, share, limit);
    }
    if climb :| LeadsNowhere(links, id, climb, gap, limit) {
      GapIsReported(links, id, climb, gap, share, limit);
    }
  }

  lemma {:induction false} ClimbIsPrefix(links: map<LinkId, Link>, id: LinkId, climb: seq<LinkId>, chain: seq<LinkId>)
    requires IsClimb(links, id, climb) && IsChain(links, id, chain)
    ensures climb <= chain
    decreases |climb|
  {
    if |climb| > 1 {
      assert IsClimb(links, climb[1], climb[1..]);
      assert links[id].parent == Some(climb[1]);
      assert |chain| > 1;
      TailIsChain(links, id, chain);
      ClimbIsPrefix(links, climb[1], climb[1..], chain[1..]);
      assert climb == [id] + climb[1..] && chain == [id] + chain[1..];
    }
  }

  lemma SuffixIsChain(links: map<LinkId, Link>, id: LinkId, path: seq<LinkId>, i: nat)
    requires IsChain(links, id, path) && i < |path|
    ensures IsChain(links, path[i], path[i..])
  {
  }

  /** A node whose ancestors repeat has no chain. */
  lemma CycleHasNoChain(links: map<LinkId, Link>, id: LinkId, climb: seq<LinkId>, i: nat, j: nat)
    requires IsClimb(links, id, climb) && i < j < |climb| && climb[i] == climb[j]
    ensures forall path :: !IsChain(links, id, path)
  {
    forall path ensures !IsChain(links, id, path) {
      if IsChain(links, id, path) {
        ClimbIsPrefix(links, id, climb, path);
        SuffixIsChain(links, id, path, i);
        SuffixIsChain(links, id, path, j);
        ClimbIsPrefix(links, path[i], path[i..], path[j..]);
        assert false;
      }
    }
  }

  /** So a cyclic chain of parents is always an error, never a loop. */
  lemma CyclesAreRejected(links: map<LinkId, Link>, id: LinkId, climb: seq<LinkId>, i: nat, j: nat,
      share: PrivateKey, limit: nat)
    requires IsClimb(links, id, climb) && i < j < |climb| && climb[i] == climb[j]
    ensures NodeKey(links, id, share, limit).Err?
    ensures Fetches(links, id, limit) <= limit
  {
    CycleHasNoChain(links, id, climb, i, j);
    ResolvedExactlyWhen(links, id, share, limit);
    FetchesAreBounded(links, id, limit);
  }

  lemma {:induction false} FetchesAreBounded(links: map<LinkId, Link>, id: LinkId, budget: nat)
    ensures Fetches(links, id, budget) <= budget
    decreases budget
  {
    if budget > 0 && id in links && links[id].parent.Some? {
      FetchesAreBounded(links, links[id].parent.value, budget - 1);
    }
  }

  // ----- The uploader's shortcut ---------------------------------------------------------------------

  /** The uploader unlocks the parent folder with the share key directly. */
  function ParentKeyOfUpload(links: map<LinkId, Link>, id: LinkId, share: PrivateKey): Result<PrivateKey, ChainError> {
    if id !in links then Err(NoSuchLink(id)) else DecryptNodeKey(links[id], share)
  }

  /** Node `id` is locked for its parent only, or at the root for the share only. */
  predicate HonestLink(links: map<LinkId, Link>, id: LinkId, share: PrivateKey)
    requires id in links
  {
    var link := links[id];
    && link.key.LockedKey? && link.key.id != share.id
    && (link.parent.Some? ==> link.parent.value in links && links[link.parent.value].key.LockedKey?)
    && link.passphrase.Message? && link.passphrase.plain == Some(link.key.lock)
    && link.passphrase.wrapped ==
         [Wrapped(if link.parent.Some? then links[link.parent.value].key.id else share.id, link.passphrase.session)]
  }

  predicate HonestTree(links: map<LinkId, Link>, share: PrivateKey) {
    forall id :: id in links ==> HonestLink(links, id, share)
  }

  lemma HonestUnlock(links: map<LinkId, Link>, id: LinkId, share: PrivateKey, key: PrivateKey)
    requires id in links && HonestLink(links, id, share)
    ensures DecryptNodeKey(links[id], key) ==
      if key.id == links[id].passphrase.wrapped[0].recipient then Ok(PrivateKey(links[id].key.id))
      else Err(CannotUnlock)
  {
    var wrapped := links[id].passphrase.wrapped;
    var keys := [key];
    assert keys[0] == key;
    assert FirstSession(wrapped[1..], keys) == None;
    assert HasKey(keys, wrapped[0].recipient) <==> key.id == wrapped[0].recipient;
    assert FirstSession(wrapped, keys) ==
      if key.id == wrapped[0].recipient then Some(links[id].passphrase.session) else None;
  }

  /** In an honest tree nothing fails to unlock: a node resolves to its own key, or
      lies too deep. */
  lemma {:induction false} HonestNodesResolve(links: map<LinkId, Link>, id: LinkId, share: PrivateKey, budget: nat)
    requires HonestTree(links, share) && id in links
    ensures var r := NodeKey(links, id, share, budget);
      r == Ok(PrivateKey(links[id].key.id)) || r == Err(TooDeep)
    decreases budget
  {
    if budget > 0 {
      assert HonestLink(links, id, share);
      HonestUnlock(links, id, share, share);
      if links[id].parent.Some? {
        var parent := links[id].parent.value;
        HonestNodesResolve(links, parent, share, budget - 1);
        HonestUnlock(links, id, share, PrivateKey(links[parent].key.id));
      }
    }
  }

  /** ... and it is too deep exactly when it has no chain within the limit. */
  lemma HonestNodesResolveExactlyWhen(links: map<LinkId, Link>, id: LinkId, share: PrivateKey, limit: nat)
    requires HonestTree(links, share) && id in links
    ensures NodeKey(links, id, share, limit) == Ok(PrivateKey(links[id].key.id)) <==>
      exists path :: IsChain(links, id, path) && |path| <= limit
  {
    HonestNodesResolve(links, id, share, limit);
    ResolvedExactlyWhen(links, id, share, limit);
    if path :| IsChain(links, id, path) && |path| <= limit {
      HonestNodesResolve(links, id, share, |path|);
      NodeKeyOnChain(links, id, path, share, |path|);
      NodeKeyOnChain(links, id, path, share, limit);
    }
  }

  /** In an honest tree the shortcut agrees with the walk at the share root and nowhere
      else: it fails on every nested folder. */
  lemma UploaderAgreesExactlyAtTheRoot(links: map<LinkId, Link>, id: LinkId, share: PrivateKey, limit: nat)
    requires HonestTree(links, share) && id in links && limit > 0
    ensures ParentKeyOfUpload(links, id, share) == NodeKey(links, id, share, limit) <==> links[id].parent.None?
    ensures links[id].parent.Some? ==> ParentKeyOfUpload(links, id, share) == Err(CannotUnlock)
  {
    HonestNodesResolve(links, id, share, limit);
    assert HonestLink(links, id, share);
    HonestUnlock(links, id, share, share);
    if links[id].parent.Some? {
      assert HonestLink(links, links[id].parent.value, share);
    }
  }
}
