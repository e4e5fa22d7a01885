/** The JWK Set handle over the shared cache, one call at a time: fetch, resolve, refresh.

    `reply` is what the server would answer if it were asked during the call; `asked`
    tells whether it was.  Clock readings are parameters, in the order they are taken. */
module JwksHandle {
  import opened Options
  import opened RecencyList
  import opened KeySets
  import opened TickCache

  datatype Config = Config(cacheTTL: int, refreshCooldown: int, maxEntries: int)

  datatype Reply = Unavailable | Body(members: seq<Member>)

  datatype Readings = Readings(first: int, second: int, stored: int)

  ghost function Outcome(reply: Reply): Result<seq<KeyVal>, Error> {
    match reply
    case Unavailable => Err(FetchFailed)
    case Body(members) => Parsed(members)
  }

  ghost function Masters(view: Lru<KeySlice>): set<KeySlice> {
    set k | k in view.slots :: view.slots[k].value
  }

  /** Every cached slice, with its Extra maps, belongs to the cache alone. */
  ghost predicate MastersOwned(view: Lru<KeySlice>)
    reads Masters(view)
  {
    forall k :: k in view.slots ==> Owned(view.slots[k].value, SHARED)
  }

  /** What a reader of the cached entry of `k` observes. */
  ghost function CachedKeys(view: Lru<KeySlice>, k: Key): seq<KeyVal>
    requires k in view.slots
    reads view.slots[k].value, Extras(view.slots[k].value.keys)
  {
    KeysOf(view.slots[k].value.keys)
  }

  method FetchAndParse(reply: Reply) returns (r: Result<KeySlice, Error>)
    ensures r.Ok? <==> Outcome(reply).Ok?
    ensures r.Ok? ==> fresh(r.value) && fresh(Extras(r.value.keys)) && Owned(r.value, SHARED)
    ensures r.Ok? ==> Outcome(reply) == Ok(KeysOf(r.value.keys))
    ensures r.Err? ==> Outcome(reply) == Err(r.error)
  {
    match reply
    case Unavailable => r := Err(FetchFailed);
    case Body(members) => r := ParseKeySet(members);
  }

  lemma StoreSlots(view: Lru<KeySlice>, uri: Key, value: KeySlice, expiresAt: int, max: int)
    ensures forall k :: k in Store(view, uri, value, expiresAt, max).slots && k != uri ==>
              k in view.slots && Store(view, uri, value, expiresAt, max).slots[k] == view.slots[k]
  {
  }

  /** The body of a flight: look again, else fetch and store.  Its result is the cache's
      own slice. */
  method Flight(cache: Cache<KeySlice>, uri: Key, cfg: Config, reply: Reply, second: int, stored: int)
    returns (r: Result<KeySlice, Error>, asked: bool)
    requires cache.Valid() && MastersOwned(cache.view)
    modifies cache
    ensures cache.Valid() && MastersOwned(cache.view)
    ensures asked <==> !old(cache.view).Hit(uri, second)
    ensures !asked ==> r == Ok(old(cache.view).slots[uri].value) && cache.view == old(cache.view).Lookup(uri, second)
    ensures asked && r.Err? ==> Outcome(reply) == Err(r.error) && cache.view == old(cache.view)
    ensures asked && r.Ok? ==> fresh(r.value) && fresh(Extras(r.value.keys)) && Outcome(reply) == Ok(KeysOf(r.value.keys))
    ensures asked && r.Ok? ==>
              uri in cache.view.slots && cache.view.slots[uri].value == r.value &&
              cache.view == Store(old(cache.view), uri, r.value, stored + cfg.cacheTTL, cfg.maxEntries)
  {
    hide Stands, NoDup, Keys, Falling, Touch, Parsed, RecencyList.Store;
    var cached := cache.Lookup(uri, second);
    if cached.Some? {
      return Ok(cached.value), false;
    }
    r := FetchAndStore(cache, uri, cfg, reply, stored);
    asked := true;
  }

  method FetchAndStore(cache: Cache<KeySlice>, uri: Key, cfg: Config, reply: Reply, stored: int)
    returns (r: Result<KeySlice, Error>)
    requires cache.Valid() && MastersOwned(cache.view)
    modifies cache
    ensures cache.Valid() && MastersOwned(cache.view)
    ensures r.Err? ==> Outcome(reply) == Err(r.error) && cache.view == old(cache.view)
    ensures r.Ok? ==> fresh(r.value) && fresh(Extras(r.value.keys)) && Outcome(reply) == Ok(KeysOf(r.value.keys))
    ensures r.Ok? ==>
              uri in cache.view.slots && cache.view.slots[uri].value == r.value &&
              cache.view == Store(old(cache.view), uri, r.value, stored + cfg.cacheTTL, cfg.maxEntries)
  {
    r := FetchAndParse(reply);
    if r.Ok? {
      MastersStore(cache.view, uri, r.value, stored + cfg.cacheTTL, cfg.maxEntries);
      StoreInCache(cache, uri, r.value, stored, cfg);
    }
  }

  twostate lemma MastersStay(view: Lru<KeySlice>)
    requires old(MastersOwned(view))
    requires forall s :: s in Masters(view) ==> s.keys == old(s.keys)
    ensures MastersOwned(view)
  {
    forall k | k in view.slots ensures Owned(view.slots[k].value, SHARED) {
      assert view.slots[k].value in Masters(view) && old(Owned(view.slots[k].value, SHARED));
    }
  }

  /** Storing a slice writes nothing but the cache object itself. */
  method StoreInCache(cache: Cache<KeySlice>, uri: Key, value: KeySlice, stored: int, cfg: Config)
    requires cache.Valid()
    requires MastersOwned(Store(cache.view, uri, value, stored + cfg.cacheTTL, cfg.maxEntries))
    modifies cache
    ensures cache.Valid() && MastersOwned(cache.view)
    ensures cache.view == Store(old(cache.view), uri, value, stored + cfg.cacheTTL, cfg.maxEntries)
  {
    hide RecencyList.Store, Stands, MastersOwned, Owned;
    ghost var after := Store(cache.view, uri, value, stored + cfg.cacheTTL, cfg.maxEntries);
    cache.Store(uri, value, stored, cfg.cacheTTL, cfg.maxEntries);
    MastersStay(after);
  }

  lemma MastersStore(view: Lru<KeySlice>, uri: Key, value: KeySlice, expiresAt: int, max: int)
    requires view.Valid() && MastersOwned(view) && Owned(value, SHARED)
    ensures var after := Store(view, uri, value, expiresAt, max);
            MastersOwned(after) && uri in after.slots && after.slots[uri].value == value
  {
    JustStoredSurvives(view, uri, value, expiresAt, max);
    StoreSlots(view, uri, value, expiresAt, max);
    hide RecencyList.Store;
  }

  /** A lookup, then a flight of one's own: the cache's own slice, if there is one. */
  method FindMaster(cache: Cache<KeySlice>, uri: Key, cfg: Config, reply: Reply, t: Readings)
    returns (r: Result<KeySlice, Error>, asked: bool)
    requires cache.Valid() && MastersOwned(cache.view)
    modifies cache
    ensures cache.Valid() && MastersOwned(cache.view)
    ensures asked <==> !old(cache.view).Hit(uri, t.first) && !old(cache.view).Hit(uri, t.second)
    ensures r.Ok? ==> uri in cache.view.slots && cache.view.slots[uri].value == r.value
    ensures !asked ==> r == Ok(old(cache.view).slots[uri].value)
    ensures !asked ==> cache.view == old(cache.view).Lookup(uri, if old(cache.view).Hit(uri, t.first) then t.first else t.second)
    ensures asked && r.Err? ==> Outcome(reply) == Err(r.error) && cache.view == old(cache.view)
    ensures asked && r.Ok? ==> fresh(r.value) && fresh(Extras(r.value.keys)) && Outcome(reply) == Ok(KeysOf(r.value.keys))
    ensures asked && r.Ok? ==>
              cache.view == Store(old(cache.view), uri, r.value, t.stored + cfg.cacheTTL, cfg.maxEntries)
  {
    hide Stands, NoDup, Keys, Falling, Touch, Parsed, RecencyList.Store, Outcome;
    var cached := cache.Lookup(uri, t.first);
    if cached.Some? {
      return Ok(cached.value), false;
    }
    r, asked := Flight(cache, uri, cfg, reply, t.second, t.stored);
  }

  /** What `fetch` hands back: a copy with an owner of its own, while the cache keeps what the
      copy reads. */
  method Fetch(cache: Cache<KeySlice>, uri: Key, cfg: Config, reply: Reply, t: Readings)
    returns (r: Result<KeySlice, Error>, asked: bool)
    requires cache.Valid() && MastersOwned(cache.view)
    modifies cache
    ensures cache.Valid() && MastersOwned(cache.view)
    ensures asked <==> !old(cache.view).Hit(uri, t.first) && !old(cache.view).Hit(uri, t.second)
    ensures r.Ok? ==> fresh(r.value) && fresh(Extras(r.value.keys)) && Private(r.value) && fresh(r.value.owner)
    ensures r.Ok? ==> uri in cache.view.slots && CachedKeys(cache.view, uri) == KeysOf(r.value.keys)
    ensures !asked ==> r.Ok? && KeysOf(r.value.keys) == old(CachedKeys(cache.view, uri))
    ensures !asked ==> cache.view == old(cache.view).Lookup(uri, if old(cache.view).Hit(uri, t.first) then t.first else t.second)
    ensures asked && r.Err? ==> Outcome(reply) == Err(r.error) && cache.view == old(cache.view)
    ensures asked && r.Ok? ==> Outcome(reply) == Ok(KeysOf(r.value.keys))
    ensures asked && r.Ok? ==>
              cache.view == Store(old(cache.view), uri, cache.view.slots[uri].value, t.stored + cfg.cacheTTL, cfg.maxEntries)
  {
    hide Stands, NoDup, Keys, Falling, Touch, Parsed, RecencyList.Store, Outcome, MastersOwned;
    var master, sent := FindMaster(cache, uri, cfg, reply, t);
    if master.Err? {
      return Err(master.error), sent;
    }
    label Found:
    var copy := CloneKeys(master.value);
    ghost var view, shared := cache.view, master.value.keys;
    Unwritten@Found(shared);
    MastersStay@Found(view);
    return Ok(copy), sent;
  }

  /** Within the time to live of what a first fetch stored, a second one asks nobody and reads
      the same keys, whatever the first caller has done to its copy meanwhile; afterwards it
      asks again. */
  method FetchTwice(cache: Cache<KeySlice>, uri: Key, cfg: Config, reply: Reply, reply': Reply, t: Readings, t': Readings, scribble: seq<Jwk>)
    returns (a: Result<KeySlice, Error>, b: Result<KeySlice, Error>, asked: bool, asked': bool, ghost first: seq<KeyVal>)
    requires cache.Valid() && MastersOwned(cache.view)
    modifies cache
    ensures cache.Valid() && MastersOwned(cache.view)
    ensures asked && a.Ok? ==> Outcome(reply) == Ok(first)
    ensures asked && a.Ok? && t'.first < t.stored + cfg.cacheTTL ==> !asked' && b.Ok? && KeysOf(b.value.keys) == first
    ensures asked && a.Ok? && t'.first >= t.stored + cfg.cacheTTL && t'.second >= t.stored + cfg.cacheTTL ==> asked'
  {
    assert cache.view.Valid();
    hide Stands, NoDup, Keys, Falling, Touch, Parsed, Outcome, MastersOwned, RecencyList.Store;
    ghost var before := cache.view;
    first := [];
    a, asked := Fetch(cache, uri, cfg, reply, t);
    if a.Ok? {
      first := KeysOf(a.value.keys);
      StoredHits(before, uri, cache.view.slots[uri].value, t.stored + cfg.cacheTTL, cfg.maxEntries, t'.first);
      StoredHits(before, uri, cache.view.slots[uri].value, t.stored + cfg.cacheTTL, cfg.maxEntries, t'.second);
      Scribble(a.value, cache, uri, scribble);
    }
    b, asked' := Fetch(cache, uri, cfg, reply', t');
  }

  /** A caller writes over its own copy. */
  method Scribble(mine: KeySlice, cache: Cache<KeySlice>, uri: Key, keys: seq<Jwk>)
    requires Private(mine) && MastersOwned(cache.view) && uri in cache.view.slots
    modifies mine
    ensures MastersOwned(cache.view) && CachedKeys(cache.view, uri) == old(CachedKeys(cache.view, uri))
  {
    mine.keys := keys;
    ghost var view := cache.view;
    ghost var master := view.slots[uri].value.keys;
    MastersStay(view);
    Unwritten(master);
  }

  // ---- the refresh protocol of a handle ----

  datatype Resolution =
    | Resolved(key: Jwk)
    | NotFound
    | Failed(error: Error)

  ghost predicate HasKid(ks: seq<KeyVal>, kid: string) {
    exists i :: 0 <= i < |ks| && ks[i].params.kid == kid
  }

  /** The first key of that kid. */
  ghost predicate FirstWithKid(ks: seq<KeyVal>, kid: string, k: KeyVal) {
    exists i :: 0 <= i < |ks| && ks[i] == k && k.params.kid == kid && forall j :: 0 <= j < i ==> ks[j].params.kid != kid
  }

  class Handle {
    const uri: Key
    const cfg: Config
    const cache: Cache<KeySlice>
    var keys: KeySlice

    constructor (uri: Key, cfg: Config, cache: Cache<KeySlice>, keys: KeySlice)
      ensures this.uri == uri && this.cfg == cfg && this.cache == cache && this.keys == keys
    {
      this.uri, this.cfg, this.cache, this.keys := uri, cfg, cache, keys;
    }

    ghost predicate Valid()
      reads this, keys, cache, Masters(cache.view)
    {
      cache.Valid() && MastersOwned(cache.view) && Private(keys)
    }

    /** What a reader of the handle's keys observes. */
    ghost function Contents(): seq<KeyVal>
      reads this, keys, Extras(keys.keys)
    {
      KeysOf(keys.keys)
    }

    method ResolveKey(kid: string) returns (r: Option<Jwk>, ghost owner: Owner)
      ensures fresh(owner)
      ensures r.Some? <==> HasKid(Contents(), kid)
      ensures r.Some? ==> FirstWithKid(Contents(), kid, KeyOf(r.value))
      ensures r.Some? ==> fresh(Extra(r.value)) && AllOwned([r.value], owner)
    {
      owner := new Owner();
      var i := 0;
      while i < |keys.keys|
        invariant 0 <= i <= |keys.keys|
        invariant forall j :: 0 <= j < i ==> keys.keys[j].params.kid != kid
      {
        if keys.keys[i].params.kid == kid {
          var k := CloneKey(keys.keys[i], owner);
          KeysOfAll(keys.keys);
          assert KeyOf(k) == KeysOf(keys.keys)[i];
          assert Extras([k]) == Extra(k);
          return Some(k), owner;
        }
        i := i + 1;
      }
      KeysOfAll(keys.keys);
      r := None;
    }

    /** Drop the cached entry, fetch, and on success restart the cooldown and take over the
        fresh keys, which the cache then holds too.  The server is asked exactly once, so the
        keys are never older than the call. */
    method ForceRefresh(reply: Reply, t: Readings, markedAt: int) returns (err: Option<Error>, asked: bool)
      requires Valid()
      modifies this, cache
      ensures Valid() && asked
      ensures err.None? <==> Outcome(reply).Ok?
      ensures err.None? ==> Outcome(reply) == Ok(Contents()) && fresh(keys) && fresh(keys.owner)
      ensures err.None? ==> uri in cache.view.slots && CachedKeys(cache.view, uri) == Contents()
      ensures err.Some? ==> Outcome(reply) == Err(err.value) && keys == old(keys)
      ensures RefreshStep(old(cache.view), uri, Done(cache.view, uri, cfg, t, markedAt, err.None?), cache.view, cfg.maxEntries)
    {
      hide Stands, NoDup, Keys, Falling, Parsed, Throttled, RecencyList.Store, Marked, Outcome, Touch, Shrink, Cut, Insert, Capped, Owned;
      cache.Invalidate(uri);
      var res;
      res, asked := Fetch(cache, uri, cfg, reply, t);
      if res.Err? {
        return Some(res.error), asked;
      }
      Adopt(res.value, markedAt);
      err := None;
    }

    /** The end of a successful refresh: the cooldown is marked and the keys are taken over. */
    method Adopt(copy: KeySlice, markedAt: int)
      requires cache.Valid() && MastersOwned(cache.view) && Private(copy)
      requires uri in cache.view.slots && CachedKeys(cache.view, uri) == KeysOf(copy.keys)
      modifies this, cache
      ensures Valid() && keys == copy && Contents() == old(KeysOf(copy.keys))
      ensures cache.view == old(cache.view).(refreshed := cache.view.refreshed)
      ensures Marked(old(cache.view).refreshed, cache.view.refreshed, uri, markedAt, cfg.maxEntries)
      ensures CachedKeys(cache.view, uri) == Contents()
    {
      hide Stands, Marked;
      ghost var view, mine, shared := cache.view, copy.keys, cache.view.slots[uri].value.keys;
      cache.MarkRefresh(uri, markedAt, cfg.maxEntries);
      keys := copy;
      Unwritten(shared);
      Unwritten(mine);
      MastersStay(view);
    }

    /** Resolve, and on a miss refresh once unless the cooldown of the URI is running.  The
        server is asked exactly if the kid is not known and no refresh of the URI was recorded
        less than a cooldown ago. */
    method ResolveKeyWithRefresh(kid: string, checkedAt: int, reply: Reply, t: Readings, markedAt: int)
      returns (r: Resolution, asked: bool, ghost owner: Owner)
      requires Valid()
      modifies this, cache
      ensures Valid() && fresh(owner)
      ensures asked <==>
                && !old(HasKid(Contents(), kid))
                && !old(cfg.refreshCooldown > 0 && uri in cache.view.refreshed
                        && checkedAt - cache.view.refreshed[uri] < cfg.refreshCooldown)
      ensures !asked ==> cache.view == old(cache.view) && keys == old(keys) && Contents() == old(Contents()) && !r.Failed?
      ensures asked ==> (r.Failed? <==> Outcome(reply).Err?) && (r.Failed? ==> Outcome(reply) == Err(r.error))
      ensures asked && !r.Failed? ==> Outcome(reply) == Ok(Contents())
      ensures asked ==>
                RefreshStep(old(cache.view), uri, Done(cache.view, uri, cfg, t, markedAt, !r.Failed?), cache.view, cfg.maxEntries)
      ensures !r.Failed? ==> (r.Resolved? <==> HasKid(Contents(), kid))
      ensures r.Resolved? ==> FirstWithKid(Contents(), kid, KeyOf(r.key)) && fresh(Extra(r.key)) && AllOwned([r.key], owner)
    {
      hide Stands, Outcome, RefreshStep, Throttled;
      var found;
      found, owner := ResolveKey(kid);
      if found.Some? {
        return Resolved(found.value), false, owner;
      }
      var throttled := cache.RefreshThrottled(uri, checkedAt, cfg.refreshCooldown);
      if throttled {
        return NotFound, false, owner;
      }
      var err;
      err, asked := ForceRefresh(reply, t, markedAt);
      if err.Some? {
        return Failed(err.value), asked, owner;
      }
      found, owner := ResolveKey(kid);
      if found.Some? {
        return Resolved(found.value), asked, owner;
      }
      return NotFound, asked, owner;
    }
  }

  /** What a refresh that leaves `view` fetched, if it succeeded. */
  ghost function Done(view: Lru<KeySlice>, uri: Key, cfg: Config, t: Readings, markedAt: int, success: bool): Option<Refreshed<KeySlice>> {
    if success && uri in view.slots then Some(Refreshed(view.slots[uri].value, t.stored + cfg.cacheTTL, markedAt)) else None
  }

  /** A first handle on `uri`, with a copy of the keys that the cache holds. */
  method FetchKeySet(cache: Cache<KeySlice>, uri: Key, cfg: Config, reply: Reply, t: Readings)
    returns (r: Result<Handle, Error>, asked: bool)
    requires cache.Valid() && MastersOwned(cache.view)
    modifies cache
    ensures cache.Valid() && MastersOwned(cache.view)
    ensures asked <==> !old(cache.view).Hit(uri, t.first) && !old(cache.view).Hit(uri, t.second)
    ensures r.Ok? ==> fresh(r.value) && r.value.Valid() && r.value.cache == cache && r.value.uri == uri && r.value.cfg == cfg
    ensures r.Ok? ==> fresh(r.value.keys) && fresh(r.value.keys.owner) && fresh(Extras(r.value.keys.keys))
    ensures r.Ok? ==> uri in cache.view.slots && CachedKeys(cache.view, uri) == r.value.Contents()
    ensures !asked ==> r.Ok? && r.value.Contents() == old(CachedKeys(cache.view, uri))
    ensures !asked ==> cache.view == old(cache.view).Lookup(uri, if old(cache.view).Hit(uri, t.first) then t.first else t.second)
    ensures asked && r.Err? ==> Outcome(reply) == Err(r.error) && cache.view == old(cache.view)
    ensures asked && r.Ok? ==> Outcome(reply) == Ok(r.value.Contents())
    ensures asked && r.Ok? ==>
              cache.view == Store(old(cache.view), uri, cache.view.slots[uri].value, t.stored + cfg.cacheTTL, cfg.maxEntries)
  {
    hide Stands, NoDup, Keys, Falling, Touch, Parsed, RecencyList.Store, Outcome, Owned;
    var res, sent := Fetch(cache, uri, cfg, reply, t);
    if res.Err? {
      return Err(res.error), sent;
    }
    label Got:
    var h := new Handle(uri, cfg, cache, res.value);
    ghost var view, mine, shared := cache.view, res.value.keys, cache.view.slots[uri].value.keys;
    Unwritten@Got(shared);
    Unwritten@Got(mine);
    MastersStay@Got(view);
    return Ok(h), sent;
  }

  // ---- isolation ----

  // "Everything allocated that does not belong to `p` is as it was" says that the only slices
  // and maps the program wrote to are those of `p`, whatever else it did.

  /** Writes through everything that belongs to `p`, be it another handle's keys or a key
      handed out on its own, do not change what this handle reads. */
  twostate lemma HandleIsIsolated(h: Handle, p: Owner)
    requires old(Private(h.keys)) && old(h.keys.owner) != p && h.keys == old(h.keys)
    requires forall o: KeySlice :: old(allocated(o)) && o.owner != p ==> o.keys == old(o.keys)
    requires forall o: ExtraMap :: old(allocated(o)) && o.owner != p ==> o.fields == old(o.fields)
    ensures h.Contents() == old(h.Contents()) && Private(h.keys)
  {
    var mine := h.keys.keys;
    assert forall x :: x in Extras(mine) ==> x.fields == old(x.fields);
    Unwritten(mine);
  }

  /** Nor do they change what the cache holds for any URI. */
  twostate lemma CacheIsIsolated(view: Lru<KeySlice>, p: Owner)
    requires old(MastersOwned(view))
    requires forall o: KeySlice :: old(allocated(o)) && o.owner != p ==> o.keys == old(o.keys)
    requires forall o: ExtraMap :: old(allocated(o)) && o.owner != p ==> o.fields == old(o.fields)
    ensures MastersOwned(view) && forall k :: k in view.slots ==> CachedKeys(view, k) == old(CachedKeys(view, k))
  {
    forall k | k in view.slots
      ensures Owned(view.slots[k].value, SHARED) && CachedKeys(view, k) == old(CachedKeys(view, k))
    {
      var shared := view.slots[k].value.keys;
      assert old(Owned(view.slots[k].value, SHARED));
      assert forall x :: x in Extras(shared) ==> x.fields == old(x.fields);
      Unwritten(shared);
    }
  }

  lemma KeysOfAll(ks: seq<Jwk>)
    ensures |KeysOf(ks)| == |ks|
    ensures forall i :: 0 <= i < |ks| ==> KeysOf(ks)[i] == KeyOf(ks[i])
  {
    if ks != [] { KeysOfIndex(ks, 0); }
    forall i | 0 <= i < |ks| ensures |KeysOf(ks)| == |ks| && KeysOf(ks)[i] == KeyOf(ks[i]) { KeysOfIndex(ks, i); }
  }
}
