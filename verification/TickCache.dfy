/** The bounded TTL cache with atomic recency ticks, run one call at a time.

    One class stands for both Go caches: the JWK Set cache, and the discovery cache,
    which has no cooldown sidecar and whose instances therefore keep `lastRefresh`
    empty.  Every method is proved against the recency list of `RecencyList`; the
    instant `now` is the clock reading the call takes. */
module TickCache {
  import opened Options
  import opened RecencyList

  datatype CacheEntry<+V> = CacheEntry(value: V, expiresAt: int, lastAccess: int)

  ghost function Slots<V>(entries: map<Key, CacheEntry<V>>): map<Key, Slot<V>> {
    map k | k in entries :: Slot(entries[k].value, entries[k].expiresAt)
  }

  ghost function Ticks<V>(entries: map<Key, CacheEntry<V>>): map<Key, int> {
    map k | k in entries :: entries[k].lastAccess
  }

  /** The entries stand for the recency list `view`: same slots, with ticks that fall
      strictly along the list and never exceed the counter. */
  ghost predicate Stands<V>(entries: map<Key, CacheEntry<V>>, counter: int, view: Lru<V>) {
    && view.Valid()
    && view.slots == Slots(entries)
    && Falling(view.order, Ticks(entries))
    && forall k :: k in entries ==> entries[k].lastAccess <= counter
  }

  class Cache<V> {
    var entries: map<Key, CacheEntry<V>>
    var accessCounter: int
    var lastRefresh: map<Key, int>

    /** The recency list this cache stands for; `ViewIsDetermined` shows that the entries
        and the sidecar leave no choice in it. */
    ghost var view: Lru<V>

    ghost predicate Valid()
      reads this
    {
      Stands(entries, accessCounter, view) && view.refreshed == lastRefresh
    }

    constructor ()
      ensures Valid() && view == Lru([], map[], map[])
    {
      entries, accessCounter, lastRefresh, view := map[], 0, map[], Lru([], map[], map[]);
    }

    method NextTick() returns (tick: int)
      modifies this`accessCounter
      ensures tick == accessCounter == old(accessCounter) + 1
    {
      accessCounter := accessCounter + 1;
      tick := accessCounter;
    }

    method Lookup(key: Key, now: int) returns (r: Option<V>)
      requires Valid()
      modifies this
      ensures Valid() && lastRefresh == old(lastRefresh)
      ensures r == old(view).Found(key, now)
      ensures view == old(view).Lookup(key, now)
    {
      if key !in entries {
        return None;
      }
      var entry := entries[key];
      if !(now < entry.expiresAt) {
        return None;
      }
      var tick := NextTick();
      StandsHit(entries, tick, view, key, now);
      entries := entries[key := entry.(lastAccess := tick)];
      view := view.Lookup(key, now);
      r := Some(entry.value);
    }

    method Store(key: Key, value: V, now: int, ttl: int, maxEntries: int)
      requires Valid()
      modifies this
      ensures Valid()
      ensures view == RecencyList.Store(old(view), key, value, now + ttl, maxEntries)
    {
      var tick := NextTick();
      StandsInsert(entries, tick, view, key, value, now + ttl);
      entries := entries[key := CacheEntry(value, now + ttl, tick)];
      view := Insert(view, key, value, now + ttl);
      Evict(maxEntries);
    }

    method Evict(maxEntries: int)
      requires Valid()
      modifies this`entries, this`lastRefresh, this`view
      ensures Valid()
      ensures view == Shrink(old(view), maxEntries)
    {
      hide NoDup, Keys, Falling, Slots, Ticks, Cut;
      ghost var was := view;
      WholeCut(was);
      if maxEntries <= 0 {
        return;
      }
      while |entries| > maxEntries
        invariant Valid() && CutDown(was, view, maxEntries)
      {
        var victim := LeastRecent(entries, accessCounter, view);
        EntryCount(entries, accessCounter, view);
        StandsCut(entries, accessCounter, view);
        CutMore(was, view, maxEntries);
        entries := entries - {victim};
        lastRefresh := lastRefresh - {victim};
        view := Cut(view, |view.order| - 1);
      }
      EntryCount(entries, accessCounter, view);
      CutEnough(was, view, maxEntries);
    }

    method Invalidate(key: Key)
      requires Valid()
      modifies this`entries, this`view
      ensures Valid()
      ensures view == old(view).Invalidate(key)
    {
      StandsDrop(entries, accessCounter, view, key);
      entries := entries - {key};
      view := view.Invalidate(key);
    }

    method Clear()
      modifies this`entries, this`lastRefresh, this`view
      ensures Valid() && view == Lru([], map[], map[])
    {
      entries, lastRefresh, view := map[], map[], Lru([], map[], map[]);
    }

    method MarkRefresh(key: Key, now: int, maxEntries: int)
      requires Valid()
      modifies this`lastRefresh, this`view
      ensures Valid()
      ensures view == old(view).(refreshed := lastRefresh)
      ensures Marked(old(lastRefresh), lastRefresh, key, now, maxEntries)
    {
      lastRefresh := lastRefresh[key := now];
      if maxEntries > 0 {
        CapRefresh(maxEntries);
      }
      view := view.(refreshed := lastRefresh);
    }

    /** The cap of `markRefresh`: drop a least recently refreshed record while there are
        too many. */
    method CapRefresh(maxEntries: int)
      requires maxEntries > 0
      modifies this`lastRefresh
      ensures Capped(old(lastRefresh), lastRefresh, maxEntries)
    {
      ghost var all := lastRefresh;
      while |lastRefresh| > maxEntries
        invariant Capped(all, lastRefresh, if |all| <= maxEntries then maxEntries else |lastRefresh|)
        invariant |all| > maxEntries ==> |lastRefresh| >= maxEntries
      {
        var oldest := LeastRecentlyRefreshed();
        ghost var before := lastRefresh;
        lastRefresh := lastRefresh - {oldest};
        assert lastRefresh.Keys == before.Keys - {oldest};
        assert |lastRefresh.Keys| == |before.Keys| - 1;
      }
    }

    /** Some oldest record: when instants tie, any of them may be the one found. */
    method LeastRecentlyRefreshed() returns (oldest: Key)
      requires lastRefresh != map[]
      ensures oldest in lastRefresh
      ensures forall k :: k in lastRefresh ==> lastRefresh[oldest] <= lastRefresh[k]
    {
      var todo := lastRefresh.Keys;
      var instant, found := 0, false;
      oldest := Key("");
      while todo != {}
        invariant todo <= lastRefresh.Keys
        invariant found <==> todo != lastRefresh.Keys
        invariant found ==> oldest in lastRefresh && instant == lastRefresh[oldest]
        invariant found ==> forall k :: k in lastRefresh.Keys - todo ==> instant <= lastRefresh[k]
      {
        var k :| k in todo;
        var t := lastRefresh[k];
        if !found || t < instant {
          oldest, instant, found := k, t, true;
        }
        todo := todo - {k};
      }
    }

    method RefreshThrottled(key: Key, now: int, cooldown: int) returns (throttled: bool)
      ensures throttled <==> Throttled(lastRefresh, key, now, cooldown)
      ensures throttled <==> cooldown > 0 && key in lastRefresh && now < lastRefresh[key] + cooldown
    {
      if cooldown <= 0 {
        return false;
      }
      if key !in lastRefresh {
        return false;
      }
      return now - lastRefresh[key] < cooldown;
    }
  }

  /** The scan for the smallest tick.  The victim is unique, so it does not depend on the
      order in which the keys are visited. */
  method LeastRecent<V>(entries: map<Key, CacheEntry<V>>, ghost counter: int, ghost view: Lru<V>) returns (victim: Key)
    requires Stands(entries, counter, view) && entries != map[]
    ensures victim in entries
    ensures forall k :: k in entries && k != victim ==> entries[victim].lastAccess < entries[k].lastAccess
    ensures view.order != [] && victim == view.order[|view.order| - 1]
  {
    var todo := entries.Keys;
    var lruTick, found := 0, false;
    victim := Key("");
    while todo != {}
      invariant todo <= entries.Keys
      invariant found <==> todo != entries.Keys
      invariant found ==> victim in entries.Keys - todo && lruTick == entries[victim].lastAccess
      invariant found ==> forall k :: k in entries.Keys - todo ==> lruTick <= entries[k].lastAccess
    {
      var k :| k in todo;
      var t := entries[k].lastAccess;
      if !found || t < lruTick {
        victim, lruTick, found := k, t, true;
      }
      todo := todo - {k};
    }
    assert Keys(view.order) == entries.Keys;
    LastIsLeast(view.order, Ticks(entries), victim);
    forall k | k in entries && k != victim ensures entries[victim].lastAccess < entries[k].lastAccess {
      assert k in Keys(view.order) && Ticks(entries)[victim] < Ticks(entries)[k];
    }
  }

  // ---- one change of the entries, one change of the list ----

  lemma PutParts<V>(entries: map<Key, CacheEntry<V>>, key: Key, entry: CacheEntry<V>)
    ensures Slots(entries[key := entry]) == Slots(entries)[key := Slot(entry.value, entry.expiresAt)]
    ensures Ticks(entries[key := entry]) == Ticks(entries)[key := entry.lastAccess]
  {
  }

  lemma DropParts<V>(entries: map<Key, CacheEntry<V>>, key: Key)
    ensures Slots(entries - {key}) == Slots(entries) - {key}
    ensures Ticks(entries - {key}) == Ticks(entries) - {key}
  {
  }

  lemma StandsHit<V>(entries: map<Key, CacheEntry<V>>, tick: int, view: Lru<V>, key: Key, now: int)
    requires Stands(entries, tick - 1, view) && view.Hit(key, now)
    ensures Stands(entries[key := entries[key].(lastAccess := tick)], tick, view.Lookup(key, now))
  {
    LookupValid(view, key, now);
    TouchFalling(view.order, Ticks(entries), key, tick);
    PutParts(entries, key, entries[key].(lastAccess := tick));
    assert Slots(entries)[key := Slots(entries)[key]] == Slots(entries);
  }

  lemma StandsInsert<V>(entries: map<Key, CacheEntry<V>>, tick: int, view: Lru<V>, key: Key, value: V, expiresAt: int)
    requires Stands(entries, tick - 1, view)
    ensures Stands(entries[key := CacheEntry(value, expiresAt, tick)], tick, Insert(view, key, value, expiresAt))
  {
    InsertValid(view, key, value, expiresAt);
    TouchFalling(view.order, Ticks(entries), key, tick);
    PutParts(entries, key, CacheEntry(value, expiresAt, tick));
  }

  lemma StandsDrop<V>(entries: map<Key, CacheEntry<V>>, counter: int, view: Lru<V>, key: Key)
    requires Stands(entries, counter, view)
    ensures Stands(entries - {key}, counter, view.Invalidate(key))
  {
    InvalidateValid(view, key);
    WithoutFalling(view.order, Ticks(entries), key);
    DropParts(entries, key);
  }

  lemma StandsCut<V>(entries: map<Key, CacheEntry<V>>, counter: int, view: Lru<V>)
    requires Stands(entries, counter, view) && view.order != []
    ensures var n := |view.order| - 1; var last := view.order[n];
            && Stands(entries - {last}, counter, Cut(view, n))
            && Cut(view, n).refreshed == view.refreshed - {last}
  {
    var n := |view.order| - 1;
    var last := view.order[n];
    CutLast(view);
    CutValid(view, n);
    FallingPrefix(view.order, Ticks(entries), n);
    DropParts(entries, last);
  }

  lemma EntryCount<V>(entries: map<Key, CacheEntry<V>>, counter: int, view: Lru<V>)
    requires Stands(entries, counter, view)
    ensures |entries| == |view.order|
  {
    KeysSize(view.order);
    assert Keys(view.order) == entries.Keys;
  }

  /** Entries and sidecar determine the recency list they stand for. */
  lemma ViewIsDetermined<V>(entries: map<Key, CacheEntry<V>>, counter: int, view: Lru<V>, view': Lru<V>)
    requires Stands(entries, counter, view) && Stands(entries, counter, view')
    requires view.refreshed == view'.refreshed
    ensures view == view'
  {
    OrderIsDetermined(view.order, view'.order, Ticks(entries));
  }

  // ---- cutting the list one key at a time ----

  lemma WholeCut<V>(c: Lru<V>)
    ensures Cut(c, |c.order|) == c
  {
    assert c.order[|c.order|..] == [];
  }

  lemma CutLast<V>(c: Lru<V>)
    requires c.order != []
    ensures var n := |c.order| - 1;
            Cut(c, n) == Lru(c.order[..n], c.slots - {c.order[n]}, c.refreshed - {c.order[n]})
  {
    var n := |c.order| - 1;
    assert c.order[n..] == [c.order[n]];
    assert Keys(c.order[n..]) == {c.order[n]};
  }

  /** `now` is `was` after some of the evictions that the bound `max` asks for. */
  ghost predicate CutDown<V>(was: Lru<V>, now: Lru<V>, max: int) {
    && |now.order| <= |was.order|
    && now == Cut(was, |now.order|)
    && (|now.order| == |was.order| || max <= |now.order|)
  }

  lemma CutMore<V>(was: Lru<V>, now: Lru<V>, max: int)
    requires CutDown(was, now, max) && 0 <= max < |now.order|
    ensures CutDown(was, Cut(now, |now.order| - 1), max)
  {
    var n := |now.order| - 1;
    assert was.order[..n + 1][n..] == [was.order[n]];
    assert was.order[n..] == [was.order[n]] + was.order[n + 1..];
    assert Keys(was.order[n..]) == Keys(was.order[n + 1..]) + Keys([was.order[n]]);
  }

  lemma CutEnough<V>(was: Lru<V>, now: Lru<V>, max: int)
    requires CutDown(was, now, max) && 0 < max && |now.order| <= max
    ensures now == Shrink(was, max)
  {
  }

  // ---- ticks along the recency order ----

  /** Every key of `s` has a tick, and the ticks fall strictly along `s`. */
  ghost predicate Falling(s: seq<Key>, tick: map<Key, int>) {
    s == [] || (s[0] in tick && (forall k :: k in s[1..] ==> k in tick && tick[k] < tick[s[0]]) && Falling(s[1..], tick))
  }

  lemma {:induction false} FallingAgree(s: seq<Key>, tick: map<Key, int>, tick': map<Key, int>)
    requires Falling(s, tick)
    requires forall k :: k in s && k in tick ==> k in tick' && tick'[k] == tick[k]
    ensures Falling(s, tick')
  {
    if s == [] {
    } else {
      FallingAgree(s[1..], tick, tick');
    }
  }

  lemma {:induction false} WithoutFalling(s: seq<Key>, tick: map<Key, int>, key: Key)
    requires Falling(s, tick)
    ensures Falling(Without(s, key), tick)
    ensures Falling(Without(s, key), tick - {key})
  {
    if s == [] {
    } else {
      WithoutFalling(s[1..], tick, key);
      FallingAgree(Without(s, key), tick, tick - {key});
    }
  }

  lemma {:induction false} FallingPrefix(s: seq<Key>, tick: map<Key, int>, n: nat)
    requires Falling(s, tick) && n < |s| && NoDup(s)
    ensures Falling(s[..n], tick - {s[n]})
  {
    CutNoDup(s, n);
    FallingTake(s, tick, n);
    FallingAgree(s[..n], tick, tick - {s[n]});
  }

  lemma {:induction false} FallingTake(s: seq<Key>, tick: map<Key, int>, n: nat)
    requires Falling(s, tick) && n <= |s|
    ensures Falling(s[..n], tick)
  {
    if n > 0 {
      FallingTake(s[1..], tick, n - 1);
      assert s[..n][1..] == s[1..][..n - 1];
    }
  }

  lemma TouchFalling(s: seq<Key>, tick: map<Key, int>, key: Key, t: int)
    requires Falling(s, tick)
    requires forall k :: k in tick ==> tick[k] < t
    ensures Falling(Touch(s, key), tick[key := t])
  {
    WithoutFalling(s, tick, key);
    FallingAgree(Without(s, key), tick, tick[key := t]);
    FallingKeys(Without(s, key), tick);
    assert Touch(s, key)[1..] == Without(s, key);
  }

  lemma FallingKeys(s: seq<Key>, tick: map<Key, int>)
    requires Falling(s, tick)
    ensures forall k :: k in s ==> k in tick
  {
  }

  /** The smallest tick belongs to the last key, and to no other. */
  lemma {:induction false} LastIsLeast(s: seq<Key>, tick: map<Key, int>, victim: Key)
    requires Falling(s, tick) && victim in s && victim in tick
    requires forall k :: k in s && k in tick ==> tick[victim] <= tick[k]
    ensures victim == s[|s| - 1]
    ensures forall k :: k in s && k in tick && k != victim ==> tick[victim] < tick[k]
  {
    if |s| == 1 {
    } else {
      assert s[1] in s[1..];
      assert victim in s[1..];
      LastIsLeast(s[1..], tick, victim);
    }
  }

  lemma EmptyKeys(s: seq<Key>)
    ensures Keys(s) == {} <==> s == []
  {
    assert s != [] ==> s[0] in Keys(s);
  }

  /** Ticks determine the recency order: it is a function of the entries alone. */
  lemma {:induction false} OrderIsDetermined(s: seq<Key>, t: seq<Key>, tick: map<Key, int>)
    requires Falling(s, tick) && Falling(t, tick)
    requires Keys(s) == Keys(t)
    ensures s == t
    decreases |s|
  {
    if s != [] && t != [] {
      assert s[0] in Keys(t) && t[0] in Keys(s);
      assert s[0] == t[0];
      assert Keys(s) == {s[0]} + Keys(s[1..]) && Keys(t) == {t[0]} + Keys(t[1..]);
      OrderIsDetermined(s[1..], t[1..], tick);
    } else {
      EmptyKeys(s);
      EmptyKeys(t);
    }
  }
}
