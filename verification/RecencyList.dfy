/** The reference cache: a recency list with a time to live per key.

    `order` lists the cached keys, most recently used first; `refreshed` is the
    refresh-cooldown sidecar.  The tick-based cache of `TickCache` is proved to
    behave like this one, and what the cache promises over whole runs is proved
    here, once, for the reference. */
module RecencyList {
  import opened Options

  /** A cache key: a jwks_uri or an issuer URL. */
  datatype Key = Key(url: string)

  datatype Slot<+V> = Slot(value: V, expiresAt: int)

  datatype Lru<+V> = Lru(order: seq<Key>, slots: map<Key, Slot<V>>, refreshed: map<Key, int>)
  {
    ghost predicate Valid() {
      NoDup(order) && Keys(order) == slots.Keys
    }

    /** The lookup of `k` at instant `now` returns a value. */
    ghost predicate Hit(k: Key, now: int) {
      k in slots && now < slots[k].expiresAt
    }

    ghost function Found(k: Key, now: int): Option<V> {
      if Hit(k, now) then Some(slots[k].value) else None
    }

    /** An unexpired hit moves the key to the front; anything else changes nothing. */
    ghost function Lookup(k: Key, now: int): Lru<V> {
      if Hit(k, now) then this.(order := Touch(order, k)) else this
    }

    ghost function Invalidate(k: Key): Lru<V> {
      Lru(Without(order, k), slots - {k}, refreshed)
    }
  }

  /** `k` goes to the front with a new slot, then the tail beyond `max` is dropped,
      together with the cooldown records of the dropped keys. */
  ghost function Store<V>(c: Lru<V>, k: Key, v: V, expiresAt: int, max: int): Lru<V> {
    Shrink(Insert(c, k, v, expiresAt), max)
  }

  ghost function Insert<V>(c: Lru<V>, k: Key, v: V, expiresAt: int): Lru<V> {
    Lru(Touch(c.order, k), c.slots[k := Slot(v, expiresAt)], c.refreshed)
  }

  ghost function Shrink<V>(c: Lru<V>, max: int): Lru<V> {
    Cut(c, |Fit(c.order, max)|)
  }

  /** Only the first `n` keys stay. */
  ghost function Cut<V>(c: Lru<V>, n: nat): Lru<V>
    requires n <= |c.order|
  {
    var gone := Keys(c.order[n..]);
    Lru(c.order[..n], c.slots - gone, c.refreshed - gone)
  }

  /** A bound of zero or less is the unbounded escape hatch. */
  ghost function Fit(s: seq<Key>, max: int): (r: seq<Key>)
    ensures r <= s
  {
    if max <= 0 || |s| <= max then s else s[..max]
  }

  // ---- the refresh-cooldown sidecar ----

  /** `after` is what marking `k` at `now` may leave of `before` under the bound `max`:
      the records that stay are unchanged, they are as many as the bound admits, and none
      of the dropped ones is more recent than one that stays. */
  ghost predicate Marked(before: map<Key, int>, after: map<Key, int>, k: Key, now: int, max: int) {
    if max <= 0 then after == before[k := now] else Capped(before[k := now], after, max)
  }

  ghost predicate Capped(all: map<Key, int>, after: map<Key, int>, max: int) {
    && after.Keys <= all.Keys
    && (forall x :: x in after ==> after[x] == all[x])
    && |after| == (if |all| <= max then |all| else max)
    && forall x, y :: x in all && x !in after && y in after ==> all[x] <= after[y]
  }

  ghost predicate Throttled(refreshed: map<Key, int>, k: Key, now: int, cooldown: int) {
    cooldown > 0 && k in refreshed && now - refreshed[k] < cooldown
  }

  /** What a refresh fetched: a value, when it expires, and the instant it was marked. */
  datatype Refreshed<+V> = Refreshed(value: V, expiresAt: int, mark: int)

  /** A forced refresh of `uri`: the entry is dropped, and on success the fetched value is
      stored and the cooldown record marked. */
  ghost predicate RefreshStep<V>(before: Lru<V>, uri: Key, done: Option<Refreshed<V>>, after: Lru<V>, max: int) {
    match done
    case None => after == before.Invalidate(uri)
    case Some(d) =>
      var stored := Store(before.Invalidate(uri), uri, d.value, d.expiresAt, max);
      after == stored.(refreshed := after.refreshed) && Marked(stored.refreshed, after.refreshed, uri, d.mark, max)
  }

  /** The record just marked survives its own cap when it is the latest of all. */
  lemma LatestMarkSurvives(before: map<Key, int>, after: map<Key, int>, k: Key, now: int, max: int)
    requires Marked(before, after, k, now, max)
    requires forall x :: x in before && x != k ==> before[x] < now
    ensures k in after && after[k] == now
  {
    var all := before[k := now];
    assert |all| >= 1 by { assert k in all; }
    assert after.Keys != {} by { assert |after.Keys| >= 1; }
    var y :| y in after;
    if y != k {
      assert all[y] == before[y] < all[k];
    }
  }

  // ---- sequences without repetition ----

  ghost predicate NoDup(s: seq<Key>) {
    s == [] || (s[0] !in s[1..] && NoDup(s[1..]))
  }

  ghost function Keys(s: seq<Key>): set<Key> {
    set k | k in s
  }

  ghost function Touch(s: seq<Key>, k: Key): seq<Key> {
    [k] + Without(s, k)
  }

  ghost function Without(s: seq<Key>, k: Key): (r: seq<Key>)
    ensures forall x :: x in r <==> x in s && x != k
  {
    if s == [] then []
    else if s[0] == k then Without(s[1..], k)
    else [s[0]] + Without(s[1..], k)
  }

  /** The members of `s` that lie in `keep`, in the order of `s`. */
  ghost function Keep(s: seq<Key>, keep: set<Key>): (r: seq<Key>)
    ensures forall x :: x in r <==> x in s && x in keep
  {
    if s == [] then []
    else if s[0] in keep then [s[0]] + Keep(s[1..], keep)
    else Keep(s[1..], keep)
  }

  lemma {:induction false} WithoutAbsent(s: seq<Key>, k: Key)
    requires k !in s
    ensures Without(s, k) == s
  {
    if s == [] {
    } else {
      WithoutAbsent(s[1..], k);
    }
  }

  lemma {:induction false} WithoutFacts(s: seq<Key>, k: Key)
    requires NoDup(s)
    ensures NoDup(Without(s, k))
    ensures |Without(s, k)| == |s| - (if k in s then 1 else 0)
  {
    if s == [] {
    } else {
      WithoutFacts(s[1..], k);
      if s[0] != k {
        ConsNoDup(s[0], Without(s[1..], k));
      }
    }
  }

  lemma ConsNoDup(x: Key, s: seq<Key>)
    requires NoDup(s) && x !in s
    ensures NoDup([x] + s)
  {
    assert ([x] + s)[1..] == s;
  }

  /** A cut of a sequence without repetition splits its members in two. */
  lemma CutNoDup(s: seq<Key>, n: nat)
    requires NoDup(s) && n <= |s|
    ensures NoDup(s[..n]) && NoDup(s[n..])
    ensures Keys(s) == Keys(s[..n]) + Keys(s[n..]) && Keys(s[..n]) !! Keys(s[n..])
    ensures n < |s| ==> s[n] !in s[..n]
  {
    assert s == s[..n] + s[n..];
    SplitNoDup(s[..n], s[n..]);
    assert n < |s| ==> s[n] in Keys(s[n..]) && s[n] !in Keys(s[..n]);
  }

  lemma {:induction false} SplitNoDup(a: seq<Key>, b: seq<Key>)
    requires NoDup(a + b)
    ensures NoDup(a) && NoDup(b) && Keys(a) !! Keys(b)
  {
    if a == [] {
      assert a + b == b;
    } else {
      assert (a + b)[1..] == a[1..] + b;
      SplitNoDup(a[1..], b);
      assert a[0] !in a[1..] + b;
      assert Keys(a) == {a[0]} + Keys(a[1..]);
    }
  }

  lemma KeysSize(s: seq<Key>)
    requires NoDup(s)
    ensures |Keys(s)| == |s|
  {
    if s == [] {
    } else {
      KeysSize(s[1..]);
      assert Keys(s) == {s[0]} + Keys(s[1..]);
    }
  }

  lemma TouchFacts(s: seq<Key>, k: Key)
    requires NoDup(s)
    ensures NoDup(Touch(s, k))
    ensures forall x :: x in Touch(s, k) <==> x == k || x in s
    ensures |Touch(s, k)| == |s| + (if k in s then 0 else 1)
  {
    WithoutFacts(s, k);
    ConsNoDup(k, Without(s, k));
  }

  // ---- validity ----

  lemma ShrinkValid<V>(c: Lru<V>, max: int)
    requires c.Valid()
    ensures Shrink(c, max).Valid()
    ensures max > 0 ==> |Shrink(c, max).slots| <= max
  {
    CutValid(c, |Fit(c.order, max)|);
    KeysSize(Fit(c.order, max));
  }

  lemma CutValid<V>(c: Lru<V>, n: nat)
    requires c.Valid() && n <= |c.order|
    ensures Cut(c, n).Valid()
  {
    CutNoDup(c.order, n);
  }

  lemma LookupValid<V>(c: Lru<V>, k: Key, now: int)
    requires c.Valid()
    ensures c.Lookup(k, now).Valid()
    ensures |c.Lookup(k, now).order| == |c.order|
  {
    TouchFacts(c.order, k);
  }

  lemma InvalidateValid<V>(c: Lru<V>, k: Key)
    requires c.Valid()
    ensures c.Invalidate(k).Valid()
    ensures |c.Invalidate(k).order| == |c.order| - (if k in c.order then 1 else 0)
  {
    WithoutFacts(c.order, k);
  }

  lemma InsertValid<V>(c: Lru<V>, k: Key, v: V, expiresAt: int)
    requires c.Valid()
    ensures Insert(c, k, v, expiresAt).Valid()
  {
    TouchFacts(c.order, k);
  }

  lemma StoreValid<V>(c: Lru<V>, k: Key, v: V, expiresAt: int, max: int)
    requires c.Valid()
    ensures Store(c, k, v, expiresAt, max).Valid()
    ensures max > 0 ==> |Store(c, k, v, expiresAt, max).slots| <= max
  {
    InsertValid(c, k, v, expiresAt);
    ShrinkValid(Insert(c, k, v, expiresAt), max);
  }

  /** The key just stored is at the front and survives its own eviction pass. */
  lemma JustStoredSurvives<V>(c: Lru<V>, k: Key, v: V, expiresAt: int, max: int)
    requires c.Valid()
    ensures var s := Store(c, k, v, expiresAt, max);
            s.order != [] && s.order[0] == k && k in s.slots && s.slots[k] == Slot(v, expiresAt)
    ensures k in c.refreshed ==>
              k in Store(c, k, v, expiresAt, max).refreshed &&
              Store(c, k, v, expiresAt, max).refreshed[k] == c.refreshed[k]
  {
    TouchFacts(c.order, k);
    var order := Touch(c.order, k);
    CutNoDup(order, |Fit(order, max)|);
    assert order[0] == k && k in Fit(order, max);
  }

  /** Until it expires, the key just stored is a hit, and afterwards it is none. */
  lemma StoredHits<V>(c: Lru<V>, k: Key, v: V, expiresAt: int, max: int, now: int)
    requires c.Valid()
    ensures Store(c, k, v, expiresAt, max).Hit(k, now) <==> now < expiresAt
  {
    JustStoredSurvives(c, k, v, expiresAt, max);
  }
}
