/** The refresh cooldown over whole sequential runs of the cache, and the bounds on entries
    and cooldown records. */
module RefreshThrottle {
  import opened Options
  import opened RecencyList

  /** A call on the cache.  `Refresh` is `ForceRefresh`, or with `checkedAt` the automatic
      refresh of `ResolveKeyWithRefresh`, which passed the throttle at that instant; `done`
      is what it fetched, if it succeeded.  `Fetched` is a first fetch that stores. */
  datatype Call<+V> =
    | Read(key: Key, now: int)
    | Fetched(key: Key, value: V, expiresAt: int)
    | Refresh(uri: Key, done: Option<Refreshed<V>>, checkedAt: Option<int>)
    | Cleared

  ghost predicate CallStep<V>(s: Lru<V>, c: Call<V>, t: Lru<V>, m: int, cooldown: int) {
    match c
    case Read(k, now) => t == s.Lookup(k, now)
    case Fetched(k, v, expiresAt) => t == Store(s, k, v, expiresAt, m)
    case Refresh(uri, done, checkedAt) =>
      && RefreshStep(s, uri, done, t, m)
      && (checkedAt.Some? ==> !Throttled(s.refreshed, uri, checkedAt.value, cooldown))
    case Cleared => t == Lru([], map[], map[])
  }

  /** `states` are the cache before the first call, and after each. */
  ghost predicate CallRun<V(!new)>(states: seq<Lru<V>>, calls: seq<Call<V>>, m: int, cooldown: int) {
    && |states| == |calls| + 1 && states[0] == Lru([], map[], map[])
    && forall i :: 0 <= i < |calls| ==> CallStep(states[i], calls[i], states[i + 1], m, cooldown)
  }

  ghost predicate Marks<V>(c: Call<V>, uri: Key) {
    c.Refresh? && c.uri == uri && c.done.Some?
  }

  /** The clock never runs backwards, within a call or from one call to a later one. */
  ghost predicate Clocked<V(!new)>(calls: seq<Call<V>>) {
    && (forall i :: 0 <= i < |calls| && calls[i].Refresh? && calls[i].checkedAt.Some? && calls[i].done.Some? ==>
          calls[i].checkedAt.value <= calls[i].done.value.mark)
    && (forall i, j :: 0 <= i < j < |calls| && calls[i].Refresh? && calls[i].done.Some? && calls[j].Refresh? ==>
          && (calls[j].checkedAt.Some? ==> calls[i].done.value.mark <= calls[j].checkedAt.value)
          && (calls[j].done.Some? ==> calls[i].done.value.mark <= calls[j].done.value.mark))
  }

  /** Once `uri` has a record, it keeps one. */
  ghost predicate Kept<V(!new)>(states: seq<Lru<V>>, calls: seq<Call<V>>, uri: Key)
    requires |states| == |calls| + 1
  {
    forall i, j :: 0 <= i < j <= |calls| && Marks(calls[i], uri) ==> uri in states[j].refreshed
  }

  /** What one call does to the cooldown records: those that stay are unchanged, except that a
      successful refresh marks its own. */
  lemma RecordsStep<V>(s: Lru<V>, c: Call<V>, t: Lru<V>, m: int, cooldown: int)
    requires CallStep(s, c, t, m, cooldown)
    ensures forall k :: k in t.refreshed ==>
              if Marks(c, k) then t.refreshed[k] == c.done.value.mark
              else k in s.refreshed && t.refreshed[k] == s.refreshed[k]
  {
  }

  /** The record of `uri` is never older than a mark already made. */
  lemma {:induction false} RecordIsLatest<V(!new)>(states: seq<Lru<V>>, calls: seq<Call<V>>, m: int, cooldown: int, uri: Key, i: nat, j: nat)
    requires CallRun(states, calls, m, cooldown) && Clocked(calls) && Kept(states, calls, uri)
    requires i < j <= |calls| && Marks(calls[i], uri)
    ensures uri in states[j].refreshed && calls[i].done.value.mark <= states[j].refreshed[uri]
  {
    hide CallStep;
    assert CallStep(states[j - 1], calls[j - 1], states[j], m, cooldown);
    RecordsStep(states[j - 1], calls[j - 1], states[j], m, cooldown);
    if i < j - 1 {
      RecordIsLatest(states, calls, m, cooldown, uri, i, j - 1);
    }
  }

  /** An automatic refresh of `uri`, whether it then succeeds or fails, starts at least a
      cooldown after every earlier mark. */
  lemma AutoIsSpaced<V(!new)>(states: seq<Lru<V>>, calls: seq<Call<V>>, m: int, cooldown: int, uri: Key, i: nat, j: nat)
    requires cooldown > 0 && CallRun(states, calls, m, cooldown) && Clocked(calls) && Kept(states, calls, uri)
    requires i < j < |calls| && Marks(calls[i], uri)
    requires calls[j].Refresh? && calls[j].uri == uri && calls[j].checkedAt.Some?
    ensures calls[j].checkedAt.value - calls[i].done.value.mark >= cooldown
  {
    hide RefreshStep;
    RecordIsLatest(states, calls, m, cooldown, uri, i, j);
    assert CallStep(states[j], calls[j], states[j + 1], m, cooldown);
  }

  lemma SuccessIsSpaced<V(!new)>(states: seq<Lru<V>>, calls: seq<Call<V>>, m: int, cooldown: int, uri: Key, i: nat, j: nat)
    requires cooldown > 0 && CallRun(states, calls, m, cooldown) && Clocked(calls) && Kept(states, calls, uri)
    requires i < j < |calls| && Marks(calls[i], uri) && Marks(calls[j], uri) && calls[j].checkedAt.Some?
    ensures calls[j].done.value.mark - calls[i].done.value.mark >= cooldown
  {
    hide CallRun, Kept;
    AutoIsSpaced(states, calls, m, cooldown, uri, i, j);
  }

  ghost function Cooldowns(k: int, cooldown: int): int {
    k * cooldown
  }

  lemma OneCooldownMore(k: int, cooldown: int)
    ensures Cooldowns(k + 1, cooldown) == Cooldowns(k, cooldown) + cooldown
    ensures Cooldowns(0, cooldown) == 0
  {
  }

  /** The marks of the successful automatic refreshes of `uri`, in order. */
  ghost function AutoMarks<V>(calls: seq<Call<V>>, uri: Key): seq<int> {
    if calls == [] then []
    else
      var c := calls[|calls| - 1];
      AutoMarks(calls[..|calls| - 1], uri) + if Marks(c, uri) && c.checkedAt.Some? then [c.done.value.mark] else []
  }

  lemma {:induction false} AutoMarksCome<V(!new)>(calls: seq<Call<V>>, uri: Key, n: nat) returns (i: nat)
    requires n < |AutoMarks(calls, uri)|
    ensures i < |calls| && Marks(calls[i], uri) && calls[i].checkedAt.Some? && calls[i].done.value.mark == AutoMarks(calls, uri)[n]
  {
    var last := |calls| - 1;
    if n < |AutoMarks(calls[..last], uri)| {
      i := AutoMarksCome(calls[..last], uri, n);
    } else {
      i := last;
    }
  }

  /** The throttle bound: `k` automatic refreshes of `uri` whose marks span `L` satisfy
      (k - 1) * cooldown <= L. */
  ghost predicate Spaced<V>(calls: seq<Call<V>>, uri: Key, cooldown: int) {
    var marks := AutoMarks(calls, uri);
    forall i, j :: 0 <= i <= j < |marks| ==> (j - i) * cooldown <= marks[j] - marks[i]
  }

  lemma PrefixRun<V(!new)>(states: seq<Lru<V>>, calls: seq<Call<V>>, m: int, cooldown: int, uri: Key)
    requires calls != [] && CallRun(states, calls, m, cooldown) && Clocked(calls) && Kept(states, calls, uri)
    ensures var n := |calls| - 1;
            CallRun(states[..n + 1], calls[..n], m, cooldown) && Clocked(calls[..n]) && Kept(states[..n + 1], calls[..n], uri)
  {
    hide CallStep;
    var n := |calls| - 1;
    forall i | 0 <= i < n ensures CallStep(states[..n + 1][i], calls[..n][i], states[..n + 1][i + 1], m, cooldown) {
      assert CallStep(states[i], calls[i], states[i + 1], m, cooldown);
    }
  }

  lemma {:induction false} MarksSpaced<V(!new)>(states: seq<Lru<V>>, calls: seq<Call<V>>, m: int, cooldown: int, uri: Key, i: nat, j: nat)
    requires cooldown > 0 && CallRun(states, calls, m, cooldown) && Clocked(calls) && Kept(states, calls, uri)
    requires i <= j < |AutoMarks(calls, uri)|
    ensures Cooldowns(j - i, cooldown) <= AutoMarks(calls, uri)[j] - AutoMarks(calls, uri)[i]
    decreases |calls|
  {
    assert |states| == |calls| + 1;
    hide CallStep, CallRun, Clocked, Kept, Cooldowns;
    var n := |calls| - 1;
    var marks := AutoMarks(calls, uri);
    PrefixRun(states, calls, m, cooldown, uri);
    OneCooldownMore(j - 1 - i, cooldown);
    if j < |AutoMarks(calls[..n], uri)| {
      MarksSpaced(states[..n + 1], calls[..n], m, cooldown, uri, i, j);
    } else if i < j {
      MarksSpaced(states[..n + 1], calls[..n], m, cooldown, uri, i, j - 1);
      var p := AutoMarksCome(calls[..n], uri, j - 1);
      SuccessIsSpaced(states, calls, m, cooldown, uri, p, n);
    }
  }

  /** As long as the record of `uri` is kept, its automatic refreshes are spaced, with
      explicit refreshes and other calls interleaved at will. */
  lemma ThrottleBound<V(!new)>(states: seq<Lru<V>>, calls: seq<Call<V>>, m: int, cooldown: int, uri: Key)
    requires cooldown > 0 && CallRun(states, calls, m, cooldown) && Clocked(calls) && Kept(states, calls, uri)
    ensures Spaced(calls, uri, cooldown)
  {
    hide CallRun, Clocked, Kept;
    var marks := AutoMarks(calls, uri);
    forall i, j | 0 <= i <= j < |marks| ensures (j - i) * cooldown <= marks[j] - marks[i] {
      MarksSpaced(states, calls, m, cooldown, uri, i, j);
    }
  }

  // ---- the throttle ends ----

  /** A record is the mark of some earlier refresh. */
  lemma {:induction false} RecordWasMarked<V(!new)>(states: seq<Lru<V>>, calls: seq<Call<V>>, m: int, cooldown: int, uri: Key, j: nat)
    requires CallRun(states, calls, m, cooldown) && j <= |calls| && uri in states[j].refreshed
    ensures exists i :: 0 <= i < j && Marks(calls[i], uri) && calls[i].done.value.mark == states[j].refreshed[uri]
  {
    hide CallStep;
    if j > 0 {
      assert CallStep(states[j - 1], calls[j - 1], states[j], m, cooldown);
      RecordsStep(states[j - 1], calls[j - 1], states[j], m, cooldown);
      if !Marks(calls[j - 1], uri) {
        RecordWasMarked(states, calls, m, cooldown, uri, j - 1);
      }
    }
  }

  /** Every earlier mark of `uri` lies at least a cooldown before `now`. */
  ghost predicate Cooled<V(!new)>(calls: seq<Call<V>>, uri: Key, now: int, cooldown: int) {
    forall i :: 0 <= i < |calls| && Marks(calls[i], uri) ==> now - calls[i].done.value.mark >= cooldown
  }

  /** What an automatic refresh leaves, whatever it may fetch; the cap can always be met. */
  lemma RefreshGoes<V>(s: Lru<V>, uri: Key, done: Option<Refreshed<V>>, m: int) returns (t: Lru<V>)
    ensures RefreshStep(s, uri, done, t, m)
  {
    match done
    case None => t := s.Invalidate(uri);
    case Some(d) =>
      var stored := Store(s.Invalidate(uri), uri, d.value, d.expiresAt, m);
      var all := stored.refreshed[uri := d.mark];
      var after := if m <= 0 then all else CapGoes(all, m);
      t := stored.(refreshed := after);
  }

  ghost function CapGoes(all: map<Key, int>, m: int): (after: map<Key, int>)
    requires m > 0
    ensures Capped(all, after, m)
    decreases |all|
  {
    if |all| <= m then all
    else
      var x := Oldest(all);
      RemoveOne(all, x);
      CapGoes(all - {x}, m)
  }

  ghost function Oldest(all: map<Key, int>): (x: Key)
    requires all != map[]
    ensures x in all && forall y :: y in all ==> all[x] <= all[y]
    decreases |all|
  {
    var k :| k in all;
    RemoveOne(all, k);
    if all - {k} == map[] then
      assert forall y :: y in all ==> y == k || y in all - {k};
      k
    else
      var x := Oldest(all - {k});
      assert forall y :: y in all ==> y == k || y in all - {k};
      if all[k] <= all[x] then k else x
  }

  lemma RemoveOne(all: map<Key, int>, k: Key)
    requires k in all
    ensures |all - {k}| == |all| - 1
  {
    assert (all - {k}).Keys == all.Keys - {k};
    assert |all| == |all.Keys| && |all - {k}| == |(all - {k}).Keys|;
  }

  /** After any run, an automatic refresh at least a cooldown after every mark of its URI goes
      through, whatever it fetches; and where the record is kept, only such a one does. */
  lemma AutoPassesIff<V(!new)>(states: seq<Lru<V>>, calls: seq<Call<V>>, m: int, cooldown: int,
                               uri: Key, now: int, done: Option<Refreshed<V>>)
    requires cooldown > 0 && CallRun(states, calls, m, cooldown) && Clocked(calls)
    ensures Cooled(calls, uri, now, cooldown) ==>
              exists t :: CallRun(states + [t], calls + [Refresh(uri, done, Some(now))], m, cooldown)
    ensures Kept(states, calls, uri) && (exists t :: CallRun(states + [t], calls + [Refresh(uri, done, Some(now))], m, cooldown)) ==>
              Cooled(calls, uri, now, cooldown)
  {
    var n := |calls|;
    var c := Refresh(uri, done, Some(now));
    if Cooled(calls, uri, now, cooldown) {
      var t := RefreshGoes(states[n], uri, done, m);
      if uri in states[n].refreshed {
        RecordWasMarked(states, calls, m, cooldown, uri, n);
      }
      assert CallStep(states[n], c, t, m, cooldown);
      OneMoreCall(states, calls, m, cooldown, c, t);
    }
    if Kept(states, calls, uri) {
      if t :| CallRun(states + [t], calls + [c], m, cooldown) {
        assert CallStep((states + [t])[n], (calls + [c])[n], (states + [t])[n + 1], m, cooldown);
        forall i | 0 <= i < n && Marks(calls[i], uri) ensures now - calls[i].done.value.mark >= cooldown {
          RecordIsLatest(states, calls, m, cooldown, uri, i, n);
        }
      }
    }
  }

  // ---- when records are kept ----

  /** The URIs that the calls store or refresh. */
  ghost function Used<V>(calls: seq<Call<V>>): set<Key> {
    if calls == [] then {}
    else
      var c := calls[|calls| - 1];
      Used(calls[..|calls| - 1]) + if c.Fetched? then {c.key} else if c.Refresh? then {c.uri} else {}
  }

  ghost predicate NeverCleared<V(!new)>(calls: seq<Call<V>>) {
    forall i :: 0 <= i < |calls| ==> !calls[i].Cleared?
  }

  /** All URIs of the cache lie in `used`, which fits the bound. */
  ghost predicate Roomy<V>(s: Lru<V>, used: set<Key>, m: int) {
    s.Valid() && s.slots.Keys <= used && s.refreshed.Keys <= used && (m <= 0 || |used| <= m)
  }

  lemma SubsetSize<T>(a: set<T>, b: set<T>)
    requires a <= b
    ensures |a| <= |b|
  {
    assert b == a + (b - a);
  }

  /** While all keys fit, a store cuts nothing. */
  lemma StoreKeeps<V>(s: Lru<V>, k: Key, v: V, expiresAt: int, m: int, used: set<Key>)
    requires Roomy(s, used, m) && k in used
    ensures Store(s, k, v, expiresAt, m) == Insert(s, k, v, expiresAt)
    ensures Roomy(Store(s, k, v, expiresAt, m), used, m)
  {
    hide NoDup, Touch;
    var t := Insert(s, k, v, expiresAt);
    InsertValid(s, k, v, expiresAt);
    KeysSize(t.order);
    SubsetSize(Keys(t.order), used);
    CutNothing(t);
  }

  lemma CutNothing<V>(c: Lru<V>)
    ensures Cut(c, |c.order|) == c
  {
    assert c.order[|c.order|..] == [];
  }

  /** While all keys fit, a mark drops no record. */
  lemma MarkKeeps(before: map<Key, int>, after: map<Key, int>, k: Key, now: int, m: int, used: set<Key>)
    requires Marked(before, after, k, now, m) && before.Keys <= used && k in used && (m <= 0 || |used| <= m)
    ensures after == before[k := now]
  {
    var all := before[k := now];
    if m > 0 {
      SubsetSize(all.Keys, used);
      assert |all| == |all.Keys| && |after| == |after.Keys|;
      assert all.Keys == after.Keys + (all.Keys - after.Keys);
      assert all.Keys - after.Keys == {};
    }
  }

  lemma CallKeeps<V>(s: Lru<V>, c: Call<V>, t: Lru<V>, m: int, cooldown: int, used: set<Key>)
    requires Roomy(s, used, m) && CallStep(s, c, t, m, cooldown) && !c.Cleared?
    requires c.Fetched? ==> c.key in used
    requires c.Refresh? ==> c.uri in used
    ensures Roomy(t, used, m)
    ensures s.refreshed.Keys <= t.refreshed.Keys
    ensures forall k :: Marks(c, k) ==> k in t.refreshed
  {
    hide NoDup, RecencyList.Store, Touch, Without, Marked;
    match c
    case Read(k, now) => LookupValid(s, k, now);
    case Fetched(k, v, expiresAt) => StoreKeeps(s, k, v, expiresAt, m, used);
    case Refresh(uri, done, _) =>
      InvalidateValid(s, uri);
      if done.Some? {
        var d := done.value;
        StoreKeeps(s.Invalidate(uri), uri, d.value, d.expiresAt, m, used);
        MarkKeeps(s.refreshed, t.refreshed, uri, d.mark, m, used);
      }
  }

  lemma {:induction false} UsedComes<V(!new)>(calls: seq<Call<V>>, i: nat)
    requires i < |calls|
    ensures calls[i].Fetched? ==> calls[i].key in Used(calls)
    ensures calls[i].Refresh? ==> calls[i].uri in Used(calls)
  {
    var n := |calls| - 1;
    if i < n {
      UsedComes(calls[..n], i);
    }
  }

  lemma {:induction false} RunKeeps<V(!new)>(states: seq<Lru<V>>, calls: seq<Call<V>>, m: int, cooldown: int, i: nat, j: nat)
    requires CallRun(states, calls, m, cooldown) && NeverCleared(calls) && (m <= 0 || |Used(calls)| <= m)
    requires i <= j <= |calls|
    ensures Roomy(states[j], Used(calls), m)
    ensures states[i].refreshed.Keys <= states[j].refreshed.Keys
    ensures i < j ==> forall k :: Marks(calls[i], k) ==> k in states[j].refreshed
  {
    hide CallStep, Roomy;
    if j == 0 {
      EmptyRoomy(states[0], Used(calls), m);
    } else {
      RunKeeps(states, calls, m, cooldown, if i < j then i else j - 1, j - 1);
      assert CallStep(states[j - 1], calls[j - 1], states[j], m, cooldown);
      UsedComes(calls, j - 1);
      CallKeeps(states[j - 1], calls[j - 1], states[j], m, cooldown, Used(calls));
    }
  }

  lemma EmptyRoomy<V>(s: Lru<V>, used: set<Key>, m: int)
    requires s == Lru([], map[], map[]) && (m <= 0 || |used| <= m)
    ensures Roomy(s, used, m)
  {
  }

  // ---- the exact condition ----

  /** A run with a forward clock and no clearing that uses at most `n` URIs. */
  ghost predicate Admissible<V(!new)>(states: seq<Lru<V>>, calls: seq<Call<V>>, m: int, cooldown: int, n: nat) {
    CallRun(states, calls, m, cooldown) && Clocked(calls) && NeverCleared(calls) && |Used(calls)| <= n
  }

  lemma RoomIsEnough<V(!new)>(states: seq<Lru<V>>, calls: seq<Call<V>>, m: int, cooldown: int, n: nat, uri: Key)
    requires cooldown > 0 && (m <= 0 || n <= m) && Admissible(states, calls, m, cooldown, n)
    ensures Spaced(calls, uri, cooldown)
  {
    forall i, j | 0 <= i < j <= |calls| && Marks(calls[i], uri) ensures uri in states[j].refreshed {
      RunKeeps(states, calls, m, cooldown, i, j);
    }
    ThrottleBound(states, calls, m, cooldown, uri);
  }

  const VICTIM := Key("u")

  function Other(i: nat): Key {
    Key(seq(i + 1, _ => 'w'))
  }

  ghost function Again<V>(v: V): Call<V> {
    Refresh(VICTIM, Some(Refreshed(v, 1, 0)), Some(0))
  }

  /** The victim is fetched and then refreshed automatically, for a key not found. */
  ghost function Opening<V>(v: V): seq<Call<V>> {
    [Fetched(VICTIM, v, 1), Again(v)]
  }

  ghost function Others<V>(v: V, n: nat): seq<Call<V>> {
    if n == 0 then [] else Others(v, n - 1) + [Fetched(Other(n - 1), v, 1)]
  }

  ghost function Tower(n: nat): seq<Key> {
    if n == 0 then [VICTIM] else [Other(n - 1)] + Tower(n - 1)
  }

  lemma {:induction false} TowerKeys(n: nat)
    ensures |Tower(n)| == n + 1 && Tower(n)[n] == VICTIM && Tower(n)[..n] == Tower(n)[..n]
    ensures forall i :: i >= n ==> Other(i) !in Tower(n)
  {
    assert forall i: nat :: |Other(i).url| == i + 1 && Other(i).url[0] == 'w';
    if n > 0 {
      TowerKeys(n - 1);
    }
  }

  /** The opening, then `n` first fetches of other URIs. */
  ghost function Flooding<V>(v: V, m: int, n: nat): Lru<V> {
    if n == 0 then Store(Lru([], map[], map[]), VICTIM, v, 1, m).(refreshed := map[VICTIM := 0])
    else Store(Flooding(v, m, n - 1), Other(n - 1), v, 1, m)
  }

  /** Until the bound is reached the victim stays; the fetch that passes it evicts the victim,
      and its record with it. */
  lemma {:induction false} FloodingState<V>(v: V, m: int, n: nat)
    requires 0 < m && n <= m
    ensures n < m ==> Flooding(v, m, n).order == Tower(n) && Flooding(v, m, n).refreshed == map[VICTIM := 0]
    ensures n == m ==> Flooding(v, m, n).refreshed == map[]
  {
    hide RecencyList.Store;
    if n == 0 {
      FirstState(v, m);
    } else {
      FloodingState(v, m, n - 1);
      TowerKeys(n - 1);
      StoreNew(Flooding(v, m, n - 1), Other(n - 1), v, 1, m);
    }
  }

  lemma FirstState<V>(v: V, m: int)
    requires 0 < m
    ensures Flooding(v, m, 0).order == [VICTIM]
  {
    var empty: Lru<V> := Lru([], map[], map[]);
    CutNothing(Insert(empty, VICTIM, v, 1));
  }

  /** Storing a new key: nothing is cut below the bound, and at the bound the last key is,
      with its record. */
  lemma StoreNew<V>(c: Lru<V>, k: Key, v: V, expiresAt: int, m: int)
    requires 0 < m && c.order != [] && |c.order| <= m && k !in c.order
    ensures |c.order| < m ==>
              Store(c, k, v, expiresAt, m).order == [k] + c.order && Store(c, k, v, expiresAt, m).refreshed == c.refreshed
    ensures |c.order| == m ==>
              Store(c, k, v, expiresAt, m).refreshed == c.refreshed - {c.order[m - 1]}
  {
    WithoutAbsent(c.order, k);
    var t := Insert(c, k, v, expiresAt);
    assert t.order == [k] + c.order;
    hide Touch, Without;
    if |c.order| < m {
      CutNothing(t);
    } else {
      assert t.order[m..] == [c.order[m - 1]];
      assert Keys(t.order[m..]) == {c.order[m - 1]};
    }
  }

  ghost function States<V>(v: V, m: int, n: nat): (states: seq<Lru<V>>)
    ensures |states| == n + 3 && states[0] == Lru([], map[], map[]) && states[n + 2] == Flooding(v, m, n)
  {
    if n == 0 then [Lru([], map[], map[]), Store(Lru([], map[], map[]), VICTIM, v, 1, m), Flooding(v, m, 0)] else States(v, m, n - 1) + [Flooding(v, m, n)]
  }

  /** A run goes on with one more call. */
  lemma OneMoreCall<V(!new)>(states: seq<Lru<V>>, calls: seq<Call<V>>, m: int, cooldown: int, c: Call<V>, t: Lru<V>)
    requires CallRun(states, calls, m, cooldown) && CallStep(states[|calls|], c, t, m, cooldown)
    ensures CallRun(states + [t], calls + [c], m, cooldown)
  {
    hide CallStep;
    var more, all := states + [t], calls + [c];
    forall i | 0 <= i < |all| ensures CallStep(more[i], all[i], more[i + 1], m, cooldown) {
      if i < |calls| {
        assert CallStep(states[i], calls[i], states[i + 1], m, cooldown);
      }
    }
  }

  lemma {:induction false} OthersRun<V(!new)>(v: V, m: nat, cooldown: int, n: nat)
    requires 0 < m
    ensures |Others(v, n)| == n && CallRun(States(v, m, n), Opening(v) + Others(v, n), m, cooldown)
  {
    hide CallRun, CallStep, Flooding;
    if n == 0 {
      FirstRun(v, m, cooldown);
      assert Opening(v) + Others(v, 0) == Opening(v);
    } else {
      OthersRun(v, m, cooldown, n - 1);
      OtherCall(v, m, cooldown, n);
      var calls, c := Opening(v) + Others(v, n - 1), Fetched(Other(n - 1), v, 1);
      OneMoreCall(States(v, m, n - 1), calls, m, cooldown, c, Flooding(v, m, n));
      assert calls + [c] == Opening(v) + Others(v, n);
    }
  }

  lemma OtherCall<V>(v: V, m: int, cooldown: int, n: nat)
    requires n > 0
    ensures CallStep(Flooding(v, m, n - 1), Fetched(Other(n - 1), v, 1), Flooding(v, m, n), m, cooldown)
  {
    hide RecencyList.Store;
  }

  lemma FirstRun<V(!new)>(v: V, m: int, cooldown: int)
    requires 0 < m
    ensures CallRun(States(v, m, 0), Opening(v), m, cooldown)
  {
    var empty: Lru<V> := Lru([], map[], map[]);
    var first := Store(empty, VICTIM, v, 1, m);
    FirstCall(v, m, cooldown);
    assert CallStep(empty, Fetched(VICTIM, v, 1), first, m, cooldown);
    hide CallStep, Flooding;
    assert States(v, m, 0) == [empty, first, Flooding(v, m, 0)];
  }

  /** Every call is a first fetch or the refresh of the victim at instant zero. */
  ghost predicate AtZero<V(!new)>(calls: seq<Call<V>>, v: V) {
    forall i :: 0 <= i < |calls| ==> calls[i].Fetched? || calls[i] == Again(v)
  }

  lemma AtZeroIsClocked<V(!new)>(calls: seq<Call<V>>, v: V)
    requires AtZero(calls, v)
    ensures Clocked(calls) && NeverCleared(calls)
  {
  }

  lemma {:induction false} OthersAtZero<V(!new)>(v: V, n: nat)
    ensures AtZero(Others(v, n), v)
  {
    if n > 0 {
      OthersAtZero(v, n - 1);
    }
  }

  lemma OpeningUses<V>(v: V)
    ensures Used(Opening(v)) == {VICTIM} && AutoMarks(Opening(v), VICTIM) == [0]
  {
    var one := [Fetched(VICTIM, v, 1)];
    assert Opening(v)[..1] == one && one[..0] == [];
    assert Used(one) == {VICTIM} && AutoMarks(one, VICTIM) == [];
  }

  lemma {:induction false} OthersUse<V>(v: V, n: nat)
    ensures Used(Opening(v) + Others(v, n)) <= {VICTIM} + set i | 0 <= i < n :: Other(i)
    ensures AutoMarks(Opening(v) + Others(v, n), VICTIM) == [0]
  {
    var calls := Opening(v) + Others(v, n);
    if n == 0 {
      OpeningUses(v);
      assert calls == Opening(v);
    } else {
      assert calls == Opening(v) + Others(v, n - 1) + [Fetched(Other(n - 1), v, 1)];
      assert calls[..|calls| - 1] == Opening(v) + Others(v, n - 1);
      OthersUse(v, n - 1);
    }
  }

  lemma {:induction false} OthersFew(n: nat)
    ensures |set i | 0 <= i < n :: Other(i)| <= n
  {
    var s := set i | 0 <= i < n :: Other(i);
    if n > 0 {
      OthersFew(n - 1);
      var t := set i | 0 <= i < n - 1 :: Other(i);
      assert s == t + {Other(n - 1)};
    }
  }

  ghost function VictimCalls<V>(v: V, m: nat): seq<Call<V>> {
    Opening(v) + Others(v, m) + [Again(v)]
  }

  ghost function VictimStates<V>(v: V, m: nat): seq<Lru<V>> {
    States(v, m, m) +
    [Store(Flooding(v, m, m).Invalidate(VICTIM), VICTIM, v, 1, m).(refreshed := map[VICTIM := 0])]
  }

  lemma VictimRuns<V(!new)>(v: V, m: nat, cooldown: int)
    requires 0 < m
    ensures CallRun(VictimStates(v, m), VictimCalls(v, m), m, cooldown)
  {
    OthersRun(v, m, cooldown, m);
    FloodingState(v, m, m);
    LastCall(Flooding(v, m, m), v, m, cooldown);
    hide CallRun, CallStep, Flooding, Again, RecencyList.Store;
    var t := Store(Flooding(v, m, m).Invalidate(VICTIM), VICTIM, v, 1, m).(refreshed := map[VICTIM := 0]);
    OneMoreCall(States(v, m, m), Opening(v) + Others(v, m), m, cooldown, Again(v), t);
  }

  lemma VictimUses<V(!new)>(v: V, m: nat)
    ensures |Used(VictimCalls(v, m))| <= m + 1 && AutoMarks(VictimCalls(v, m), VICTIM) == [0, 0]
  {
    var calls := VictimCalls(v, m);
    var others := set i | 0 <= i < m :: Other(i);
    OthersUse(v, m);
    OthersFew(m);
    assert calls[..|calls| - 1] == Opening(v) + Others(v, m);
    assert |{VICTIM} + others| <= 1 + |others|;
    SubsetSize(Used(calls), {VICTIM} + others);
  }

  /** With a bound of `m`, a fetch, one refresh and `m` first fetches of other URIs are enough: the last
      of them evicts the record, and a second automatic refresh passes in the same instant. */
  lemma EvictionLiftsThrottle<V(!new)>(v: V, m: nat, cooldown: int)
    requires 0 < m && 0 < cooldown
    ensures Admissible(VictimStates(v, m), VictimCalls(v, m), m, cooldown, m + 1)
    ensures AutoMarks(VictimCalls(v, m), VICTIM) == [0, 0]
  {
    hide CallRun, Used, Clocked, NeverCleared, Again, Others, AutoMarks;
    VictimRuns(v, m, cooldown);
    VictimUses(v, m);
    OthersAtZero(v, m);
    AtZeroIsClocked(VictimCalls(v, m), v);
  }

  /** `k` successful automatic refreshes of the victim, exactly a cooldown apart. */
  ghost function Steady<V>(v: V, cooldown: int, k: nat): seq<Call<V>> {
    if k == 0 then [Fetched(VICTIM, v, 1)]
    else
      var now := Cooldowns(k - 1, cooldown);
      Steady(v, cooldown, k - 1) + [Refresh(VICTIM, Some(Refreshed(v, 1, now)), Some(now))]
  }

  ghost function SteadyStates<V>(v: V, m: int, cooldown: int, k: nat): (states: seq<Lru<V>>)
    ensures |states| == k + 2 && states[0] == Lru([], map[], map[])
  {
    var first := Store(Lru([], map[], map[]), VICTIM, v, 1, m);
    if k == 0 then [Lru([], map[], map[]), first]
    else SteadyStates(v, m, cooldown, k - 1) + [first.(refreshed := map[VICTIM := Cooldowns(k - 1, cooldown)])]
  }

  lemma {:induction false} SteadyIs<V>(v: V, cooldown: int, k: nat)
    ensures var calls := Steady(v, cooldown, k);
            && |calls| == k + 1 && calls[0] == Fetched(VICTIM, v, 1)
            && forall i :: 1 <= i <= k ==>
                 calls[i] == Refresh(VICTIM, Some(Refreshed(v, 1, Cooldowns(i - 1, cooldown))), Some(Cooldowns(i - 1, cooldown)))
    ensures Used(Steady(v, cooldown, k)) == {VICTIM}
  {
    hide Cooldowns;
    if k == 0 {
      assert Steady(v, cooldown, 0)[..0] == [];
    } else {
      SteadyIs(v, cooldown, k - 1);
      assert Steady(v, cooldown, k)[..k] == Steady(v, cooldown, k - 1);
    }
  }

  lemma CooldownsRise(i: int, j: int, cooldown: int)
    requires i <= j && cooldown > 0
    ensures Cooldowns(i, cooldown) <= Cooldowns(j, cooldown)
    decreases j - i
  {
    if i < j {
      OneCooldownMore(j - 1, cooldown);
      CooldownsRise(i, j - 1, cooldown);
    }
  }

  lemma SteadyIsClocked<V(!new)>(v: V, cooldown: int, k: nat)
    requires cooldown > 0
    ensures Clocked(Steady(v, cooldown, k)) && NeverCleared(Steady(v, cooldown, k)) && |Used(Steady(v, cooldown, k))| == 1
  {
    SteadyIs(v, cooldown, k);
    hide Steady, Used, Cooldowns;
    var calls := Steady(v, cooldown, k);
    forall i, j | 0 <= i < j < |calls| && calls[i].Refresh? && calls[j].Refresh?
      ensures calls[i].done.value.mark <= calls[j].done.value.mark
    {
      CooldownsRise(i - 1, j - 1, cooldown);
    }
  }

  lemma {:induction false} SteadyRuns<V(!new)>(v: V, m: int, cooldown: int, k: nat)
    requires cooldown > 0
    ensures CallRun(SteadyStates(v, m, cooldown, k), Steady(v, cooldown, k), m, cooldown)
    ensures |Steady(v, cooldown, k)| == k + 1
    ensures |AutoMarks(Steady(v, cooldown, k), VICTIM)| == k
    ensures forall i :: 0 <= i < k ==> AutoMarks(Steady(v, cooldown, k), VICTIM)[i] == i * cooldown
  {
    hide CallStep, RecencyList.Store;
    if k == 0 {
      SteadyFirst(v, m, cooldown);
    } else {
      SteadyRuns(v, m, cooldown, k - 1);
      var now := Cooldowns(k - 1, cooldown);
      var states, calls := SteadyStates(v, m, cooldown, k - 1), Steady(v, cooldown, k - 1);
      var c := Refresh(VICTIM, Some(Refreshed(v, 1, now)), Some(now));
      var t := Store(Lru([], map[], map[]), VICTIM, v, 1, m).(refreshed := map[VICTIM := now]);
      SteadyStep(v, m, cooldown, k);
      OneMoreCall(states, calls, m, cooldown, c, t);
      assert Steady(v, cooldown, k)[..k] == calls;
      hide CallRun;
    }
  }

  /** The bound is attained: in every cache, `k` automatic refreshes of one URI can succeed
      within `k - 1` cooldowns, for every `k`. */
  lemma BoundIsAttained<V(!new)>(v: V, m: int, cooldown: int, k: nat)
    requires cooldown > 0
    ensures Admissible(SteadyStates(v, m, cooldown, k), Steady(v, cooldown, k), m, cooldown, 1)
    ensures |AutoMarks(Steady(v, cooldown, k), VICTIM)| == k
    ensures forall i :: 0 <= i < k ==> AutoMarks(Steady(v, cooldown, k), VICTIM)[i] == i * cooldown
  {
    hide CallRun, Clocked, NeverCleared, Used, Steady, SteadyStates, AutoMarks;
    SteadyRuns(v, m, cooldown, k);
    SteadyIsClocked(v, cooldown, k);
  }

  lemma SteadyFirst<V(!new)>(v: V, m: int, cooldown: int)
    ensures CallRun(SteadyStates(v, m, cooldown, 0), Steady(v, cooldown, 0), m, cooldown)
    ensures AutoMarks(Steady(v, cooldown, 0), VICTIM) == []
  {
    assert Steady(v, cooldown, 0)[..0] == [];
  }

  lemma SteadyStep<V>(v: V, m: int, cooldown: int, k: nat)
    requires cooldown > 0 && k > 0
    ensures var now := Cooldowns(k - 1, cooldown);
            var states := SteadyStates(v, m, cooldown, k - 1);
            CallStep(states[k], Refresh(VICTIM, Some(Refreshed(v, 1, now)), Some(now)),
                     Store(Lru([], map[], map[]), VICTIM, v, 1, m).(refreshed := map[VICTIM := now]), m, cooldown)
  {
    FirstGoes(v, m);
    var first := Store(Lru([], map[], map[]), VICTIM, v, 1, m);
    hide RecencyList.Store;
    if k > 1 {
      OneCooldownMore(k - 2, cooldown);
    }
    var before := SteadyStates(v, m, cooldown, k - 1)[k];
    assert before == first.(refreshed := before.refreshed);
    SteadyRefresh(v, m, before.refreshed, Cooldowns(k - 1, cooldown));
    hide Cooldowns;
  }

  /** Refreshing the only cached URI again moves its record on. */
  lemma SteadyRefresh<V>(v: V, m: int, refreshed: map<Key, int>, now: int)
    requires refreshed.Keys <= {VICTIM}
    ensures var first := Store(Lru([], map[], map[]), VICTIM, v, 1, m);
            RefreshStep(first.(refreshed := refreshed), VICTIM, Some(Refreshed(v, 1, now)), first.(refreshed := map[VICTIM := now]), m)
  {
    var empty: Lru<V> := Lru([], map[], map[]);
    FirstGoes(v, m);
    var again := empty.(refreshed := refreshed);
    CutNothing(Insert(empty, VICTIM, v, 1));
    CutNothing(Insert(again, VICTIM, v, 1));
    assert refreshed[VICTIM := now] == map[VICTIM := now];
    assert |map[VICTIM := now]| == 1;
  }

  ghost function Failing<V>(n: nat): seq<Call<V>> {
    seq(n, _ => Refresh(VICTIM, None, Some(0)))
  }

  ghost function FailingStates<V>(n: nat): seq<Lru<V>> {
    seq(n, _ => Lru([], map[], map[]))
  }

  lemma FirstGoes<V>(v: V, m: int)
    ensures Store(Lru([], map[], map[]), VICTIM, v, 1, m).Invalidate(VICTIM) == Lru([], map[], map[])
    ensures Store(Lru([], map[], map[]), VICTIM, v, 1, m).refreshed == map[]
  {
    var empty: Lru<V> := Lru([], map[], map[]);
    CutNothing(Insert(empty, VICTIM, v, 1));
    var first := Store(empty, VICTIM, v, 1, m);
    assert first.order == [VICTIM] && first.slots.Keys == {VICTIM};
  }

  /** A refresh that fails leaves no record.  So while the server does not answer, any number
      of automatic refreshes of one URI pass the throttle in the same instant, each asking it
      once; only after a success does the spacing of `AutoIsSpaced` begin. */
  lemma FailuresAreNotThrottled<V(!new)>(v: V, m: int, cooldown: int, n: nat)
    ensures var states := [Lru([], map[], map[]), Store(Lru([], map[], map[]), VICTIM, v, 1, m)] + FailingStates(n);
            var calls := [Fetched(VICTIM, v, 1)] + Failing(n);
            CallRun(states, calls, m, cooldown) && Clocked(calls) && NeverCleared(calls) && Kept(states, calls, VICTIM)
  {
    var empty: Lru<V> := Lru([], map[], map[]);
    var first := Store(empty, VICTIM, v, 1, m);
    FirstGoes(v, m);
    hide RecencyList.Store;
    assert empty.Invalidate(VICTIM) == empty;
    var states := [empty, first] + FailingStates(n);
    var calls := [Fetched(VICTIM, v, 1)] + Failing(n);
    assert CallStep(empty, Fetched(VICTIM, v, 1), first, m, cooldown);
    assert forall i :: 0 < i < |calls| ==> calls[i] == Refresh(VICTIM, None, Some(0));
    assert forall i :: 1 < i < |states| ==> states[i] == empty;
    forall i | 0 <= i < |calls| ensures CallStep(states[i], calls[i], states[i + 1], m, cooldown) {
    }
  }

  lemma FirstCall<V>(v: V, m: int, cooldown: int)
    requires 0 < m
    ensures CallStep(Store(Lru([], map[], map[]), VICTIM, v, 1, m), Again(v), Flooding(v, m, 0), m, cooldown)
  {
    var empty: Lru<V> := Lru([], map[], map[]);
    CutNothing(Insert(empty, VICTIM, v, 1));
    var first := Store(empty, VICTIM, v, 1, m);
    assert first.order == [VICTIM] && first.slots.Keys == {VICTIM};
    assert first.Invalidate(VICTIM) == empty;
  }

  lemma LastCall<V>(s: Lru<V>, v: V, m: int, cooldown: int)
    requires 0 < m && s.refreshed == map[]
    ensures CallStep(s, Again(v), Store(s.Invalidate(VICTIM), VICTIM, v, 1, m).(refreshed := map[VICTIM := 0]), m, cooldown)
  {
    hide Touch, Without, Insert, Fit;
    NoRecords(Insert(s.Invalidate(VICTIM), VICTIM, v, 1), m);
    MarkedAlone(VICTIM, m);
    assert Insert(s.Invalidate(VICTIM), VICTIM, v, 1).refreshed == map[] by {
      InsertRecords(s.Invalidate(VICTIM), VICTIM, v, 1);
    }
    hide Shrink, Marked;
  }

  lemma InsertRecords<V>(c: Lru<V>, k: Key, v: V, expiresAt: int)
    ensures Insert(c, k, v, expiresAt).refreshed == c.refreshed
  {
  }

  lemma NoRecords<V>(c: Lru<V>, m: int)
    ensures c.refreshed == map[] ==> Shrink(c, m).refreshed == map[]
  {
  }

  lemma MarkedAlone(k: Key, m: int)
    ensures Marked(map[], map[k := 0], k, 0, m)
  {
    assert map[][k := 0] == map[k := 0];
    assert |map[k := 0]| == 1;
  }

  /** The throttle bound holds in every run that uses at most `n` URIs exactly if the cache is
      unbounded or has room for all of them. */
  lemma ThrottleIsExact<V(!new)>(v: V, m: int, cooldown: int, n: nat)
    requires 0 < cooldown
    ensures (forall states: seq<Lru<V>>, calls, uri :: Admissible(states, calls, m, cooldown, n) ==> Spaced(calls, uri, cooldown))
            <==> m <= 0 || n <= m
  {
    hide Admissible;
    if m <= 0 || n <= m {
      forall states: seq<Lru<V>>, calls, uri | Admissible(states, calls, m, cooldown, n) ensures Spaced(calls, uri, cooldown) {
        RoomIsEnough(states, calls, m, cooldown, n, uri);
      }
    } else {
      EvictionLiftsThrottle(v, m, cooldown);
      var states, calls := VictimStates(v, m), VictimCalls(v, m);
      MoreUris(states, calls, m, cooldown, n);
      assert !Spaced(calls, VICTIM, cooldown) by {
        assert AutoMarks(calls, VICTIM)[1] - AutoMarks(calls, VICTIM)[0] == 0;
      }
    }
  }

  lemma MoreUris<V(!new)>(states: seq<Lru<V>>, calls: seq<Call<V>>, m: int, cooldown: int, n: nat)
    requires 0 < m < n && Admissible(states, calls, m, cooldown, m + 1)
    ensures Admissible(states, calls, m, cooldown, n)
  {
  }

  // ---- bounds ----

  datatype Act<+V> =
    | Look(key: Key, now: int)
    | Put(key: Key, value: V, expiresAt: int)
    | Drop(key: Key)
    | Mark(key: Key, now: int)
    | Clear

  ghost predicate ActStep<V>(s: Lru<V>, a: Act<V>, t: Lru<V>, m: int) {
    match a
    case Look(k, now) => t == s.Lookup(k, now)
    case Put(k, v, expiresAt) => t == Store(s, k, v, expiresAt, m)
    case Drop(k) => t == s.Invalidate(k)
    case Mark(k, now) => t == s.(refreshed := t.refreshed) && Marked(s.refreshed, t.refreshed, k, now, m)
    case Clear => t == Lru([], map[], map[])
  }

  ghost predicate ActRun<V(!new)>(states: seq<Lru<V>>, acts: seq<Act<V>>, m: int) {
    && |states| == |acts| + 1 && states[0] == Lru([], map[], map[])
    && forall i :: 0 <= i < |acts| ==> ActStep(states[i], acts[i], states[i + 1], m)
  }

  /** Under one positive bound, entries and cooldown records stay within it in every state
      of every run, whether or not a record still has an entry behind it. */
  lemma {:induction false} BothBounded<V(!new)>(states: seq<Lru<V>>, acts: seq<Act<V>>, m: int, n: nat)
    requires m > 0 && ActRun(states, acts, m) && n < |states|
    ensures states[n].Valid() && |states[n].slots| <= m && |states[n].refreshed| <= m
  {
    assert Lru<V>.Lru([], map[], map[]).Valid();
    hide ActStep, NoDup;
    if n > 0 {
      BothBounded(states, acts, m, n - 1);
      assert ActStep(states[n - 1], acts[n - 1], states[n], m);
      ActBounded(states[n - 1], acts[n - 1], states[n], m);
    }
  }

  lemma ActBounded<V>(s: Lru<V>, a: Act<V>, t: Lru<V>, m: int)
    requires m > 0 && s.Valid() && |s.slots| <= m && |s.refreshed| <= m && ActStep(s, a, t, m)
    ensures t.Valid() && |t.slots| <= m && |t.refreshed| <= m
  {
    hide RecencyList.Store, Marked, NoDup, Touch, Without, Keys;
    match a
    case Look(k, now) => LookupValid(s, k, now);
    case Put(k, v, expiresAt) => PutBounded(s, k, v, expiresAt, m);
    case Drop(k) => DropBounded(s, k);
    case Mark(k, now) => MarkBounded(s, t, k, now, m);
    case Clear => EmptyBounded<V>();
  }

  lemma EmptyBounded<V>()
    ensures Lru<V>.Lru([], map[], map[]).Valid()
  {
  }

  lemma DropBounded<V>(s: Lru<V>, k: Key)
    requires s.Valid()
    ensures s.Invalidate(k).Valid() && |s.Invalidate(k).slots| <= |s.slots|
  {
    InvalidateValid(s, k);
    SubmapSize(s.Invalidate(k).slots, s.slots);
  }

  lemma PutBounded<V>(s: Lru<V>, k: Key, v: V, expiresAt: int, m: int)
    requires m > 0 && s.Valid() && |s.refreshed| <= m
    ensures var t := Store(s, k, v, expiresAt, m); t.Valid() && |t.slots| <= m && |t.refreshed| <= m
  {
    StoreValid(s, k, v, expiresAt, m);
    SubmapSize(Store(s, k, v, expiresAt, m).refreshed, s.refreshed);
  }

  lemma MarkBounded<V>(s: Lru<V>, t: Lru<V>, k: Key, now: int, m: int)
    requires m > 0 && s.Valid() && |s.refreshed| <= m
    requires t == s.(refreshed := t.refreshed) && Marked(s.refreshed, t.refreshed, k, now, m)
    ensures t.Valid() && |t.refreshed| <= m
  {
  }

  lemma SubmapSize<T>(a: map<Key, T>, b: map<Key, T>)
    requires a.Keys <= b.Keys
    ensures |a| <= |b|
  {
    assert b.Keys == a.Keys + (b.Keys - a.Keys);
    assert |a| == |a.Keys| && |b| == |b.Keys|;
  }

  /** A failed re-fetch after an invalidation leaves a record with no entry. */
  lemma OrphanRecord<V(!new)>(k: Key, v: V, m: int) returns (states: seq<Lru<V>>, acts: seq<Act<V>>)
    requires m > 0
    ensures ActRun(states, acts, m) && |states| == 4
    ensures k !in states[3].slots && k in states[3].refreshed
  {
    var s0: Lru<V> := Lru([], map[], map[]);
    var s1 := Store(s0, k, v, 1, m);
    var s2 := s1.(refreshed := s1.refreshed[k := 0]);
    JustStoredSurvives(s0, k, v, 1, m);
    assert s1.refreshed == map[];
    states := [s0, s1, s2, s2.Invalidate(k)];
    acts := [Put(k, v, 1), Mark(k, 0), Drop(k)];
    assert Marked(s1.refreshed, s2.refreshed, k, 0, m);
  }
}
