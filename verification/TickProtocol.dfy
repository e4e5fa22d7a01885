/** The locking protocol of the recency ticks, over every interleaving.

    A reader that hits holds the shared lock while it takes a tick from the counter and,
    in a separate step, stores it in the entry; a writer holds the exclusive lock while
    it inserts and evicts.  Any number of readers, identified by numbers, may be under
    way at once. */
module TickProtocol {
  import opened Options
  import opened RecencyList

  datatype Reader =
    | Holding(key: Key)               // shared lock held, unexpired entry found
    | Ticked(key: Key, tick: int)     // tick taken, not stored yet
    | Stored(key: Key)                // tick stored, lock still held

  datatype Writer =
    | NoWriter
    | Locked(key: Key, max: int)
    | Fresh(key: Key, max: int, tick: int)
    | Evicting(key: Key, max: int)

  /** `readers` holds the readers that are inside the shared lock. */
  datatype State = State(counter: int, ticks: map<Key, int>, readers: map<nat, Reader>, writer: Writer)

  datatype Step =
    | Enter(r: nat, key: Key) | Take(r: nat) | Put(r: nat) | Leave(r: nat)
    | Lock(key: Key, max: int) | TakeFresh | Insert | Evict(victim: Key) | Unlock
    | Remove(key: Key) | Clear

  ghost const Init := State(0, map[], map[], NoWriter)

  /** The scan of an eviction may settle on any entry that no other entry undercuts. */
  ghost predicate Least(ticks: map<Key, int>, victim: Key) {
    victim in ticks && forall k :: k in ticks ==> ticks[victim] <= ticks[k]
  }

  ghost predicate Enabled(s: State, l: Step) {
    match l
    case Enter(r, k) => s.writer == NoWriter && r !in s.readers && k in s.ticks
    case Take(r) => r in s.readers && s.readers[r].Holding?
    case Put(r) => r in s.readers && s.readers[r].Ticked?
    case Leave(r) => r in s.readers && s.readers[r].Stored?
    case Lock(_, _) | Remove(_) | Clear => s.writer == NoWriter && s.readers == map[]
    case TakeFresh => s.writer.Locked?
    case Insert => s.writer.Fresh?
    case Evict(v) => s.writer.Evicting? && 0 < s.writer.max < |s.ticks| && Least(s.ticks, v)
    case Unlock => s.writer.Evicting? && (s.writer.max <= 0 || |s.ticks| <= s.writer.max)
  }

  ghost function After(s: State, l: Step): State
    requires Enabled(s, l)
  {
    match l
    case Enter(r, k) => s.(readers := s.readers[r := Holding(k)])
    case Take(r) =>
      s.(counter := s.counter + 1, readers := s.readers[r := Ticked(s.readers[r].key, s.counter + 1)])
    case Put(r) =>
      var k := s.readers[r].key;
      s.(ticks := s.ticks[k := s.readers[r].tick], readers := s.readers[r := Stored(k)])
    case Leave(r) => s.(readers := s.readers - {r})
    case Lock(k, max) => s.(writer := Locked(k, max))
    case TakeFresh => s.(counter := s.counter + 1, writer := Fresh(s.writer.key, s.writer.max, s.counter + 1))
    case Insert =>
      s.(ticks := s.ticks[s.writer.key := s.writer.tick], writer := Evicting(s.writer.key, s.writer.max))
    case Evict(v) => s.(ticks := s.ticks - {v})
    case Unlock => s.(writer := NoWriter)
    case Remove(k) => s.(ticks := s.ticks - {k})
    case Clear => s.(ticks := map[])
  }

  /** The state after the steps `ls`, if they are possible in that order. */
  ghost function Exec(ls: seq<Step>): Option<State> {
    if ls == [] then Some(Init)
    else
      var before, l := Exec(ls[..|ls| - 1]), ls[|ls| - 1];
      if before.Some? && Enabled(before.value, l) then Some(After(before.value, l)) else None
  }

  // ---- what every interleaving keeps ----

  ghost predicate Inv(s: State) {
    && EntriesDistinct(s) && FlightsDistinct(s) && WriterAlone(s)
    && (forall r :: r in s.readers ==> s.readers[r].key in s.ticks)
  }

  ghost predicate EntriesDistinct(s: State) {
    && (forall k :: k in s.ticks ==> s.ticks[k] <= s.counter)
    && (forall k, k' :: k in s.ticks && k' in s.ticks && s.ticks[k] == s.ticks[k'] ==> k == k')
  }

  ghost predicate InFlight(s: State, r: nat) {
    r in s.readers && s.readers[r].Ticked?
  }

  ghost predicate FlightsDistinct(s: State) {
    && (forall r :: InFlight(s, r) ==> s.readers[r].tick <= s.counter)
    && (forall r, k :: InFlight(s, r) && k in s.ticks ==> s.ticks[k] != s.readers[r].tick)
    && (forall r, r' :: InFlight(s, r) && InFlight(s, r') && s.readers[r].tick == s.readers[r'].tick ==> r == r')
  }

  /** A writer is alone inside the lock, and the tick of the key it stores is the newest. */
  ghost predicate WriterAlone(s: State) {
    && (s.writer != NoWriter ==> s.readers == map[])
    && (s.writer.Fresh? ==> s.writer.tick <= s.counter && forall k :: k in s.ticks ==> s.ticks[k] < s.writer.tick)
    && (s.writer.Evicting? ==> Newest(s.ticks, s.writer.key))
  }

  ghost predicate Newest(ticks: map<Key, int>, key: Key) {
    key in ticks && forall k :: k in ticks && k != key ==> ticks[k] < ticks[key]
  }

  lemma InvStep(s: State, l: Step)
    requires Inv(s) && Enabled(s, l)
    ensures Inv(After(s, l))
  {
    match l
    case Take(r) => TakeStep(s, r);
    case Put(r) => PutStep(s, r);
    case Enter(_, _) | Leave(_) => ShareStep(s, l);
    case _ => WriterStep(s, l);
  }

  lemma ShareStep(s: State, l: Step)
    requires Inv(s) && Enabled(s, l) && (l.Enter? || l.Leave?)
    ensures Inv(After(s, l))
  {
    var t := After(s, l);
    assert forall r :: InFlight(t, r) ==> InFlight(s, r) && t.readers[r] == s.readers[r];
  }

  lemma WriterStep(s: State, l: Step)
    requires Inv(s) && Enabled(s, l) && !l.Enter? && !l.Take? && !l.Put? && !l.Leave?
    ensures Inv(After(s, l))
  {
    assert s.readers == map[];
    if l.Evict? {
      NewestStays(s.ticks, s.writer.key, s.writer.max, l.victim);
    }
  }

  lemma TakeStep(s: State, r: nat)
    requires Inv(s) && Enabled(s, Take(r))
    ensures Inv(After(s, Take(r)))
  {
    var t := After(s, Take(r));
    assert forall r' :: InFlight(t, r') ==> r' == r || InFlight(s, r');
  }

  lemma PutStep(s: State, r: nat)
    requires Inv(s) && Enabled(s, Put(r))
    ensures Inv(After(s, Put(r)))
  {
    var t := After(s, Put(r));
    assert InFlight(s, r);
    assert forall r' :: InFlight(t, r') ==> r' != r && InFlight(s, r');
  }

  /** With a bound of at least one, the key being stored is not the victim. */
  lemma NewestStays(ticks: map<Key, int>, key: Key, max: int, v: Key)
    requires Newest(ticks, key) && 0 < max < |ticks| && Least(ticks, v)
    ensures v != key
  {
    assert ticks.Keys - {key} != {} by {
      assert |ticks.Keys| == |ticks.Keys - {key}| + 1;
    }
    var k :| k in ticks.Keys - {key};
    assert ticks[v] <= ticks[k] < ticks[key];
  }

  /** Issued ticks never exceed the counter, entries and readers in flight have pairwise
      distinct ticks, and no reader is inside while a writer is. */
  lemma {:induction false} InvHolds(ls: seq<Step>)
    requires Exec(ls).Some?
    ensures Inv(Exec(ls).value)
  {
    if ls == [] {
    } else {
      var n := |ls| - 1;
      InvHolds(ls[..n]);
      InvStep(Exec(ls[..n]).value, ls[n]);
    }
  }

  // ---- eviction does not depend on the iteration order ----

  /** Whenever a writer may evict, it has one possible victim, no reader is inside, and the
      victim is not the key being stored. */
  lemma VictimIsUnique(ls: seq<Step>, v: Key, v': Key)
    requires Exec(ls).Some?
    requires Enabled(Exec(ls).value, Evict(v)) && Enabled(Exec(ls).value, Evict(v'))
    ensures v == v'
    ensures var s := Exec(ls).value; v != s.writer.key && s.readers == map[]
  {
    InvHolds(ls);
    var s := Exec(ls).value;
    NewestStays(s.ticks, s.writer.key, s.writer.max, v);
  }

  /** The writer evicts `vs` in turn and unlocks, leaving `t`. */
  ghost predicate EvictionPass(s: State, vs: seq<Key>, t: State)
    decreases |vs|
  {
    if vs == [] then Enabled(s, Unlock) && t == After(s, Unlock)
    else Enabled(s, Evict(vs[0])) && EvictionPass(After(s, Evict(vs[0])), vs[1..], t)
  }

  ghost predicate Evictable(s: State) {
    EntriesDistinct(s) && WriterAlone(s)
  }

  lemma EvictStep(s: State, v: Key)
    requires Evictable(s) && Enabled(s, Evict(v))
    ensures Evictable(After(s, Evict(v)))
  {
    NewestStays(s.ticks, s.writer.key, s.writer.max, v);
  }

  lemma OneVictim(s: State, v: Key, v': Key)
    requires Evictable(s) && Enabled(s, Evict(v)) && Enabled(s, Evict(v'))
    ensures v == v'
  {
  }

  lemma UnlockStep(s: State)
    requires Evictable(s) && Enabled(s, Unlock)
    ensures s.writer.Evicting? && Newest(After(s, Unlock).ticks, s.writer.key)
    ensures forall v :: !Enabled(s, Evict(v))
  {
  }

  /** A whole eviction pass has one outcome, whatever order its scans follow; the key just
      stored is in it with the newest tick. */
  lemma {:induction false} EvictionIsDeterministic(s: State, vs: seq<Key>, t: State, vs': seq<Key>, t': State)
    requires Evictable(s) && EvictionPass(s, vs, t) && EvictionPass(s, vs', t')
    ensures vs == vs' && t == t'
    ensures s.writer.Evicting? && Newest(t.ticks, s.writer.key)
    decreases |vs|
  {
    assert vs != [] ==> After(s, Evict(vs[0])).writer == s.writer;
    hide Evictable, Enabled, After, Newest;
    if vs == [] || vs' == [] {
      UnlockStep(s);
    } else {
      OneVictim(s, vs[0], vs'[0]);
      EvictStep(s, vs[0]);
      EvictionIsDeterministic(After(s, Evict(vs[0])), vs[1..], t, vs'[1..], t');
    }
  }

  lemma EvictOne(s: State, v: Key)
    requires Evictable(s) && Enabled(s, Evict(v))
    ensures var u := After(s, Evict(v));
            && u.ticks == s.ticks - {v} && u.writer == s.writer && |u.ticks| == |s.ticks| - 1
            && forall k :: k in u.ticks ==> s.ticks[v] < u.ticks[k]
  {
    var u := After(s, Evict(v));
    assert u.ticks.Keys == s.ticks.Keys - {v};
    assert |u.ticks| == |u.ticks.Keys| && |s.ticks| == |s.ticks.Keys|;
  }

  /** What stays is unchanged, and newer than all that goes. */
  ghost predicate OldestGone(before: map<Key, int>, after: map<Key, int>) {
    && (forall k :: k in after ==> k in before && after[k] == before[k])
    && forall k, k' :: k in before && k !in after && k' in after ==> before[k] < after[k']
  }

  lemma OneGone(before: map<Key, int>, v: Key, after: map<Key, int>)
    requires v in before && (forall k :: k in before - {v} ==> before[v] < before[k])
    requires OldestGone(before - {v}, after)
    ensures OldestGone(before, after)
  {
  }

  lemma PassEnds(s: State, t: State)
    requires EvictionPass(s, [], t)
    ensures t.ticks == s.ticks && !(0 < s.writer.max < |s.ticks|)
    ensures s.writer.Evicting? && OldestGone(s.ticks, t.ticks)
  {
  }

  lemma PassGoesOn(s: State, vs: seq<Key>, t: State)
    requires vs != [] && EvictionPass(s, vs, t)
    ensures Enabled(s, Evict(vs[0])) && EvictionPass(After(s, Evict(vs[0])), vs[1..], t)
    ensures s.writer.Evicting? && 0 < s.writer.max < |s.ticks| && vs[0] in s.ticks
  {
  }

  /** A whole eviction pass leaves exactly as many entries as the bound admits, unchanged; each
      that goes has an older tick than each that stays. */
  lemma {:induction false} EvictionMeans(s: State, vs: seq<Key>, t: State)
    requires Evictable(s) && EvictionPass(s, vs, t)
    ensures s.writer.Evicting? && |t.ticks| == if 0 < s.writer.max < |s.ticks| then s.writer.max else |s.ticks|
    ensures OldestGone(s.ticks, t.ticks)
    decreases |vs|
  {
    hide Evictable, Enabled, After, EvictionPass, OldestGone;
    if vs == [] {
      PassEnds(s, t);
    } else {
      PassGoesOn(s, vs, t);
      EvictStep(s, vs[0]);
      EvictOne(s, vs[0]);
      EvictionMeans(After(s, Evict(vs[0])), vs[1..], t);
      OneGone(s.ticks, vs[0], t.ticks);
    }
  }

  lemma {:induction false} LeastExists(ticks: map<Key, int>) returns (v: Key)
    requires ticks != map[]
    ensures Least(ticks, v)
    decreases |ticks|
  {
    var k :| k in ticks;
    var rest := ticks - {k};
    assert ticks.Keys == rest.Keys + {k};
    if rest == map[] {
      v := k;
      assert forall x :: x in ticks ==> x == k;
    } else {
      assert |rest| == |rest.Keys| && |ticks| == |ticks.Keys|;
      v := LeastExists(rest);
      if ticks[k] < ticks[v] {
        v := k;
      }
      assert forall x :: x in ticks ==> x == k || x in rest;
    }
  }

  /** A writer never gets stuck: from the insertion on, some eviction pass ends by unlocking. */
  lemma {:induction false} EvictionEnds(s: State) returns (vs: seq<Key>, t: State)
    requires Evictable(s) && s.writer.Evicting?
    ensures EvictionPass(s, vs, t)
    decreases |s.ticks|
  {
    if 0 < s.writer.max < |s.ticks| {
      var v := LeastExists(s.ticks);
      assert Enabled(s, Evict(v));
      EvictStep(s, v);
      EvictOne(s, v);
      var rest;
      rest, t := EvictionEnds(After(s, Evict(v)));
      vs := [v] + rest;
      assert vs[1..] == rest;
    } else {
      vs, t := [], After(s, Unlock);
    }
  }
}
