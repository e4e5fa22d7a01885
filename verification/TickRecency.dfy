/** Recency of the ticks: when the entry that is evicted is the least recently used one.

    Taking a tick is the instant of use, and the counter orders these instants.  A hit stores
    its tick later, so the tick that an entry holds may be older than its last use. */
module TickRecency {
  import opened Options
  import opened RecencyList
  import opened TickProtocol

  /** A run with its history: for each key the tick last taken for it, and all ticks stored
      for it in the order of the stores. */
  datatype Log = Log(s: State, taken: map<Key, int>, stored: map<Key, seq<int>>)

  ghost const START := Log(Init, map[], map[])

  ghost function Push(stored: map<Key, seq<int>>, k: Key, tick: int): map<Key, seq<int>> {
    stored[k := (if k in stored then stored[k] else []) + [tick]]
  }

  ghost function Note(g: Log, l: Step): Log
    requires Enabled(g.s, l)
  {
    var t := After(g.s, l);
    match l
    case Take(r) => Log(t, g.taken[g.s.readers[r].key := g.s.counter + 1], g.stored)
    case TakeFresh => Log(t, g.taken[g.s.writer.key := g.s.counter + 1], g.stored)
    case Put(r) => Log(t, g.taken, Push(g.stored, g.s.readers[r].key, g.s.readers[r].tick))
    case Insert => Log(t, g.taken, Push(g.stored, g.s.writer.key, g.s.writer.tick))
    case _ => g.(s := t)
  }

  /** The log after the steps `ls` from `g`, if they are possible in that order. */
  ghost function Watch(g: Log, ls: seq<Step>): Option<Log> {
    if ls == [] then Some(g)
    else
      var before, l := Watch(g, ls[..|ls| - 1]), ls[|ls| - 1];
      if before.Some? && Enabled(before.value.s, l) then Some(Note(before.value, l)) else None
  }

  /** Keeping a log changes nothing about the run. */
  lemma {:induction false} WatchIsExec(ls: seq<Step>)
    ensures Watch(START, ls).Some? <==> Exec(ls).Some?
    ensures Exec(ls).Some? ==> Watch(START, ls).value.s == Exec(ls).value
  {
    if ls != [] {
      WatchIsExec(ls[..|ls| - 1]);
    }
  }

  /** The tick last taken for `k`, that is, its last use. */
  ghost function LatestTake(ls: seq<Step>, k: Key): int {
    var g := Watch(START, ls);
    if g.Some? && k in g.value.taken then g.value.taken[k] else 0
  }

  /** The ticks stored for `k`, in the order of the stores. */
  ghost function Stores(ls: seq<Step>, k: Key): seq<int> {
    var g := Watch(START, ls);
    if g.Some? && k in g.value.stored then g.value.stored[k] else []
  }

  /** No tick for `k` is taken and not yet stored. */
  ghost predicate Settled(s: State, k: Key) {
    && (forall r :: InFlight(s, r) ==> s.readers[r].key != k)
    && !(s.writer.Fresh? && s.writer.key == k)
  }

  ghost predicate OvertakenIn(st: seq<int>) {
    exists i :: 0 <= i < |st| - 1 && st[i] > st[|st| - 1]
  }

  /** The last store for `k` came from a use that is older than one stored before it: its
      tick was taken before, and stored after, the store of a later use. */
  ghost predicate Overtaken(ls: seq<Step>, k: Key) {
    OvertakenIn(Stores(ls, k))
  }

  // ---- what a log keeps ----

  ghost predicate Pending(s: State, k: Key, tick: int) {
    || (exists r :: InFlight(s, r) && s.readers[r].key == k && s.readers[r].tick == tick)
    || (s.writer.Fresh? && s.writer.key == k && s.writer.tick == tick)
  }

  /** Ticks in flight are not newer than the last one taken for their key. */
  ghost predicate FlightsTaken(g: Log) {
    && (forall r :: InFlight(g.s, r) ==>
          g.s.readers[r].key in g.taken && g.s.readers[r].tick <= g.taken[g.s.readers[r].key])
    && (g.s.writer.Fresh? ==> g.s.writer.key in g.taken && g.s.writer.tick == g.taken[g.s.writer.key])
    && (forall k :: k in g.taken ==> g.taken[k] <= g.s.counter)
  }

  /** Nor are stored ticks. */
  ghost predicate StoresTaken(g: Log) {
    forall k :: k in g.stored ==>
      && k in g.taken && g.stored[k] != []
      && forall x :: x in g.stored[k] ==> x <= g.taken[k]
  }

  /** The last tick taken for a key is stored, or on its way. */
  ghost predicate LatestIsSomewhere(g: Log) {
    forall k :: k in g.taken ==> (k in g.stored && g.taken[k] in g.stored[k]) || Pending(g.s, k, g.taken[k])
  }

  /** An entry holds the tick stored last. */
  ghost predicate EntriesHoldLast(g: Log) {
    forall k :: k in g.s.ticks ==> k in g.stored && g.stored[k] != [] && g.s.ticks[k] == g.stored[k][|g.stored[k]| - 1]
  }

  ghost predicate Recorded(g: Log) {
    Inv(g.s) && FlightsTaken(g) && StoresTaken(g) && LatestIsSomewhere(g) && EntriesHoldLast(g)
  }

  lemma FlightsTakenStep(g: Log, l: Step)
    requires Inv(g.s) && FlightsTaken(g) && Enabled(g.s, l)
    ensures FlightsTaken(Note(g, l))
  {
    var h := Note(g, l);
    forall r | InFlight(h.s, r)
      ensures h.s.readers[r].key in h.taken && h.s.readers[r].tick <= h.taken[h.s.readers[r].key]
    {
      if !(l.Take? && l.r == r) {
        assert InFlight(g.s, r);
      }
    }
  }

  lemma StoresTakenStep(g: Log, l: Step)
    requires FlightsTaken(g) && StoresTaken(g) && Enabled(g.s, l)
    ensures StoresTaken(Note(g, l))
  {
    if l.Put? {
      assert InFlight(g.s, l.r);
    }
  }

  lemma StillPending(g: Log, l: Step, k: Key)
    requires Enabled(g.s, l) && k in g.taken && Pending(g.s, k, g.taken[k])
    ensures var h := Note(g, l);
            k in h.taken && ((k in h.stored && h.taken[k] in h.stored[k]) || Pending(h.s, k, h.taken[k]))
  {
    var h := Note(g, l);
    if l.Take? && g.s.readers[l.r].key == k {
      assert InFlight(h.s, l.r);
    } else if l.TakeFresh? && g.s.writer.key == k {
    } else if g.s.writer.Fresh? && g.s.writer.key == k && g.s.writer.tick == g.taken[k] {
      if l.Insert? {
        assert h.stored[k][|h.stored[k]| - 1] == g.taken[k];
      }
    } else {
      var r :| InFlight(g.s, r) && g.s.readers[r].key == k && g.s.readers[r].tick == g.taken[k];
      if l == Put(r) {
        assert h.stored[k][|h.stored[k]| - 1] == g.taken[k];
      } else {
        assert InFlight(h.s, r);
      }
    }
  }

  lemma LatestStep(g: Log, l: Step)
    requires LatestIsSomewhere(g) && Enabled(g.s, l)
    ensures LatestIsSomewhere(Note(g, l))
  {
    var h := Note(g, l);
    forall k | k in h.taken ensures (k in h.stored && h.taken[k] in h.stored[k]) || Pending(h.s, k, h.taken[k]) {
      if l.Take? && g.s.readers[l.r].key == k {
        assert InFlight(h.s, l.r);
      } else if l.TakeFresh? && g.s.writer.key == k {
      } else if Pending(g.s, k, g.taken[k]) {
        StillPending(g, l, k);
      } else {
        assert g.taken[k] in g.stored[k];
      }
    }
  }

  lemma EntriesStep(g: Log, l: Step)
    requires EntriesHoldLast(g) && Enabled(g.s, l)
    ensures EntriesHoldLast(Note(g, l))
  {
  }

  lemma RecordedStep(g: Log, l: Step)
    requires Recorded(g) && Enabled(g.s, l)
    ensures Recorded(Note(g, l))
  {
    assert Note(g, l).s == After(g.s, l);
    hide Inv, FlightsTaken, StoresTaken, LatestIsSomewhere, EntriesHoldLast, Enabled, After, Note;
    InvStep(g.s, l);
    FlightsTakenStep(g, l);
    StoresTakenStep(g, l);
    LatestStep(g, l);
    EntriesStep(g, l);
  }

  lemma {:induction false} RecordedHolds(ls: seq<Step>)
    requires Watch(START, ls).Some?
    ensures Recorded(Watch(START, ls).value)
  {
    if ls == [] {
    } else {
      var n := |ls| - 1;
      hide Recorded, Enabled, Note;
      RecordedHolds(ls[..n]);
      RecordedStep(Watch(START, ls[..n]).value, ls[n]);
    }
  }

  // ---- the tick of an entry against its last use ----

  lemma StaleMeansOvertaken(g: Log, k: Key)
    requires StoresTaken(g) && LatestIsSomewhere(g) && EntriesHoldLast(g)
    requires k in g.s.ticks && Settled(g.s, k)
    ensures k in g.taken && g.s.ticks[k] <= g.taken[k]
    ensures g.s.ticks[k] != g.taken[k] <==> OvertakenIn(g.stored[k])
  {
    var st, top := g.stored[k], g.taken[k];
    var n := |st| - 1;
    assert st[n] in st && !Pending(g.s, k, top);
    hide StoresTaken, LatestIsSomewhere, EntriesHoldLast, Settled, Pending;
    if st[n] != top {
      var i :| 0 <= i < |st| && st[i] == top;
    } else {
      forall i | 0 <= i < n ensures st[i] <= st[n] {
        assert st[i] in st;
      }
    }
  }

  /** A settled entry holds a tick older than its last use exactly if it was overtaken. */
  lemma SettledTickIsStale(ls: seq<Step>, k: Key)
    requires Exec(ls).Some? && k in Exec(ls).value.ticks && Settled(Exec(ls).value, k)
    ensures Exec(ls).value.ticks[k] <= LatestTake(ls, k)
    ensures Exec(ls).value.ticks[k] != LatestTake(ls, k) <==> Overtaken(ls, k)
  {
    WatchIsExec(ls);
    RecordedHolds(ls);
    var g := Watch(START, ls).value;
    assert k in g.stored;
    hide Inv, FlightsTaken, StoresTaken, LatestIsSomewhere, EntriesHoldLast, Settled, OvertakenIn, Watch, Exec;
    StaleMeansOvertaken(g, k);
  }

  /** The entry that is evicted is the least recently used one of all, unless its own last
      store was overtaken; the others may have been. */
  lemma VictimIsLeastRecentlyUsed(ls: seq<Step>, v: Key, k: Key)
    requires Exec(ls).Some? && Enabled(Exec(ls).value, Evict(v))
    requires k in Exec(ls).value.ticks && k != v
    requires !Overtaken(ls, v)
    ensures LatestTake(ls, v) < LatestTake(ls, k)
  {
    InvHolds(ls);
    hide FlightsDistinct;
    SettledTickIsStale(ls, v);
    SettledTickIsStale(ls, k);
  }

  // ---- runs without overlapping hits ----

  /** No two readers are inside for the same key. */
  ghost predicate NoOverlap(s: State) {
    forall r, r' :: r in s.readers && r' in s.readers && s.readers[r].key == s.readers[r'].key ==> r == r'
  }

  ghost predicate NeverOverlaps(ls: seq<Step>) {
    forall i :: 0 <= i <= |ls| ==> (Exec(ls[..i]).Some? ==> NoOverlap(Exec(ls[..i]).value))
  }

  lemma PrefixNeverOverlaps(ls: seq<Step>)
    requires ls != [] && NeverOverlaps(ls)
    ensures NeverOverlaps(ls[..|ls| - 1])
  {
    hide NoOverlap;
    var n := |ls| - 1;
    forall i | 0 <= i <= n ensures Exec(ls[..n][..i]).Some? ==> NoOverlap(Exec(ls[..n][..i]).value) {
      assert ls[..n][..i] == ls[..i];
    }
  }

  ghost predicate FlightsAhead(s: State) {
    forall r :: InFlight(s, r) && s.readers[r].key in s.ticks ==> s.ticks[s.readers[r].key] < s.readers[r].tick
  }

  lemma {:induction false} FlightsAheadHolds(ls: seq<Step>)
    requires Exec(ls).Some? && NeverOverlaps(ls)
    ensures FlightsAhead(Exec(ls).value)
  {
    if ls == [] {
    } else {
      var n := |ls| - 1;
      PrefixNeverOverlaps(ls);
      FlightsAheadHolds(ls[..n]);
      InvHolds(ls[..n]);
      assert ls[..|ls|] == ls;
      FlightsAheadStep(Exec(ls[..n]).value, ls[n]);
    }
  }

  lemma FlightsAheadStep(s: State, l: Step)
    requires Inv(s) && FlightsAhead(s) && NoOverlap(s) && Enabled(s, l)
    ensures FlightsAhead(After(s, l))
  {
    var t := After(s, l);
    forall r | InFlight(t, r) && t.readers[r].key in t.ticks
      ensures t.ticks[t.readers[r].key] < t.readers[r].tick
    {
      if !(l.Take? && l.r == r) {
        assert InFlight(s, r);
      }
    }
  }

  ghost predicate LastIsTop(st: seq<int>) {
    forall i :: 0 <= i < |st| - 1 ==> st[i] < st[|st| - 1]
  }

  ghost predicate AllBelow(st: seq<int>, n: int) {
    forall x :: x in st ==> x < n
  }

  /** Stores for each key follow the order of use. */
  ghost predicate StoresRise(g: Log) {
    && (forall k :: k in g.stored ==> LastIsTop(g.stored[k]) && AllBelow(g.stored[k], g.s.counter + 1))
    && (g.s.writer.Fresh? ==> forall k :: k in g.stored ==> AllBelow(g.stored[k], g.s.writer.tick))
  }

  lemma PushRises(stored: map<Key, seq<int>>, k: Key, tick: int, n: int)
    requires forall k' :: k' in stored ==> LastIsTop(stored[k']) && AllBelow(stored[k'], n)
    requires tick < n && (k in stored ==> AllBelow(stored[k], tick))
    ensures var more := Push(stored, k, tick);
            forall k' :: k' in more ==> LastIsTop(more[k']) && AllBelow(more[k'], n)
  {
    var more := Push(stored, k, tick);
    forall k' | k' in more ensures LastIsTop(more[k']) && AllBelow(more[k'], n) {
      if k' == k {
        var st := if k in stored then stored[k] else [];
        assert forall i :: 0 <= i < |st| ==> st[i] in st;
      } else {
        assert more[k'] == stored[k'];
      }
    }
  }

  lemma TopBounds(st: seq<int>, tick: int)
    requires st != [] && LastIsTop(st) && st[|st| - 1] < tick
    ensures AllBelow(st, tick)
  {
  }

  lemma PutRises(g: Log, r: nat)
    requires Inv(g.s) && FlightsAhead(g.s) && EntriesHoldLast(g) && StoresRise(g) && Enabled(g.s, Put(r))
    ensures StoresRise(Note(g, Put(r)))
  {
    var k, tick := g.s.readers[r].key, g.s.readers[r].tick;
    assert InFlight(g.s, r) && g.s.ticks[k] < tick && tick <= g.s.counter && k in g.stored;
    assert g.s.writer == NoWriter;
    hide LastIsTop, AllBelow, Push, Inv, FlightsAhead;
    TopBounds(g.stored[k], tick);
    PushRises(g.stored, k, tick, g.s.counter + 1);
  }

  lemma StoresRiseStep(g: Log, l: Step)
    requires Inv(g.s) && FlightsAhead(g.s) && EntriesHoldLast(g) && StoresRise(g) && Enabled(g.s, l)
    ensures StoresRise(Note(g, l))
  {
    hide LastIsTop, FlightsAhead, EntriesHoldLast;
    match l
    case Put(r) =>
      PutRises(g, r);
    case Insert =>
      hide AllBelow, Push;
      PushRises(g.stored, g.s.writer.key, g.s.writer.tick, g.s.counter + 1);
    case _ =>
  }

  lemma {:induction false} StoresRiseHolds(ls: seq<Step>)
    requires Exec(ls).Some? && NeverOverlaps(ls)
    ensures Watch(START, ls).Some? && StoresRise(Watch(START, ls).value)
  {
    WatchIsExec(ls);
    if ls != [] {
      var n := |ls| - 1;
      PrefixNeverOverlaps(ls);
      StoresRiseHolds(ls[..n]);
      FlightsAheadHolds(ls[..n]);
      RecordedHolds(ls[..n]);
      WatchIsExec(ls[..n]);
      hide Inv, FlightsAhead, EntriesHoldLast, StoresRise, Enabled, After, NeverOverlaps;
      StoresRiseStep(Watch(START, ls[..n]).value, ls[n]);
    }
  }

  /** If no two hits on one key ever overlap, nothing is overtaken. */
  lemma NeverOvertaken(ls: seq<Step>, k: Key)
    requires Exec(ls).Some? && NeverOverlaps(ls)
    ensures !Overtaken(ls, k)
  {
    StoresRiseHolds(ls);
  }

  // ---- a run in which a slow hit makes the wrong key go ----

  lemma {:induction false} WatchPlus(g: Log, ls: seq<Step>, ms: seq<Step>)
    requires Watch(g, ls).Some?
    ensures Watch(g, ls + ms) == Watch(Watch(g, ls).value, ms)
    decreases |ms|
  {
    hide Enabled, Note;
    if ms == [] {
      assert ls + ms == ls;
    } else {
      var n := |ms| - 1;
      assert (ls + ms)[..|ls| + n] == ls + ms[..n];
      WatchPlus(g, ls, ms[..n]);
    }
  }

  function Storing(k: Key, max: int): seq<Step> {
    [Lock(k, max), TakeFresh, Insert]
  }

  function BeginHit(r: nat, k: Key): seq<Step> {
    [Enter(r, k), Take(r)]
  }

  function EndHit(r: nat): seq<Step> {
    [Put(r), Leave(r)]
  }

  /** The log after the tick `tick` is taken and stored for `k`. */
  ghost function Used(g: Log, k: Key, tick: int): Log {
    Log(g.s.(counter := tick, ticks := g.s.ticks[k := tick]), g.taken[k := tick], Push(g.stored, k, tick))
  }

  lemma StoringRuns(g: Log, k: Key, max: int)
    requires g.s.writer == NoWriter && g.s.readers == map[]
    ensures var u := Used(g, k, g.s.counter + 1);
            Watch(g, Storing(k, max)) == Some(u.(s := u.s.(writer := Evicting(k, max))))
  {
    var ls := Storing(k, max);
    assert ls[..2][..1] == [Lock(k, max)] && ls[..2][1] == TakeFresh && ls[2] == Insert;
    var g1 := Note(g, Lock(k, max));
    assert Watch(g, [Lock(k, max)]) == Some(g1);
    assert Watch(g, ls[..2]) == Some(Note(g1, TakeFresh));
  }

  lemma StoreRuns(g: Log, k: Key, max: int)
    requires g.s.writer == NoWriter && g.s.readers == map[]
    requires |g.s.ticks[k := 0]| <= max
    ensures Watch(g, Storing(k, max) + [Unlock]) == Some(Used(g, k, g.s.counter + 1))
  {
    hide Push;
    StoringRuns(g, k, max);
    var ls := Storing(k, max) + [Unlock];
    assert ls[..3] == Storing(k, max);
    var t := g.s.ticks[k := g.s.counter + 1];
    assert |g.s.ticks[k := 0]| == |g.s.ticks[k := 0].Keys| && g.s.ticks[k := 0].Keys == t.Keys && |t.Keys| == |t|;
    hide Storing;
  }

  lemma Begins(g: Log, r: nat, k: Key)
    requires g.s.writer == NoWriter && r !in g.s.readers && k in g.s.ticks
    ensures var n := g.s.counter + 1;
            Watch(g, BeginHit(r, k)) ==
            Some(Log(State(n, g.s.ticks, g.s.readers[r := Ticked(k, n)], NoWriter), g.taken[k := n], g.stored))
  {
    hide Push;
    var ls, n := BeginHit(r, k), g.s.counter + 1;
    assert ls[..1] == [Enter(r, k)] && ls[..1][..0] == [];
    assert g.s.readers[r := Holding(k)][r := Ticked(k, n)] == g.s.readers[r := Ticked(k, n)];
    assert Watch(g, ls[..1]) == Some(Note(g, Enter(r, k)));
  }

  lemma Ends(g: Log, r: nat)
    requires InFlight(g.s, r)
    ensures var k, tick := g.s.readers[r].key, g.s.readers[r].tick;
            Watch(g, EndHit(r)) ==
            Some(Log(g.s.(ticks := g.s.ticks[k := tick], readers := g.s.readers - {r}), g.taken, Push(g.stored, k, tick)))
  {
    var ls := EndHit(r);
    assert ls[..1] == [Put(r)] && ls[..1][..0] == [];
    assert g.s.readers[r := Stored(g.s.readers[r].key)] - {r} == g.s.readers - {r};
    assert Watch(g, ls[..1]) == Some(Note(g, Put(r)));
  }

  /** A hit that nothing overlaps gives its key the newest tick. */
  lemma HitRuns(g: Log, r: nat, k: Key)
    requires g.s.writer == NoWriter && r !in g.s.readers && k in g.s.ticks
    ensures Watch(g, BeginHit(r, k) + EndHit(r)) == Some(Used(g, k, g.s.counter + 1))
  {
    hide Watch, Push;
    Begins(g, r, k);
    Ends(Watch(g, BeginHit(r, k)).value, r);
    WatchPlus(g, BeginHit(r, k), EndHit(r));
    assert g.s.readers[r := Ticked(k, g.s.counter + 1)] - {r} == g.s.readers;
  }

  /** A cache with the bound 2 gets `a` and `b`.  Reader 1 takes a tick for `a`; reader 2
      hits `b` from start to end; only then reader 3 hits `a` from start to end; last,
      reader 1 stores its old tick.  Now `c` is stored. */
  function SlowHit(a: Key, b: Key, c: Key): seq<Step> {
    (Storing(a, 2) + [Unlock]) + (Storing(b, 2) + [Unlock])
    + BeginHit(1, a) + (BeginHit(2, b) + EndHit(2)) + (BeginHit(3, a) + EndHit(3)) + EndHit(1)
    + Storing(c, 2)
  }

  /** The log after reader 1 took its tick. */
  ghost function SlowStart(a: Key, b: Key): Log {
    var g := Used(Used(START, a, 1), b, 2);
    Log(State(3, g.s.ticks, map[1 := Ticked(a, 3)], NoWriter), g.taken[a := 3], g.stored)
  }

  /** The log at the end of `SlowHit`. */
  ghost function SlowEnd(a: Key, b: Key, c: Key): Log {
    var g := Used(Used(SlowStart(a, b), b, 4), a, 5);
    var h := Used(Log(State(5, g.s.ticks[a := 3], map[], NoWriter), g.taken, Push(g.stored, a, 3)), c, 6);
    h.(s := h.s.(writer := Evicting(c, 2)))
  }

  lemma TwoStored(a: Key, b: Key)
    requires a != b
    ensures Watch(START, (Storing(a, 2) + [Unlock]) + (Storing(b, 2) + [Unlock])) == Some(Used(Used(START, a, 1), b, 2))
  {
    var g1 := Used(START, a, 1);
    assert START.s.ticks[a := 0] == map[a := 0] && |map[a := 0]| == 1;
    assert g1.s.ticks[b := 0].Keys == {a, b};
    assert |g1.s.ticks[b := 0]| == |g1.s.ticks[b := 0].Keys|;
    hide Watch, Storing, Push;
    StoreRuns(START, a, 2);
    StoreRuns(g1, b, 2);
    WatchPlus(START, Storing(a, 2) + [Unlock], Storing(b, 2) + [Unlock]);
  }

  lemma SlowStartRuns(a: Key, b: Key)
    requires a != b
    ensures Watch(START, (Storing(a, 2) + [Unlock]) + (Storing(b, 2) + [Unlock]) + BeginHit(1, a)) == Some(SlowStart(a, b))
  {
    var g := Used(Used(START, a, 1), b, 2);
    assert g.s.readers[1 := Ticked(a, 3)] == map[1 := Ticked(a, 3)];
    assert a in g.s.ticks;
    hide Watch, Storing, BeginHit, Push;
    TwoStored(a, b);
    Begins(g, 1, a);
    WatchPlus(START, (Storing(a, 2) + [Unlock]) + (Storing(b, 2) + [Unlock]), BeginHit(1, a));
  }

  lemma SlowHitRuns(a: Key, b: Key, c: Key)
    requires a != b && b != c && c != a
    ensures Watch(START, SlowHit(a, b, c)) == Some(SlowEnd(a, b, c))
  {
    SlowStartRuns(a, b);
    var g3 := SlowStart(a, b);
    var g4 := Used(g3, b, 4);
    var g5 := Used(g4, a, 5);
    var g6 := Log(State(5, g5.s.ticks[a := 3], map[], NoWriter), g5.taken, Push(g5.stored, a, 3));
    assert b in g3.s.ticks && a in g3.s.ticks && InFlight(g5.s, 1);
    assert g5.s.readers - {1} == map[];
    var p := (Storing(a, 2) + [Unlock]) + (Storing(b, 2) + [Unlock]) + BeginHit(1, a);
    var q, r := BeginHit(2, b) + EndHit(2), BeginHit(3, a) + EndHit(3);
    hide Watch, Storing, BeginHit, EndHit, Push, InFlight;
    HitRuns(g3, 2, b);
    WatchPlus(START, p, q);
    HitRuns(g4, 3, a);
    WatchPlus(START, p + q, r);
    Ends(g5, 1);
    WatchPlus(START, p + q + r, EndHit(1));
    StoringRuns(g6, c, 2);
    WatchPlus(START, p + q + r + EndHit(1), Storing(c, 2));
  }

  lemma SlowEndIs(a: Key, b: Key, c: Key)
    requires a != b && b != c && c != a
    ensures var g := SlowEnd(a, b, c);
            && g.s.ticks.Keys == {a, b, c} && g.s.ticks[a] == 3 && g.s.ticks[b] == 4 && g.s.ticks[c] == 6
            && g.taken.Keys == {a, b, c} && g.taken[a] == 5 && g.taken[b] == 4
            && g.s.writer == Evicting(c, 2)
  {
    hide Push;
  }

  lemma SlowStores(a: Key, b: Key, c: Key)
    requires a != b && b != c && c != a
    ensures var g := SlowEnd(a, b, c); a in g.stored && OvertakenIn(g.stored[a])
  {
    var g5 := Used(Used(SlowStart(a, b), b, 4), a, 5);
    assert a in g5.stored && |g5.stored[a]| > 0 && g5.stored[a][|g5.stored[a]| - 1] == 5;
    var g := SlowEnd(a, b, c);
    assert g.stored[a] == g5.stored[a] + [3];
    assert g.stored[a][|g5.stored[a]| - 1] == 5;
  }

  lemma OneMore(ls: seq<Step>, l: Step)
    requires Exec(ls).Some? && Enabled(Exec(ls).value, l)
    ensures Exec(ls + [l]) == Some(After(Exec(ls).value, l))
  {
    assert (ls + [l])[..|ls|] == ls;
  }

  /** So the ticks need not follow the order of use: in this run, which is possible from the
      empty cache, `a` is evicted although it was used after `b`, because a slow hit stored
      an older tick last. */
  lemma OverlapInvertsRecency(a: Key, b: Key, c: Key)
    requires a != b && b != c && c != a
    ensures var ls := SlowHit(a, b, c);
            && Exec(ls).Some? && Enabled(Exec(ls).value, Evict(a)) && Exec(ls + [Evict(a)]).Some?
            && Exec(ls + [Evict(a)]).value.ticks.Keys == {b, c}
            && LatestTake(ls, a) > LatestTake(ls, b) && Overtaken(ls, a)
  {
    var ls := SlowHit(a, b, c);
    WatchIsExec(ls);
    SlowHitRuns(a, b, c);
    SlowEndIs(a, b, c);
    SlowStores(a, b, c);
    hide SlowHit, SlowEnd, Watch, Exec, OvertakenIn;
    var s := Exec(ls).value;
    assert |s.ticks| == |s.ticks.Keys| == 3;
    OneMore(ls, Evict(a));
  }
}
