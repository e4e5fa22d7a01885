/** The fetch protocol shared by both Go caches, over every interleaving of callers,
    flights, cancellations and invalidations.

    A caller that misses joins the registered flight for its key, or registers a new one.
    The flight runs on its own: it looks the key up again, fetches, stores a success, and
    publishes its result, which every caller still waiting on it receives.  Callers and
    flights are numbered; what the server answers is chosen freely in `Reply`. */
module SingleFlight {
  import opened Options
  import opened RecencyList

  datatype Config = Config(ttl: int, maxEntries: int)

  datatype Caller<+V, +E> =
    | Missed(key: Key, cfg: Config)
    | Waiting(key: Key, flight: nat)
    | Done(key: Key, result: Result<V, E>, via: Option<nat>)
    | Gone(key: Key)

  datatype Phase<+V, +E> =
    | Checking
    | Fetching
    | Storing(value: V)
    | Returned(result: Result<V, E>)
    | Published(result: Result<V, E>)

  datatype Flight<+V, +E> = Flight(key: Key, cfg: Config, phase: Phase<V, E>)

  /** `fetched` logs the successful fetches as (key, value) pairs. */
  datatype State<+V, +E> = State(
    cache: Lru<V>,
    callers: map<nat, Caller<V, E>>,
    flights: seq<Flight<V, E>>,
    registry: map<Key, nat>,
    fetched: seq<(Key, V)>)

  datatype Step<+V, +E> =
    | Call(c: nat, key: Key, cfg: Config, now: int)
    | Join(c: nat)
    | Receive(c: nat)
    | Cancel(c: nat)
    | Check(f: nat, now: int)
    | Reply(f: nat, reply: Result<V, E>)
    | Save(f: nat, now: int)
    | Publish(f: nat)
    | Invalidate(key: Key)
    | Clear

  ghost function Init<V, E>(): State<V, E> {
    State(Lru([], map[], map[]), map[], [], map[], [])
  }

  ghost predicate Enabled<V(!new), E(!new)>(s: State<V, E>, l: Step<V, E>) {
    match l
    case Call(c, _, _, _) => c !in s.callers
    case Join(c) => c in s.callers && s.callers[c].Missed?
    case Receive(c) =>
      c in s.callers && s.callers[c].Waiting? &&
      s.callers[c].flight < |s.flights| && s.flights[s.callers[c].flight].phase.Published?
    case Cancel(c) => c in s.callers && s.callers[c].Waiting?
    case Check(f, _) => f < |s.flights| && s.flights[f].phase.Checking?
    case Reply(f, _) => f < |s.flights| && s.flights[f].phase.Fetching?
    case Save(f, _) => f < |s.flights| && s.flights[f].phase.Storing?
    case Publish(f) => f < |s.flights| && s.flights[f].phase.Returned?
    case Invalidate(_) | Clear => true
  }

  ghost function Turn<V, E>(s: State<V, E>, f: nat, phase: Phase<V, E>): State<V, E>
    requires f < |s.flights|
  {
    s.(flights := s.flights[f := s.flights[f].(phase := phase)])
  }

  ghost function Answer<V, E>(s: State<V, E>, c: nat, caller: Caller<V, E>): State<V, E> {
    s.(callers := s.callers[c := caller])
  }

  ghost function After<V(!new), E(!new)>(s: State<V, E>, l: Step<V, E>): State<V, E>
    requires Enabled(s, l)
  {
    match l
    case Call(c, key, cfg, now) =>
      if s.cache.Hit(key, now)
      then Answer(s, c, Done(key, Ok(s.cache.slots[key].value), None)).(cache := s.cache.Lookup(key, now))
      else Answer(s, c, Missed(key, cfg))
    case Join(c) =>
      var key := s.callers[c].key;
      if key in s.registry then Answer(s, c, Waiting(key, s.registry[key]))
      else
        var f := |s.flights|;
        Answer(s, c, Waiting(key, f)).(
          flights := s.flights + [Flight(key, s.callers[c].cfg, Checking)],
          registry := s.registry[key := f])
    case Receive(c) =>
      var f := s.callers[c].flight;
      Answer(s, c, Done(s.callers[c].key, s.flights[f].phase.result, Some(f)))
    case Cancel(c) => Answer(s, c, Gone(s.callers[c].key))
    case Check(f, now) =>
      var key := s.flights[f].key;
      if s.cache.Hit(key, now)
      then Turn(s, f, Returned(Ok(s.cache.slots[key].value))).(cache := s.cache.Lookup(key, now))
      else Turn(s, f, Fetching)
    case Reply(f, reply) =>
      (match reply
       case Ok(v) => Turn(s, f, Storing(v)).(fetched := s.fetched + [(s.flights[f].key, v)])
       case Err(e) => Turn(s, f, Returned(Err(e))))
    case Save(f, now) =>
      var flight := s.flights[f];
      var v := flight.phase.value;
      Turn(s, f, Returned(Ok(v))).(
        cache := Store(s.cache, flight.key, v, now + flight.cfg.ttl, flight.cfg.maxEntries))
    case Publish(f) =>
      Turn(s, f, Published(s.flights[f].phase.result)).(registry := s.registry - {s.flights[f].key})
    case Invalidate(key) => s.(cache := s.cache.Invalidate(key))
    case Clear => s.(cache := Lru([], map[], map[]))
  }

  /** The state the steps `ls` lead to from `s`, if they are possible in that order. */
  ghost function Exec<V(!new), E(!new)>(s: State<V, E>, ls: seq<Step<V, E>>): Option<State<V, E>> {
    if ls == [] then Some(s)
    else
      var before, l := Exec(s, ls[..|ls| - 1]), ls[|ls| - 1];
      if before.Some? && Enabled(before.value, l) then Some(After(before.value, l)) else None
  }

  // ---- what every interleaving keeps ----

  /** The registry holds exactly the flights that have not published, one per key. */
  ghost predicate Registered<V, E>(s: State<V, E>) {
    && (forall k :: k in s.registry ==>
          s.registry[k] < |s.flights| && s.flights[s.registry[k]].key == k && !s.flights[s.registry[k]].phase.Published?)
    && (forall f :: 0 <= f < |s.flights| && !s.flights[f].phase.Published? ==>
          s.flights[f].key in s.registry && s.registry[s.flights[f].key] == f)
  }

  /** A caller waits on a flight for its key, or has the result such a flight published. */
  ghost predicate Placed<V, E>(caller: Caller<V, E>, flights: seq<Flight<V, E>>) {
    match caller
    case Waiting(key, f) => f < |flights| && flights[f].key == key
    case Done(key, result, Some(f)) => f < |flights| && flights[f].key == key && flights[f].phase == Published(result)
    case _ => true
  }

  ghost predicate WaitersPlaced<V, E>(s: State<V, E>) {
    forall c :: c in s.callers ==> Placed(s.callers[c], s.flights)
  }

  /** `k`'s value comes from a successful fetch of `k`. */
  ghost predicate Genuine<V, E>(s: State<V, E>, k: Key, v: V) {
    (k, v) in s.fetched
  }

  ghost predicate FlightGenuine<V, E>(s: State<V, E>, flight: Flight<V, E>) {
    match flight.phase
    case Storing(v) => Genuine(s, flight.key, v)
    case Returned(Ok(v)) => Genuine(s, flight.key, v)
    case Published(Ok(v)) => Genuine(s, flight.key, v)
    case _ => true
  }

  ghost predicate AllGenuine<V, E>(s: State<V, E>) {
    && (forall k :: k in s.cache.slots ==> Genuine(s, k, s.cache.slots[k].value))
    && (forall f :: 0 <= f < |s.flights| ==> FlightGenuine(s, s.flights[f]))
    && (forall c :: c in s.callers && s.callers[c].Done? && s.callers[c].result.Ok? ==>
          Genuine(s, s.callers[c].key, s.callers[c].result.value))
  }

  ghost predicate Inv<V, E>(s: State<V, E>) {
    Registered(s) && WaitersPlaced(s) && AllGenuine(s)
  }

  lemma RegisteredStep<V(!new), E(!new)>(s: State<V, E>, l: Step<V, E>)
    requires Registered(s) && Enabled(s, l)
    ensures Registered(After(s, l))
  {
    match l
    case Check(f, _) => TurnRegistered(s, f, After(s, l));
    case Reply(f, _) => TurnRegistered(s, f, After(s, l));
    case Save(f, _) => TurnRegistered(s, f, After(s, l));
    case Publish(f) => PublishRegistered(s, f);
    case Join(c) => JoinRegistered(s, c);
    case Call(_, _, _, _) | Receive(_) | Cancel(_) | Invalidate(_) | Clear =>
  }

  lemma JoinRegistered<V(!new), E(!new)>(s: State<V, E>, c: nat)
    requires Registered(s) && Enabled(s, Join(c))
    ensures Registered(After(s, Join(c)))
  {
  }

  lemma TurnRegistered<V(!new), E(!new)>(s: State<V, E>, f: nat, t: State<V, E>)
    requires Registered(s) && f < |s.flights| && !s.flights[f].phase.Published?
    requires |t.flights| == |s.flights| && t.registry == s.registry
    requires forall g :: 0 <= g < |s.flights| && g != f ==> t.flights[g] == s.flights[g]
    requires t.flights[f].key == s.flights[f].key && !t.flights[f].phase.Published?
    ensures Registered(t)
  {
  }

  lemma PublishRegistered<V(!new), E(!new)>(s: State<V, E>, f: nat)
    requires Registered(s) && Enabled(s, Publish(f))
    ensures Registered(After(s, Publish(f)))
  {
    var t := After(s, Publish(f));
    forall g | 0 <= g < |t.flights| && !t.flights[g].phase.Published?
      ensures t.flights[g].key in t.registry && t.registry[t.flights[g].key] == g
    {
      assert g != f && t.flights[g] == s.flights[g];
    }
  }

  /** Flights keep their keys, and published flights their results. */
  ghost predicate Onward<V, E>(flights: seq<Flight<V, E>>, after: seq<Flight<V, E>>) {
    && |flights| <= |after|
    && (forall f :: 0 <= f < |flights| ==> after[f].key == flights[f].key)
    && (forall f :: 0 <= f < |flights| && flights[f].phase.Published? ==> after[f] == flights[f])
  }

  lemma FlightsMoveOn<V(!new), E(!new)>(s: State<V, E>, l: Step<V, E>)
    requires Enabled(s, l)
    ensures Onward(s.flights, After(s, l).flights)
  {
  }

  lemma StaysPlaced<V, E>(caller: Caller<V, E>, flights: seq<Flight<V, E>>, after: seq<Flight<V, E>>)
    requires Placed(caller, flights) && Onward(flights, after)
    ensures Placed(caller, after)
  {
  }

  lemma NewlyPlaced<V(!new), E(!new)>(s: State<V, E>, l: Step<V, E>, c: nat)
    requires Registered(s) && WaitersPlaced(s) && Enabled(s, l)
    requires c in After(s, l).callers && !(c in s.callers && After(s, l).callers[c] == s.callers[c])
    ensures Placed(After(s, l).callers[c], After(s, l).flights)
  {
    assert (l.Call? || l.Join? || l.Receive? || l.Cancel?) && l.c == c;
    if l.Receive? {
      assert Placed(s.callers[c], s.flights);
    }
  }

  lemma WaitersStep<V(!new), E(!new)>(s: State<V, E>, l: Step<V, E>)
    requires Registered(s) && WaitersPlaced(s) && Enabled(s, l)
    ensures WaitersPlaced(After(s, l))
  {
    FlightsMoveOn(s, l);
    var t := After(s, l);
    hide After, Enabled, Registered, Placed, Onward;
    forall c | c in t.callers ensures Placed(t.callers[c], t.flights) {
      if c in s.callers && t.callers[c] == s.callers[c] {
        StaysPlaced(s.callers[c], s.flights, t.flights);
      } else {
        NewlyPlaced(s, l, c);
      }
    }
  }

  lemma FetchedGrows<V(!new), E(!new)>(s: State<V, E>, l: Step<V, E>)
    requires Enabled(s, l)
    ensures s.fetched <= After(s, l).fetched
    ensures forall k, v :: Genuine(s, k, v) ==> Genuine(After(s, l), k, v)
  {
    assert s.fetched <= After(s, l).fetched;
    hide After, Enabled;
  }

  lemma CacheGenuine<V(!new), E(!new)>(s: State<V, E>, l: Step<V, E>, k: Key)
    requires AllGenuine(s) && Enabled(s, l) && k in After(s, l).cache.slots
    ensures Genuine(After(s, l), k, After(s, l).cache.slots[k].value)
  {
    FetchedGrows(s, l);
    if l.Save? && k == s.flights[l.f].key {
      assert FlightGenuine(s, s.flights[l.f]);
    } else {
      assert k in s.cache.slots && After(s, l).cache.slots[k] == s.cache.slots[k];
    }
  }

  lemma FlightsGenuine<V(!new), E(!new)>(s: State<V, E>, l: Step<V, E>, f: nat)
    requires AllGenuine(s) && Enabled(s, l) && f < |After(s, l).flights|
    ensures FlightGenuine(After(s, l), After(s, l).flights[f])
  {
    FetchedGrows(s, l);
    if f < |s.flights| {
      assert FlightGenuine(s, s.flights[f]);
    }
  }

  lemma CallersGenuine<V(!new), E(!new)>(s: State<V, E>, l: Step<V, E>, c: nat)
    requires Inv(s) && Enabled(s, l)
    requires var t := After(s, l); c in t.callers && t.callers[c].Done? && t.callers[c].result.Ok?
    ensures var t := After(s, l); Genuine(t, t.callers[c].key, t.callers[c].result.value)
  {
    FetchedGrows(s, l);
    if l.Receive? && l.c == c {
      assert Placed(s.callers[c], s.flights);
      assert FlightGenuine(s, s.flights[s.callers[c].flight]);
    }
  }

  lemma GenuineStep<V(!new), E(!new)>(s: State<V, E>, l: Step<V, E>)
    requires Inv(s) && Enabled(s, l)
    ensures AllGenuine(After(s, l))
  {
    var t := After(s, l);
    hide After, Enabled, Genuine, FlightGenuine, Registered, WaitersPlaced;
    forall k | k in t.cache.slots ensures Genuine(t, k, t.cache.slots[k].value) {
      CacheGenuine(s, l, k);
    }
    forall f | 0 <= f < |t.flights| ensures FlightGenuine(t, t.flights[f]) {
      FlightsGenuine(s, l, f);
    }
    forall c | c in t.callers && t.callers[c].Done? && t.callers[c].result.Ok?
      ensures Genuine(t, t.callers[c].key, t.callers[c].result.value)
    {
      CallersGenuine(s, l, c);
    }
  }

  lemma {:induction false} InvHolds<V(!new), E(!new)>(ls: seq<Step<V, E>>)
    requires Exec(Init(), ls).Some?
    ensures Inv(Exec(Init<V, E>(), ls).value)
  {
    if ls == [] {
    } else {
      var n := |ls| - 1;
      InvHolds(ls[..n]);
      var s := Exec(Init(), ls[..n]).value;
      RegisteredStep(s, ls[n]);
      WaitersStep(s, ls[n]);
      GenuineStep(s, ls[n]);
    }
  }

  /** At most one fetch per key is in progress. */
  lemma OneFetchPerKey<V(!new), E(!new)>(ls: seq<Step<V, E>>, f: nat, g: nat)
    requires Exec(Init<V, E>(), ls).Some?
    requires var s := Exec(Init<V, E>(), ls).value;
             f < |s.flights| && g < |s.flights| && s.flights[f].key == s.flights[g].key
             && s.flights[f].phase.Fetching? && s.flights[g].phase.Fetching?
    ensures f == g
  {
    InvHolds(ls);
  }

  /** A value handed to a caller, or cached, comes from a successful fetch of the same key;
      so a failure is never cached. */
  lemma ValuesAreFetched<V(!new), E(!new)>(ls: seq<Step<V, E>>)
    requires Exec(Init<V, E>(), ls).Some?
    ensures var s := Exec(Init<V, E>(), ls).value;
            && (forall c :: c in s.callers && s.callers[c].Done? && s.callers[c].result.Ok? ==>
                  (s.callers[c].key, s.callers[c].result.value) in s.fetched)
            && (forall k :: k in s.cache.slots ==> (k, s.cache.slots[k].value) in s.fetched)
  {
    InvHolds(ls);
    var s := Exec(Init<V, E>(), ls).value;
    forall k | k in s.cache.slots ensures (k, s.cache.slots[k].value) in s.fetched {
      assert Genuine(s, k, s.cache.slots[k].value);
    }
    forall c | c in s.callers && s.callers[c].Done? && s.callers[c].result.Ok?
      ensures (s.callers[c].key, s.callers[c].result.value) in s.fetched
    {
      assert Genuine(s, s.callers[c].key, s.callers[c].result.value);
    }
  }

  /** Callers served by the same flight get the same result. */
  lemma WaitersAgree<V(!new), E(!new)>(ls: seq<Step<V, E>>, c: nat, d: nat)
    requires Exec(Init<V, E>(), ls).Some?
    requires var s := Exec(Init<V, E>(), ls).value;
             && c in s.callers && d in s.callers && s.callers[c].Done? && s.callers[d].Done?
             && s.callers[c].via.Some? && s.callers[c].via == s.callers[d].via
    ensures var s := Exec(Init<V, E>(), ls).value;
            s.callers[c].result == s.callers[d].result && s.callers[c].key == s.callers[d].key
  {
    InvHolds(ls);
  }

  /** No waiter is stuck: its flight can move, or has a result for it to receive. */
  lemma WaiterIsNeverStuck<V(!new), E(!new)>(ls: seq<Step<V, E>>, c: nat, now: int, reply: Result<V, E>)
    requires Exec(Init<V, E>(), ls).Some?
    requires var s := Exec(Init<V, E>(), ls).value; c in s.callers && s.callers[c].Waiting?
    ensures var s := Exec(Init<V, E>(), ls).value; var f := s.callers[c].flight;
            || Enabled(s, Receive(c)) || Enabled(s, Check(f, now)) || Enabled(s, Reply(f, reply))
            || Enabled(s, Save(f, now)) || Enabled(s, Publish(f))
  {
    InvHolds(ls);
  }

  function StepsLeft<V, E>(phase: Phase<V, E>): nat {
    match phase
    case Checking => 4
    case Fetching => 3
    case Storing(_) => 2
    case Returned(_) => 1
    case Published(_) => 0
  }

  /** A flight publishes after at most four steps of its own, and no other step sets it back. */
  lemma FlightsFinish<V(!new), E(!new)>(s: State<V, E>, l: Step<V, E>, f: nat)
    requires Enabled(s, l) && f < |s.flights|
    ensures var left, left' := StepsLeft(s.flights[f].phase), StepsLeft(After(s, l).flights[f].phase);
            if (l.Check? || l.Reply? || l.Save? || l.Publish?) && l.f == f then left' < left else left' == left
  {
  }

  // ---- what a flight does for its callers ----

  lemma CacheStep<V(!new), E(!new)>(s: State<V, E>, l: Step<V, E>)
    requires s.cache.Valid() && Enabled(s, l)
    ensures After(s, l).cache.Valid()
  {
    hide NoDup, Keys, RecencyList.Store;
    match l
    case Call(_, key, _, now) => LookupValid(s.cache, key, now);
    case Check(f, now) => LookupValid(s.cache, s.flights[f].key, now);
    case Save(f, now) =>
      var flight := s.flights[f];
      StoreValid(s.cache, flight.key, flight.phase.value, now + flight.cfg.ttl, flight.cfg.maxEntries);
    case Invalidate(key) => InvalidateValid(s.cache, key);
    case Clear => EmptyIsValid(After(s, l).cache);
    case Join(_) | Receive(_) | Cancel(_) | Reply(_, _) | Publish(_) =>
  }

  lemma EmptyIsValid<V>(c: Lru<V>)
    requires c == Lru([], map[], map[])
    ensures c.Valid()
  {
  }

  lemma {:induction false} CacheIsValid<V(!new), E(!new)>(ls: seq<Step<V, E>>)
    requires Exec(Init(), ls).Some?
    ensures Exec(Init<V, E>(), ls).value.cache.Valid()
  {
    if ls == [] {
    } else {
      hide Enabled, After;
      var n := |ls| - 1;
      CacheIsValid(ls[..n]);
      CacheStep(Exec(Init(), ls[..n]).value, ls[n]);
    }
  }

  lemma Next<V(!new), E(!new)>(s: State<V, E>, ls: seq<Step<V, E>>, l: Step<V, E>)
    requires Exec(s, ls).Some? && Enabled(Exec(s, ls).value, l)
    ensures Exec(s, ls + [l]) == Some(After(Exec(s, ls).value, l))
  {
    assert (ls + [l])[..|ls|] == ls;
  }

  /** Step `l` leads from `s` to `t`. */
  ghost predicate Goes<V(!new), E(!new)>(s: State<V, E>, l: Step<V, E>, t: State<V, E>) {
    Enabled(s, l) && t == After(s, l)
  }

  lemma ThreeSteps<V(!new), E(!new)>(s: State<V, E>, l1: Step<V, E>, s1: State<V, E>, l2: Step<V, E>, s2: State<V, E>,
                                     l3: Step<V, E>, s3: State<V, E>)
    requires Goes(s, l1, s1) && Goes(s1, l2, s2) && Goes(s2, l3, s3)
    ensures Exec(s, [l1, l2, l3]) == Some(s3)
  {
    hide Enabled, After;
    var p1 := [] + [l1];
    Next(s, [], l1);
    var p2 := p1 + [l2];
    Next(s, p1, l2);
    Next(s, p2, l3);
    hide Exec;
    assert p2 + [l3] == [l1, l2, l3];
  }

  lemma FiveSteps<V(!new), E(!new)>(s: State<V, E>, l1: Step<V, E>, s1: State<V, E>, l2: Step<V, E>, s2: State<V, E>,
                                    l3: Step<V, E>, s3: State<V, E>, l4: Step<V, E>, s4: State<V, E>,
                                    l5: Step<V, E>, s5: State<V, E>)
    requires Goes(s, l1, s1) && Goes(s1, l2, s2) && Goes(s2, l3, s3) && Goes(s3, l4, s4) && Goes(s4, l5, s5)
    ensures Exec(s, [l1, l2, l3, l4, l5]) == Some(s5)
  {
    hide Enabled, After, Exec;
    ThreeSteps(s, l1, s1, l2, s2, l3, s3);
    var p := [l1, l2, l3] + [l4];
    Next(s, [l1, l2, l3], l4);
    Next(s, p, l5);
    assert p + [l5] == [l1, l2, l3, l4, l5];
  }

  /** Two callers miss a key that nobody fetches; the flight of the first takes off. */
  function TakeOff<V, E>(c: nat, d: nat, f: nat, key: Key, cfg: Config, now: int): seq<Step<V, E>> {
    [Call(c, key, cfg, now), Call(d, key, cfg, now), Join(c), Join(d), Check(f, now)]
  }

  lemma TakeOffRuns<V(!new), E(!new)>(s: State<V, E>, c: nat, d: nat, key: Key, cfg: Config, now: int)
    requires c != d && c !in s.callers && d !in s.callers && key !in s.registry && !s.cache.Hit(key, now)
    ensures var f := |s.flights|;
            Exec(s, TakeOff(c, d, f, key, cfg, now)) ==
            Some(s.(callers := s.callers[c := Waiting(key, f)][d := Waiting(key, f)],
                    flights := s.flights + [Flight(key, cfg, Fetching)],
                    registry := s.registry[key := f]))
  {
    var f := |s.flights|;
    var s1 := s.(callers := s.callers[c := Missed(key, cfg)]);
    var s2 := s.(callers := s.callers[c := Missed(key, cfg)][d := Missed(key, cfg)]);
    var s3 := s.(callers := s.callers[c := Waiting(key, f)][d := Missed(key, cfg)],
                 flights := s.flights + [Flight(key, cfg, Checking)], registry := s.registry[key := f]);
    var s4 := s3.(callers := s.callers[c := Waiting(key, f)][d := Waiting(key, f)]);
    var s5 := s4.(flights := s.flights + [Flight(key, cfg, Fetching)]);
    assert s2.callers[c := Waiting(key, f)] == s3.callers && s3.callers[d := Waiting(key, f)] == s4.callers;
    assert s4.flights[f := Flight(key, cfg, Fetching)] == s5.flights;
    assert Goes(s, Call(c, key, cfg, now), s1);
    assert Goes(s1, Call(d, key, cfg, now), s2);
    assert Goes(s2, Join(c), s3);
    assert Goes(s3, Join(d), s4);
    assert Goes(s4, Check(f, now), s5);
    hide Goes, Exec;
    FiveSteps(s, Call(c, key, cfg, now), s1, Call(d, key, cfg, now), s2, Join(c), s3, Join(d), s4, Check(f, now), s5);
  }

  lemma {:induction false} ExecPlus<V(!new), E(!new)>(s: State<V, E>, a: seq<Step<V, E>>, b: seq<Step<V, E>>)
    requires Exec(s, a).Some?
    ensures Exec(s, a + b) == Exec(Exec(s, a).value, b)
    decreases |b|
  {
    hide Enabled, After;
    if b == [] {
      assert a + b == a;
    } else {
      var n := |b| - 1;
      assert (a + b)[..|a| + n] == a + b[..n];
      ExecPlus(s, a, b[..n]);
    }
  }

  /** The flight hands its result to both. */
  function HandOut<V, E>(c: nat, d: nat, f: nat): seq<Step<V, E>> {
    [Publish(f), Receive(c), Receive(d)]
  }

  /** The server answers; a success is stored. */
  function Answered<V, E>(f: nat, reply: Result<V, E>, saved: int): seq<Step<V, E>> {
    if reply.Ok? then [Reply(f, reply), Save(f, saved)] else [Reply(f, reply)]
  }

  ghost predicate BothWait<V, E>(s: State<V, E>, c: nat, d: nat, f: nat, key: Key) {
    && c != d && c in s.callers && d in s.callers && s.callers[c] == Waiting(key, f) && s.callers[d] == Waiting(key, f)
    && f < |s.flights| && s.flights[f].key == key
  }

  lemma HandOutRuns<V(!new), E(!new)>(s: State<V, E>, c: nat, d: nat, f: nat, key: Key, reply: Result<V, E>)
    requires BothWait(s, c, d, f, key) && s.flights[f].phase == Returned(reply)
    ensures Exec(s, HandOut(c, d, f)) ==
            Some(s.(callers := s.callers[c := Done(key, reply, Some(f))][d := Done(key, reply, Some(f))],
                    flights := s.flights[f := s.flights[f].(phase := Published(reply))],
                    registry := s.registry - {key}))
  {
    var s1 := s.(flights := s.flights[f := s.flights[f].(phase := Published(reply))], registry := s.registry - {key});
    var s2 := s1.(callers := s.callers[c := Done(key, reply, Some(f))]);
    var s3 := s1.(callers := s.callers[c := Done(key, reply, Some(f))][d := Done(key, reply, Some(f))]);
    assert Goes(s, Publish(f), s1);
    assert Goes(s1, Receive(c), s2);
    assert Goes(s2, Receive(d), s3);
    hide Goes, Exec;
    ThreeSteps(s, Publish(f), s1, Receive(c), s2, Receive(d), s3);
  }

  /** What an answer leaves: only a success is logged and cached. */
  ghost function AnswerOf<V, E>(s: State<V, E>, f: nat, reply: Result<V, E>, saved: int): State<V, E>
    requires f < |s.flights|
  {
    var flight := s.flights[f];
    var t := s.(flights := s.flights[f := flight.(phase := Returned(reply))]);
    match reply
    case Err(_) => t
    case Ok(v) =>
      t.(fetched := s.fetched + [(flight.key, v)],
         cache := Store(s.cache, flight.key, v, saved + flight.cfg.ttl, flight.cfg.maxEntries))
  }

  lemma AnswerGoes<V(!new), E(!new)>(s: State<V, E>, f: nat, v: V, saved: int)
    requires f < |s.flights| && s.flights[f].phase == Fetching
    ensures Enabled(s, Reply(f, Ok(v))) && Enabled(After(s, Reply(f, Ok(v))), Save(f, saved))
    ensures After(After(s, Reply(f, Ok(v))), Save(f, saved)) == AnswerOf(s, f, Ok(v), saved)
  {
    hide RecencyList.Store;
    var flight := s.flights[f];
    var s1 := s.(flights := s.flights[f := flight.(phase := Storing(v))], fetched := s.fetched + [(flight.key, v)]);
    assert After(s, Reply(f, Ok(v))) == s1;
    assert s1.flights[f := flight.(phase := Returned(Ok(v)))] == s.flights[f := flight.(phase := Returned(Ok(v)))];
  }

  lemma AnsweredRuns<V(!new), E(!new)>(s: State<V, E>, f: nat, reply: Result<V, E>, saved: int)
    requires f < |s.flights| && s.flights[f].phase == Fetching
    ensures Exec(s, Answered(f, reply, saved)) == Some(AnswerOf(s, f, reply, saved))
  {
    hide RecencyList.Store, Exec;
    var l: Step<V, E> := Reply(f, reply);
    var p := [] + [l];
    assert p == [l];
    assert Exec(s, []) == Some(s) by {
      Nowhere(s);
    }
    Next(s, [], l);
    if reply.Ok? {
      AnswerGoes(s, f, reply.value, saved);
      Next(s, p, Save(f, saved));
      assert p + [Save(f, saved)] == [l, Save(f, saved)];
    }
  }

  lemma Nowhere<V(!new), E(!new)>(s: State<V, E>)
    ensures Exec(s, []) == Some(s)
  {
  }

  /** One fetch serves all.  From any state, two callers that miss a key that nobody fetches are
      served by one flight with what the server answers; only a success is logged, once. */
  lemma OneFetchServesAll<V(!new), E(!new)>(s: State<V, E>, c: nat, d: nat, key: Key, cfg: Config, now: int,
                                            reply: Result<V, E>, saved: int)
    requires c != d && c !in s.callers && d !in s.callers && key !in s.registry && !s.cache.Hit(key, now)
    ensures var f := |s.flights|;
            var r := Exec(s, TakeOff(c, d, f, key, cfg, now) + Answered(f, reply, saved) + HandOut(c, d, f));
            && r.Some?
            && r.value.callers == s.callers[c := Done(key, reply, Some(f))][d := Done(key, reply, Some(f))]
            && r.value.registry == s.registry
            && r.value.fetched == (if reply.Ok? then s.fetched + [(key, reply.value)] else s.fetched)
            && r.value.cache == (if reply.Ok? then Store(s.cache, key, reply.value, saved + cfg.ttl, cfg.maxEntries) else s.cache)
  {
    var f := |s.flights|;
    var a, b, h := TakeOff(c, d, f, key, cfg, now), Answered(f, reply, saved), HandOut(c, d, f);
    TakeOffRuns(s, c, d, key, cfg, now);
    var t := Exec(s, a).value;
    AnsweredRuns(t, f, reply, saved);
    var u := AnswerOf(t, f, reply, saved);
    HandsTo(s, t, u, c, d, key, cfg, reply, saved);
    hide Exec, TakeOff, Answered, HandOut, AnswerOf, RecencyList.Store;
    ExecPlus(s, a, b);
    ExecPlus(s, a + b, h);
  }

  lemma HandsTo<V(!new), E(!new)>(s: State<V, E>, t: State<V, E>, u: State<V, E>, c: nat, d: nat, key: Key, cfg: Config,
                                  reply: Result<V, E>, saved: int)
    requires c != d && key !in s.registry
    requires var f := |s.flights|;
             t == s.(callers := s.callers[c := Waiting(key, f)][d := Waiting(key, f)],
                     flights := s.flights + [Flight(key, cfg, Fetching)], registry := s.registry[key := f])
             && u == AnswerOf(t, f, reply, saved)
    ensures var f := |s.flights|;
            var r := Exec(u, HandOut(c, d, f));
            && r.Some?
            && r.value.callers == s.callers[c := Done(key, reply, Some(f))][d := Done(key, reply, Some(f))]
            && r.value.registry == s.registry
            && r.value.fetched == (if reply.Ok? then s.fetched + [(key, reply.value)] else s.fetched)
            && r.value.cache == (if reply.Ok? then Store(s.cache, key, reply.value, saved + cfg.ttl, cfg.maxEntries) else s.cache)
  {
    hide Exec, HandOut, RecencyList.Store;
    var f := |s.flights|;
    assert u.callers == t.callers && u.registry == t.registry;
    HandOutRuns(u, c, d, f, key, reply);
    assert t.callers[c := Done(key, reply, Some(f))][d := Done(key, reply, Some(f))] ==
           s.callers[c := Done(key, reply, Some(f))][d := Done(key, reply, Some(f))];
    assert s.registry[key := f] - {key} == s.registry;
  }

  /** What a flight stores is served without another fetch, in every reachable state, until it
      expires and not after: to a caller that looks it up, and to the flight of a caller that
      missed it before it was stored and joined too late. */
  lemma SavedIsServed<V(!new), E(!new)>(ls: seq<Step<V, E>>, f: nat, now: int, c: nat, d: nat, cfg: Config, later: int)
    requires Exec(Init<V, E>(), ls).Some? && Enabled(Exec(Init<V, E>(), ls).value, Save(f, now))
    requires var s := Exec(Init<V, E>(), ls).value;
             c !in s.callers && d in s.callers && s.callers[d] == Missed(s.flights[f].key, cfg)
    ensures var s := Exec(Init<V, E>(), ls).value;
            var flight, t := s.flights[f], After(s, Save(f, now));
            After(t, Call(c, flight.key, cfg, later)).callers[c] ==
            if later < now + flight.cfg.ttl then Done(flight.key, Ok(flight.phase.value), None) else Missed(flight.key, cfg)
    ensures var s := Exec(Init<V, E>(), ls).value;
            var flight, t := s.flights[f], After(s, Save(f, now));
            var u := After(After(t, Publish(f)), Join(d));
            var g := |s.flights|;
            && u.callers[d] == Waiting(flight.key, g)
            && After(u, Check(g, later)).flights[g].phase ==
               if later < now + flight.cfg.ttl then Returned(Ok(flight.phase.value)) else Fetching
  {
    CacheIsValid(ls);
    InvHolds(ls);
    var s := Exec(Init<V, E>(), ls).value;
    var key, t := s.flights[f].key, After(s, Save(f, now));
    SaveIs(s, f, now, later);
    LateJoin(t, f, d, key, cfg, later);
    hide RecencyList.Store, Exec, WaitersPlaced, AllGenuine;
  }

  lemma SaveIs<V(!new), E(!new)>(s: State<V, E>, f: nat, now: int, later: int)
    requires s.cache.Valid() && Enabled(s, Save(f, now))
    ensures var flight, t := s.flights[f], After(s, Save(f, now));
            && flight.key in t.cache.slots && t.cache.slots[flight.key].value == flight.phase.value
            && (t.cache.Hit(flight.key, later) <==> later < now + flight.cfg.ttl)
            && t.callers == s.callers && t.registry == s.registry && |t.flights| == |s.flights|
            && t.flights[f] == flight.(phase := Returned(Ok(flight.phase.value)))
  {
    var flight := s.flights[f];
    JustStoredSurvives(s.cache, flight.key, flight.phase.value, now + flight.cfg.ttl, flight.cfg.maxEntries);
    hide RecencyList.Store;
  }

  lemma LateJoin<V(!new), E(!new)>(t: State<V, E>, f: nat, d: nat, key: Key, cfg: Config, later: int)
    requires f < |t.flights| && t.flights[f].key == key && t.flights[f].phase.Returned?
    requires d in t.callers && t.callers[d] == Missed(key, cfg)
    ensures var g := |t.flights|;
            var u := After(After(t, Publish(f)), Join(d));
            && u.callers[d] == Waiting(key, g)
            && Enabled(u, Check(g, later))
            && After(u, Check(g, later)).flights[g].phase ==
               if t.cache.Hit(key, later) then Returned(Ok(t.cache.slots[key].value)) else Fetching
  {
    var p := After(t, Publish(f));
    assert p.callers == t.callers && p.cache == t.cache && key !in p.registry && |p.flights| == |t.flights|;
    var u := After(p, Join(d));
    assert u.flights == p.flights + [Flight(key, cfg, Checking)] && u.cache == t.cache;
  }

  // ---- cancellation is invisible to the others ----

  ghost predicate SameButFor<V, E>(s: State<V, E>, t: State<V, E>, c: nat) {
    && s.cache == t.cache && s.flights == t.flights && s.registry == t.registry && s.fetched == t.fetched
    && c in s.callers && c in t.callers && s.callers[c := t.callers[c]] == t.callers
  }

  ghost predicate IsOf<V, E>(l: Step<V, E>, c: nat) {
    (l.Call? || l.Join? || l.Receive? || l.Cancel?) && l.c == c
  }

  lemma OtherStep<V(!new), E(!new)>(s: State<V, E>, t: State<V, E>, c: nat, l: Step<V, E>)
    requires SameButFor(s, t, c) && !IsOf(l, c)
    ensures Enabled(s, l) <==> Enabled(t, l)
    ensures Enabled(s, l) ==> SameButFor(After(s, l), After(t, l), c)
  {
    if l.Call? || l.Join? || l.Receive? || l.Cancel? {
      assert l.c in s.callers <==> l.c in t.callers;
      assert l.c in s.callers ==> s.callers[l.c] == t.callers[l.c];
    }
  }

  /** Whatever the others do after `c` is cancelled, they could do had it not been, and with
      the same cache, flights, results and fetches; this includes the flight `c` itself
      started. */
  lemma {:induction false} CancelIsInvisible<V(!new), E(!new)>(s: State<V, E>, c: nat, ls: seq<Step<V, E>>)
    requires Enabled(s, Cancel(c))
    requires forall i :: 0 <= i < |ls| ==> !IsOf(ls[i], c)
    ensures Exec(After(s, Cancel(c)), ls).Some? <==> Exec(s, ls).Some?
    ensures Exec(s, ls).Some? ==> SameButFor(Exec(s, ls).value, Exec(After(s, Cancel(c)), ls).value, c)
  {
    if ls == [] {
    } else {
      var n := |ls| - 1;
      CancelIsInvisible(s, c, ls[..n]);
      if Exec(s, ls[..n]).Some? {
        OtherStep(Exec(s, ls[..n]).value, Exec(After(s, Cancel(c)), ls[..n]).value, c, ls[n]);
      }
    }
  }
}
