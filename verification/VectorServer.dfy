/** The canned-vector server: a bounded table of runs, each a bounded list of requests.

    A handler that awaits a request body keeps its run and its record, even if the run is
    reset or expires meanwhile.  So runs are numbered as they are created, the table maps a
    base path to the number of its run, and a ticket names the run, path and slot that an
    awaiting handler holds. */
module VectorServer {
  import opened Options
  import opened VectorRun

  datatype Limits = Limits(maxRuns: int, maxRequests: int, ttl: int)

  datatype Ticket = Ticket(run: nat, path: Path, index: nat, vector: Vector)

  datatype Begun = Answered(reply: Reply) | Awaiting(ticket: Ticket)

  function AtLeastZero(n: int): int {
    if n < 0 then 0 else n
  }

  // ---- one run ----

  ghost predicate Distinct<T>(s: seq<T>) {
    s == [] || (s[|s| - 1] !in s[..|s| - 1] && Distinct(s[..|s| - 1]))
  }

  /** The number of requests recorded on `paths`. */
  ghost function Total(paths: seq<Path>, lanes: map<Path, seq<Record>>): nat {
    if paths == [] then 0
    else
      var p := paths[|paths| - 1];
      Total(paths[..|paths| - 1], lanes) + if p in lanes then |lanes[p]| else 0
  }

  ghost predicate RunValid(run: Run, max: int) {
    && Distinct(run.paths) && (forall p :: p in run.paths <==> p in run.lanes)
    && run.count == Total(run.paths, run.lanes)
    && run.count <= AtLeastZero(max)
  }

  lemma {:induction false} TotalElsewhere(paths: seq<Path>, lanes: map<Path, seq<Record>>, p: Path, lane: seq<Record>)
    requires p !in paths
    ensures Total(paths, lanes[p := lane]) == Total(paths, lanes)
  {
    if paths == [] {
    } else {
      TotalElsewhere(paths[..|paths| - 1], lanes, p, lane);
    }
  }

  lemma {:induction false} TotalChange(paths: seq<Path>, lanes: map<Path, seq<Record>>, p: Path, lane: seq<Record>)
    requires Distinct(paths) && p in paths && p in lanes
    ensures Total(paths, lanes[p := lane]) == Total(paths, lanes) - |lanes[p]| + |lane|
  {
    var n := |paths| - 1;
    if p == paths[n] {
      TotalElsewhere(paths[..n], lanes, p, lane);
    } else {
      assert p in paths[..n];
      TotalChange(paths[..n], lanes, p, lane);
    }
  }

  lemma AdmitValid(run: Run, p: Path, record: Record, max: int)
    requires RunValid(run, max) && run.count < max
    ensures RunValid(Admit(run, p, record), max)
  {
    var lane := run.Lane(p) + [record.(form := [], pending := true)];
    if p in run.lanes {
      TotalChange(run.paths, run.lanes, p, lane);
    } else {
      var paths := run.paths + [p];
      assert paths[..|run.paths|] == run.paths;
      TotalElsewhere(run.paths, run.lanes, p, lane);
    }
  }

  lemma SettleValid(run: Run, p: Path, index: nat, body: Body, fault: string, max: int)
    requires RunValid(run, max) && index < |run.Lane(p)|
    ensures RunValid(Settle(run, p, index, body, fault), max)
  {
    TotalChange(run.paths, run.lanes, p, run.lanes[p][index := Finished(run.lanes[p][index], body)]);
  }

  // ---- the table of runs ----

  ghost predicate TableValid(requests: map<Path, nat>, runs: seq<Run>, limits: Limits) {
    && (forall b :: b in requests ==> requests[b] < |runs|)
    && (forall b, b' :: b in requests && b' in requests && requests[b] == requests[b'] ==> b == b')
    && |requests| <= AtLeastZero(limits.maxRuns)
    && forall i :: 0 <= i < |runs| ==> RunValid(runs[i], limits.maxRequests)
  }

  /** The runs that have not been idle for `ttl`. */
  ghost function Live(requests: map<Path, nat>, runs: seq<Run>, now: int, ttl: int): map<Path, nat>
    requires forall b :: b in requests ==> requests[b] < |runs|
  {
    map b | b in requests && now - runs[requests[b]].updatedAt < ttl :: requests[b]
  }

  lemma LiveValid(requests: map<Path, nat>, runs: seq<Run>, limits: Limits, now: int)
    requires TableValid(requests, runs, limits)
    ensures TableValid(Live(requests, runs, now, limits.ttl), runs, limits)
  {
    var live := Live(requests, runs, now, limits.ttl);
    assert requests.Keys == live.Keys + (requests.Keys - live.Keys);
    assert |live| == |live.Keys| && |requests| == |requests.Keys|;
  }

  /** What an awaiting handler holds: its record, still pending. */
  ghost predicate Holds(runs: seq<Run>, t: Ticket) {
    && t.run < |runs| && t.index < |runs[t.run].Lane(t.path)|
    && runs[t.run].lanes[t.path][t.index].pending
  }

  /** `_check` passes. */
  ghost predicate Passes(v: Vector, run: Option<Run>) {
    match run
    case Some(r) => Met(v, r)
    case None =>
      && v.expectCalls.Some? && v.expectRequest.None?
      && forall c :: c in v.expectCalls.value ==> c.1 == 0
  }

  /** Where nothing was recorded, the check passes exactly if it would on an empty run, and
      the vector does count its calls. */
  lemma NoRunIsEmptyRun(v: Vector, now: int)
    ensures Passes(v, None) <==> v.expectCalls.Some? && Passes(v, Some(FreshRun(now)))
  {
  }

  lemma TableAdd(requests: map<Path, nat>, runs: seq<Run>, limits: Limits, base: Path, run: Run)
    requires TableValid(requests, runs, limits) && RunValid(run, limits.maxRequests)
    requires base !in requests && |requests| < limits.maxRuns
    ensures TableValid(requests[base := |runs|], runs + [run], limits)
  {
    assert requests[base := |runs|].Keys == requests.Keys + {base};
    assert |requests| == |requests.Keys|;
  }

  lemma TablePut(requests: map<Path, nat>, runs: seq<Run>, limits: Limits, id: nat, run: Run)
    requires TableValid(requests, runs, limits) && RunValid(run, limits.maxRequests) && id < |runs|
    ensures TableValid(requests, runs[id := run], limits)
  {
  }

  /** A run after a request arrives on `p`, and how the handler goes on. */
  function Arrived(run: Run, id: nat, p: Path, v: Vector, record: Record, max: int): (Run, Begun) {
    if run.count >= max then
      var full := run.Blame(LimitText(max));
      (full, Answered(Reply(429, Failure(full.error))))
    else
      (Admit(run, p, record), Awaiting(Ticket(id, p, |run.Lane(p)|, v)))
  }

  /** One pending slot more at the end of `p`, and all else as before. */
  ghost predicate Reserved(run: Run, run': Run, p: Path) {
    && |run'.Lane(p)| == |run.Lane(p)| + 1 && run'.Lane(p)[..|run.Lane(p)|] == run.Lane(p)
    && run'.Lane(p)[|run.Lane(p)|].pending
    && (forall q :: q != p ==> run'.Lane(q) == run.Lane(q))
    && run'.count == run.count + 1 && run'.error == run.error && run'.updatedAt == run.updatedAt
  }

  ghost predicate Refused(run: Run, run': Run) {
    run'.lanes == run.lanes && run'.paths == run.paths && run'.count == run.count && run'.error != ""
  }

  /** The slot of a request is reserved, or the request refused. */
  method Reserve(run: Run, id: nat, p: Path, v: Vector, record: Record, max: int) returns (run': Run, r: Begun)
    ensures (run', r) == Arrived(run, id, p, v, record, max)
    ensures r.Awaiting? ==>
              r.ticket.run == id && r.ticket.index < |run'.Lane(r.ticket.path)| && run'.lanes[r.ticket.path][r.ticket.index].pending
    ensures if r.Awaiting? then Reserved(run, run', p) else Refused(run, run')
    ensures r.Answered? <==> run.count >= max
    ensures r.Answered? ==> r.reply == Reply(429, Failure(run'.error))
    ensures r.Answered? ==> run'.error == if run.error != "" then run.error else "request limit " + Decimal(max) + " reached"
    ensures r.Awaiting? ==> r.ticket == Ticket(id, p, |run.Lane(p)|, v)
  {
    if run.count >= max {
      run' := run.Blame(LimitText(max));
      return run', Answered(Reply(429, Failure(run'.error)));
    }
    run' := Admit(run, p, record);
    r := Awaiting(Ticket(id, p, |run'.Lane(p)| - 1, v));
  }

  lemma ArrivedValid(run: Run, id: nat, p: Path, v: Vector, record: Record, max: int)
    requires RunValid(run, max)
    ensures RunValid(Arrived(run, id, p, v, record, max).0, max)
  {
    if run.count < max {
      AdmitValid(run, p, record, max);
    }
  }

  /** A ticket stays good until its own request completes, whatever else happens to its run:
      another completion, a new arrival, or the run leaving the table. */
  lemma TicketStays(runs: seq<Run>, t: Ticket, u: Ticket, body: Body, fault: string)
    requires Holds(runs, t) && Holds(runs, u)
    requires t.run != u.run || t.path != u.path || t.index != u.index
    ensures Holds(runs[u.run := Settle(runs[u.run], u.path, u.index, body, fault)], t)
  {
    if t.run == u.run && t.path == u.path {
      assert t.index != u.index;
    }
  }

  lemma TicketStaysOnArrival(runs: seq<Run>, t: Ticket, id: nat, p: Path, v: Vector, record: Record, now: int, max: int)
    requires Holds(runs, t) && id < |runs|
    ensures Holds(runs[id := Arrived(runs[id].(updatedAt := now), id, p, v, record, max).0], t)
  {
    if t.run == id && t.path == p {
      assert Arrived(runs[id].(updatedAt := now), id, p, v, record, max).0.Lane(p)[t.index] == runs[id].Lane(p)[t.index];
    }
  }

  /** The loop that drops idle runs. */
  method Expire(requests: map<Path, nat>, runs: seq<Run>, now: int, ttl: int) returns (kept: map<Path, nat>)
    requires forall b :: b in requests ==> requests[b] < |runs|
    ensures kept == Live(requests, runs, now, ttl)
    ensures forall b :: b in kept <==> b in requests && now - runs[requests[b]].updatedAt < ttl
    ensures forall b :: b in kept ==> kept[b] == requests[b]
  {
    var todo := requests.Keys;
    kept := requests;
    while todo != {}
      invariant todo <= requests.Keys && kept.Keys <= requests.Keys
      invariant forall b :: b in kept ==> kept[b] == requests[b]
      invariant forall b :: b in requests ==>
                  (b in kept <==> b in todo || now - runs[requests[b]].updatedAt < ttl)
    {
      var b :| b in todo;
      if now - runs[requests[b]].updatedAt >= ttl {
        kept := kept - {b};
      }
      todo := todo - {b};
    }
  }

  /** `_check`, given the run if there is one. */
  method Judge(v: Vector, run: Option<Run>) returns (diffs: seq<Diff>)
    requires run.Some? ==> forall p :: p in run.value.lanes ==> p in run.value.paths
    ensures diffs == [] <==> Passes(v, run)
  {
    if run.Some? {
      diffs := VectorRun.Check(v, run.value);
      if run.value.error != "" {
        return [Error(run.value.error)] + diffs;
      }
      assert run.value.(error := "") == run.value;
      return;
    }
    var none := FreshRun(0);
    diffs := VectorRun.Check(v, none);
    var idle := true;
    var calls := if v.expectCalls.Some? then v.expectCalls.value else [];
    for i := 0 to |calls|
      invariant idle <==> forall c :: c in calls[..i] ==> c.1 == 0
    {
      idle := idle && calls[i].1 == 0;
      assert calls[..i + 1] == calls[..i] + [calls[i]];
    }
    assert calls[..|calls|] == calls;
    if v.expectCalls.None? || v.expectRequest.Some? || !idle {
      return [NoRun] + diffs;
    }
    assert Met(v, none.(error := ""));
  }

  class Server {
    const limits: Limits
    var requests: map<Path, nat>
    var runs: seq<Run>

    ghost predicate Valid()
      reads this
    {
      TableValid(requests, runs, limits)
    }

    constructor (limits: Limits)
      ensures Valid() && this.limits == limits && requests == map[] && runs == []
    {
      this.limits, requests, runs := limits, map[], [];
    }

    method Reset(base: Path, verb: string) returns (reply: Reply)
      requires Valid()
      modifies this`requests
      ensures Valid()
      ensures verb != "POST" ==> reply.status == 405 && requests == old(requests)
      ensures verb == "POST" ==> reply.status == 200 && requests == old(requests) - {base}
    {
      if verb != "POST" {
        return Reply(405, Nothing);
      }
      assert requests.Keys == (requests - {base}).Keys + (requests.Keys * {base});
      assert |requests| == |requests.Keys| && |requests - {base}| == |(requests - {base}).Keys|;
      requests := requests - {base};
      reply := Reply(200, Done);
    }

    /** Drop the runs that have been idle for too long. */
    method Sweep(now: int)
      requires Valid()
      modifies this`requests
      ensures Valid() && requests == Live(old(requests), runs, now, limits.ttl)
    {
      LiveValid(requests, runs, limits, now);
      requests := Expire(requests, runs, now, limits.ttl);
    }

    /** The run of `base`, if it has one; a new base is turned away when the table is full. */
    method Find(base: Path, now: int) returns (found: Result<Option<nat>, Reply>)
      requires Valid()
      modifies this`requests
      ensures Valid() && requests == Live(old(requests), runs, now, limits.ttl)
      ensures found.Err? <==> base !in requests && |requests| >= limits.maxRuns
      ensures found.Err? ==> found.error.status == 503
      ensures found.Ok? ==> found.value == if base in requests then Some(requests[base]) else None
    {
      Sweep(now);
      if base in requests {
        return Ok(Some(requests[base]));
      }
      if |requests| >= limits.maxRuns {
        return Err(Reply(503, Failure("vector run limit " + Decimal(limits.maxRuns) + " reached; reset completed runs")));
      }
      found := Ok(None);
    }

    method Touch(id: nat, now: int)
      requires Valid() && id < |runs|
      modifies this`runs
      ensures Valid() && runs == old(runs)[id := old(runs)[id].(updatedAt := now)]
    {
      TablePut(requests, runs, limits, id, runs[id].(updatedAt := now));
      runs := runs[id := runs[id].(updatedAt := now)];
    }

    /** `_requests`: what was recorded, with counts and positions as they were. */
    method Requests(base: Path, now: int) returns (reply: Reply)
      requires Valid()
      modifies this
      ensures Valid() && requests == Live(old(requests), old(runs), now, limits.ttl)
      ensures runs == if base in requests then old(runs)[requests[base] := old(runs)[requests[base]].(updatedAt := now)] else old(runs)
      ensures base in requests ==>
                var run := runs[requests[base]];
                && reply.status == 200 && reply.content.Recorded? && reply.content.paths == run.paths
                && reply.content.lanes.Keys == run.lanes.Keys
                && forall p :: p in run.lanes ==> Tells(reply.content.lanes[p], run.lanes[p])
      ensures base !in requests && |requests| >= limits.maxRuns ==> reply.status == 503
      ensures base !in requests && |requests| < limits.maxRuns ==> reply == Reply(200, Recorded([], map[]))
    {
      hide Tells;
      var found := Find(base, now);
      if found.Err? {
        return found.error;
      }
      if found.value.None? {
        return Reply(200, Recorded([], map[]));
      }
      var id := found.value.value;
      Touch(id, now);
      var lanes := TellLanes(runs[id]);
      reply := Reply(200, Recorded(runs[id].paths, lanes));
    }

    /** `_check`: nothing recorded changes, and it passes exactly when the vector's
        expectations are met. */
    method Verdict(base: Path, v: Vector, now: int) returns (reply: Reply)
      requires Valid()
      modifies this
      ensures Valid() && requests == Live(old(requests), old(runs), now, limits.ttl)
      ensures runs == if base in requests then old(runs)[requests[base] := old(runs)[requests[base]].(updatedAt := now)] else old(runs)
      ensures base !in requests && |requests| >= limits.maxRuns ==> reply.status == 503
      ensures base in requests || |requests| < limits.maxRuns ==>
                && reply.status == 200 && reply.content.Verdict?
                && (reply.content.ok <==> reply.content.diffs == [])
                && (reply.content.ok <==> Passes(v, if base in requests then Some(old(runs)[requests[base]]) else None))
    {
      var found := Find(base, now);
      if found.Err? {
        return found.error;
      }
      var diffs := Judge(v, if found.value.Some? then Some(runs[found.value.value]) else None);
      if found.value.Some? {
        Touch(found.value.value, now);
      }
      reply := Reply(200, Content.Verdict(diffs == [], diffs));
    }

    /** A request to be recorded, up to the point where its body is awaited. */
    method Arrive(base: Path, p: Path, v: Vector, record: Record, now: int) returns (r: Begun)
      requires Valid()
      modifies this
      ensures Valid()
      ensures var live := Live(old(requests), old(runs), now, limits.ttl);
              if base !in live && |live| >= limits.maxRuns then
                r.Answered? && r.reply.status == 503 && requests == live && runs == old(runs)
              else
                var id := if base in live then live[base] else |old(runs)|;
                var run := if base in live then old(runs)[id] else FreshRun(now);
                var (run', r') := Arrived(run.(updatedAt := now), id, p, v, record, limits.maxRequests);
                && r == r' && requests == live[base := id]
                && runs == if base in live then old(runs)[id := run'] else old(runs) + [run']
      ensures r.Awaiting? ==> Holds(runs, r.ticket)
    {
      var found := Find(base, now);
      if found.Err? {
        return Answered(found.error);
      }
      r := Place(base, p, v, record, now);
    }

    /** The run of `base`, created if need be, takes the request. */
    method Place(base: Path, p: Path, v: Vector, record: Record, now: int) returns (r: Begun)
      requires Valid() && (base in requests || |requests| < limits.maxRuns)
      modifies this
      ensures Valid()
      ensures var id := if base in old(requests) then old(requests)[base] else |old(runs)|;
              var run := if base in old(requests) then old(runs)[id] else FreshRun(now);
              var (run', r') := Arrived(run.(updatedAt := now), id, p, v, record, limits.maxRequests);
              r == r' && requests == old(requests)[base := id]
              && runs == if base in old(requests) then old(runs)[id := run'] else old(runs) + [run']
      ensures r.Awaiting? ==> Holds(runs, r.ticket)
    {
      if base in requests {
        var id := requests[base];
        var run := runs[id].(updatedAt := now);
        ArrivedValid(run, id, p, v, record, limits.maxRequests);
        hide RunValid, TableValid, Arrived, Reserved, Refused;
        run, r := Reserve(run, id, p, v, record, limits.maxRequests);
        TablePut(requests, runs, limits, id, run);
        runs := runs[id := run];
      } else {
        ArrivedValid(FreshRun(now), |runs|, p, v, record, limits.maxRequests);
        assert RunValid(FreshRun(now), limits.maxRequests);
        hide RunValid, TableValid, Arrived, Reserved, Refused;
        var run;
        run, r := Reserve(FreshRun(now), |runs|, p, v, record, limits.maxRequests);
        TableAdd(requests, runs, limits, base, run);
        requests, runs := requests[base := |runs|], runs + [run];
      }
    }

    /** The rest of the handler, once the body has been read or reading it has failed. */
    method Complete(t: Ticket, body: Body, fixture: Fixture) returns (reply: Reply)
      requires Valid() && Holds(runs, t)
      modifies this`runs
      ensures Valid()
      ensures var outcome := Conclude(t.vector, t.path, t.index + 1, body, fixture);
              && reply == outcome.reply
              && runs == old(runs)[t.run := Settle(old(runs)[t.run], t.path, t.index, body, outcome.fault)]
      ensures !Holds(runs, t)
    {
      var outcome := Conclude(t.vector, t.path, t.index + 1, body, fixture);
      SettleValid(runs[t.run], t.path, t.index, body, outcome.fault, limits.maxRequests);
      runs := runs[t.run := Settle(runs[t.run], t.path, t.index, body, outcome.fault)];
      reply := outcome.reply;
    }
  }
}
