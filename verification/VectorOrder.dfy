/** One run of the canned-vector server while request bodies complete in any order.

    The events of a run are arrivals, in order, and completions of accepted requests, in
    any order and interleaved with later arrivals.  What a run has recorded turns out to be
    a function of the arrivals and of the set of completed requests alone. */
module VectorOrder {
  import opened Options
  import opened VectorRun
  import opened VectorServer

  /** A request, with the body it will turn out to have. */
  datatype Arrival = Arrival(
    path: Path, verb: string, headers: map<string, string>, vector: Vector, body: Body, fixture: Fixture)

  datatype Event = Arrive(a: Arrival) | Complete(i: nat)

  /** `arrivals`, `done` and `replies` are the history: requests are numbered as they arrive. */
  datatype Progress = Progress(
    run: Run, tickets: seq<Ticket>, arrivals: seq<Arrival>, done: set<nat>, replies: map<nat, Reply>)

  function Start(): Progress {
    Progress(FreshRun(0), [], [], {}, map[])
  }

  function AsArrived(a: Arrival): Record {
    Record(a.verb, a.headers, [], true)
  }

  ghost predicate Enabled(s: Progress, e: Event) {
    match e
    case Arrive(_) => true
    case Complete(i) =>
      && i < |s.tickets| && i < |s.arrivals| && i !in s.done
      && Holds([s.run], s.tickets[i])
  }

  ghost function After(s: Progress, e: Event, max: int): Progress
    requires Enabled(s, e)
  {
    match e
    case Arrive(a) =>
      var (run, begun) := Arrived(s.run, 0, a.path, a.vector, AsArrived(a), max);
      var t := s.(run := run, arrivals := s.arrivals + [a]);
      (match begun
       case Answered(reply) => t.(replies := s.replies[|s.arrivals| := reply])
       case Awaiting(ticket) => t.(tickets := s.tickets + [ticket]))
    case Complete(i) =>
      var a, t := s.arrivals[i], s.tickets[i];
      var outcome := Conclude(t.vector, t.path, t.index + 1, a.body, a.fixture);
      s.(run := Settle(s.run, t.path, t.index, a.body, outcome.fault),
         done := s.done + {i},
         replies := s.replies[i := outcome.reply])
  }

  ghost function Exec(es: seq<Event>, max: int): Option<Progress> {
    if es == [] then Some(Start())
    else
      var before, e := Exec(es[..|es| - 1], max), es[|es| - 1];
      if before.Some? && Enabled(before.value, e) then Some(After(before.value, e, max)) else None
  }

  // ---- what the arrivals and the completed requests determine ----

  function Accepted(came: seq<Arrival>, max: int): seq<Arrival> {
    if |came| <= max then came else came[..AtLeastZero(max)]
  }

  /** The number of requests on `p`. */
  function Count(came: seq<Arrival>, p: Path): nat {
    if came == [] then 0
    else Count(came[..|came| - 1], p) + if came[|came| - 1].path == p then 1 else 0
  }

  /** The slot of request `i` on its path. */
  function Rank(came: seq<Arrival>, i: nat): nat
    requires i < |came|
  {
    Count(came[..i], came[i].path)
  }

  function Shown(a: Arrival, done: bool): Record {
    if done then Finished(AsArrived(a), a.body) else AsArrived(a)
  }

  function LaneOf(came: seq<Arrival>, done: set<nat>, p: Path): (lane: seq<Record>)
    ensures |lane| == Count(came, p)
  {
    if came == [] then []
    else
      var n := |came| - 1;
      LaneOf(came[..n], done, p) + if came[n].path == p then [Shown(came[n], n in done)] else []
  }

  function PathsOf(came: seq<Arrival>): seq<Path> {
    if came == [] then []
    else
      var paths, p := PathsOf(came[..|came| - 1]), came[|came| - 1].path;
      if p in paths then paths else paths + [p]
  }

  function OutcomeOf(came: seq<Arrival>, i: nat): Outcome
    requires i < |came|
  {
    Conclude(came[i].vector, came[i].path, Rank(came, i) + 1, came[i].body, came[i].fixture)
  }

  function TicketOf(came: seq<Arrival>, i: nat): Ticket
    requires i < |came|
  {
    Ticket(0, came[i].path, Rank(came, i), came[i].vector)
  }

  /** Paths, lanes and count of a run are those of the accepted requests. */
  ghost predicate RunDetermined(run: Run, came: seq<Arrival>, done: set<nat>) {
    && run.count == |came|
    && run.paths == PathsOf(came)
    && (forall p :: p in run.lanes <==> p in run.paths)
    && (forall p :: run.Lane(p) == LaneOf(came, done, p))
  }

  ghost predicate TicketsDetermined(tickets: seq<Ticket>, came: seq<Arrival>) {
    |tickets| == |came| && forall i :: 0 <= i < |came| ==> tickets[i] == TicketOf(came, i)
  }

  /** Completed requests have the reply of their slot and body; those past the limit, a
      refusal. */
  ghost predicate RepliesDetermined(replies: map<nat, Reply>, came: seq<Arrival>, done: set<nat>, total: nat) {
    && (forall i :: i in replies <==> i in done || |came| <= i < total)
    && (forall i :: i in done ==> i < |came| && replies[i] == OutcomeOf(came, i).reply)
    && (forall i :: |came| <= i < total ==> replies[i].status == 429 && replies[i].content.Failure?)
  }

  ghost predicate Determined(s: Progress, max: int) {
    var came := Accepted(s.arrivals, max);
    && RunDetermined(s.run, came, s.done)
    && TicketsDetermined(s.tickets, came)
    && RepliesDetermined(s.replies, came, s.done, |s.arrivals|)
  }

  /** The run carries an error exactly if a completed request failed with a text, or a
      request was refused. */
  ghost predicate Blamed(s: Progress, max: int) {
    var came := Accepted(s.arrivals, max);
    s.run.error != "" <==> |came| < |s.arrivals| || exists i :: Faulty(came, s.done, i)
  }

  ghost predicate Faulty(came: seq<Arrival>, done: set<nat>, i: nat) {
    i < |came| && i in done && OutcomeOf(came, i).fault != ""
  }

  // ---- one more arrival, one more completion ----

  lemma RankBelow(came: seq<Arrival>, a: Arrival, i: nat)
    requires i < |came|
    ensures Rank(came + [a], i) == Rank(came, i)
    ensures OutcomeOf(came + [a], i) == OutcomeOf(came, i) && TicketOf(came + [a], i) == TicketOf(came, i)
  {
    assert (came + [a])[..i] == came[..i];
  }

  lemma LaneArrive(came: seq<Arrival>, a: Arrival, done: set<nat>, p: Path)
    requires |came| !in done
    ensures LaneOf(came + [a], done, p) == LaneOf(came, done, p) + if a.path == p then [AsArrived(a)] else []
  {
    assert (came + [a])[..|came|] == came;
  }

  lemma {:induction false} RankFits(came: seq<Arrival>, i: nat)
    requires i < |came|
    ensures Rank(came, i) < Count(came, came[i].path)
  {
    var n := |came| - 1;
    if i < n {
      RankFits(came[..n], i);
      assert came[..n][..i] == came[..i];
    }
  }

  /** Completing request `i` changes its slot, and nothing else. */
  lemma {:induction false} LaneDone(came: seq<Arrival>, done: set<nat>, i: nat)
    requires i < |came|
    ensures Rank(came, i) < Count(came, came[i].path)
    ensures LaneOf(came, done + {i}, came[i].path) ==
            LaneOf(came, done, came[i].path)[Rank(came, i) := Shown(came[i], true)]
  {
    RankFits(came, i);
    var n := |came| - 1;
    var p := came[i].path;
    if i < n {
      LaneDone(came[..n], done, i);
      assert came[..n][..i] == came[..i];
      assert n in done + {i} <==> n in done;
    } else {
      LaneSame(came[..n], done, done + {i}, p);
    }
  }

  lemma {:induction false} LaneElsewhere(came: seq<Arrival>, done: set<nat>, i: nat, p: Path)
    requires i < |came| && came[i].path != p
    ensures LaneOf(came, done + {i}, p) == LaneOf(came, done, p)
  {
    var n := |came| - 1;
    if i < n {
      LaneElsewhere(came[..n], done, i, p);
    } else {
      LaneSame(came[..n], done, done + {i}, p);
    }
  }

  lemma {:induction false} LaneSame(came: seq<Arrival>, done: set<nat>, done': set<nat>, p: Path)
    requires forall i :: 0 <= i < |came| ==> (i in done <==> i in done')
    ensures LaneOf(came, done, p) == LaneOf(came, done', p)
  {
    if came == [] {
    } else {
      LaneSame(came[..|came| - 1], done, done', p);
    }
  }

  /** Each accepted request sits in its slot. */
  lemma {:induction false} LaneAt(came: seq<Arrival>, done: set<nat>, i: nat)
    requires i < |came|
    ensures Rank(came, i) < Count(came, came[i].path)
    ensures LaneOf(came, done, came[i].path)[Rank(came, i)] == Shown(came[i], i in done)
  {
    RankFits(came, i);
    var n := |came| - 1;
    if i < n {
      LaneAt(came[..n], done, i);
      assert came[..n][..i] == came[..i];
    }
  }

  lemma AdmitDetermined(run: Run, came: seq<Arrival>, done: set<nat>, a: Arrival)
    requires RunDetermined(run, came, done) && |came| !in done
    ensures RunDetermined(Admit(run, a.path, AsArrived(a)), came + [a], done)
  {
    var run' := Admit(run, a.path, AsArrived(a));
    assert (came + [a])[..|came|] == came;
    forall p ensures run'.Lane(p) == LaneOf(came + [a], done, p) {
      LaneArrive(came, a, done, p);
    }
  }

  lemma SettleDetermined(run: Run, came: seq<Arrival>, done: set<nat>, i: nat, fault: string)
    requires RunDetermined(run, came, done) && i < |came| && i !in done
    ensures Rank(came, i) < |run.Lane(came[i].path)|
    ensures RunDetermined(Settle(run, came[i].path, Rank(came, i), came[i].body, fault), came, done + {i})
  {
    var q := came[i].path;
    LaneAt(came, done, i);
    assert run.Lane(q) == LaneOf(came, done, q);
    var run' := Settle(run, q, Rank(came, i), came[i].body, fault);
    forall p ensures run'.Lane(p) == LaneOf(came, done + {i}, p) {
      if p == q {
        LaneDone(came, done, i);
      } else {
        LaneElsewhere(came, done, i, p);
        assert run'.Lane(p) == run.Lane(p);
      }
    }
  }

  lemma TicketsArrive(tickets: seq<Ticket>, came: seq<Arrival>, a: Arrival)
    requires TicketsDetermined(tickets, came)
    ensures TicketsDetermined(tickets + [Ticket(0, a.path, Count(came, a.path), a.vector)], came + [a])
  {
    assert (came + [a])[..|came|] == came;
    forall i | 0 <= i < |came| ensures TicketOf(came + [a], i) == TicketOf(came, i) {
      RankBelow(came, a, i);
    }
  }

  lemma RepliesArrive(replies: map<nat, Reply>, came: seq<Arrival>, done: set<nat>, a: Arrival)
    requires RepliesDetermined(replies, came, done, |came|)
    ensures RepliesDetermined(replies, came + [a], done, |came| + 1)
  {
    forall i | i in done ensures OutcomeOf(came + [a], i) == OutcomeOf(came, i) {
      RankBelow(came, a, i);
    }
  }

  lemma AcceptStep(s: Progress, a: Arrival, max: int)
    requires Determined(s, max) && s.run.count < max
    ensures Determined(After(s, Arrive(a), max), max)
  {
    var came := s.arrivals;
    assert Accepted(came, max) == came && Accepted(came + [a], max) == came + [a];
    assert s.run.Lane(a.path) == LaneOf(came, s.done, a.path);
    AdmitDetermined(s.run, came, s.done, a);
    TicketsArrive(s.tickets, came, a);
    RepliesArrive(s.replies, came, s.done, a);
    hide RunDetermined, TicketsDetermined, RepliesDetermined, LaneOf, Count;
    assert After(s, Arrive(a), max).arrivals == came + [a];
  }

  lemma RefuseStep(s: Progress, a: Arrival, max: int)
    requires Determined(s, max) && s.run.count >= max
    ensures Determined(After(s, Arrive(a), max), max)
  {
    var came := Accepted(s.arrivals, max);
    assert s.run.count == |came|;
    AcceptedFull(s.arrivals, a, max);
    var full := s.run.Blame(LimitText(max));
    RepliesRefuse(s.replies, came, s.done, |s.arrivals|, full.error);
    BlameDetermined(s.run, came, s.done, LimitText(max));
    hide RunDetermined, TicketsDetermined, RepliesDetermined, LaneOf, Count, OutcomeOf, LimitText, Accepted;
  }

  lemma BlameDetermined(run: Run, came: seq<Arrival>, done: set<nat>, text: string)
    requires RunDetermined(run, came, done)
    ensures RunDetermined(run.Blame(text), came, done)
  {
    forall p ensures run.Blame(text).Lane(p) == run.Lane(p) {
    }
  }

  lemma RepliesRefuse(replies: map<nat, Reply>, came: seq<Arrival>, done: set<nat>, total: nat, text: string)
    requires RepliesDetermined(replies, came, done, total) && |came| <= total
    ensures RepliesDetermined(replies[total := Reply(429, Failure(text))], came, done, total + 1)
  {
    hide OutcomeOf;
  }

  lemma AcceptedFull(came: seq<Arrival>, a: Arrival, max: int)
    requires |Accepted(came, max)| >= max
    ensures Accepted(came + [a], max) == Accepted(came, max)
  {
    var n := |Accepted(came, max)|;
    assert (came + [a])[..n] == came[..n];
  }

  lemma RepliesComplete(replies: map<nat, Reply>, came: seq<Arrival>, done: set<nat>, total: nat, i: nat)
    requires RepliesDetermined(replies, came, done, total) && i < |came|
    ensures RepliesDetermined(replies[i := OutcomeOf(came, i).reply], came, done + {i}, total)
  {
    hide OutcomeOf;
  }

  lemma CompleteIs(s: Progress, i: nat, max: int)
    requires Determined(s, max) && Enabled(s, Complete(i))
    ensures var came := Accepted(s.arrivals, max);
            && i < |came| && Rank(came, i) < |s.run.Lane(came[i].path)|
            && After(s, Complete(i), max) == s.(
                 run := Settle(s.run, came[i].path, Rank(came, i), came[i].body, OutcomeOf(came, i).fault),
                 done := s.done + {i},
                 replies := s.replies[i := OutcomeOf(came, i).reply])
  {
    var came := Accepted(s.arrivals, max);
    assert came[i] == s.arrivals[i] && s.tickets[i] == TicketOf(came, i);
    hide Determined, Conclude, Settle, Count;
  }

  lemma CompleteStep(s: Progress, i: nat, max: int)
    requires Determined(s, max) && Enabled(s, Complete(i))
    ensures Determined(After(s, Complete(i), max), max)
  {
    var came := Accepted(s.arrivals, max);
    CompleteIs(s, i, max);
    assert i !in s.done;
    hide RunDetermined, TicketsDetermined, RepliesDetermined, Settle, After, Enabled, OutcomeOf, LaneOf, Count;
    SettleDetermined(s.run, came, s.done, i, OutcomeOf(came, i).fault);
    RepliesComplete(s.replies, came, s.done, |s.arrivals|, i);
  }

  lemma BlamedComplete(s: Progress, i: nat, max: int)
    requires Determined(s, max) && Blamed(s, max) && Enabled(s, Complete(i))
    ensures Blamed(After(s, Complete(i), max), max)
  {
    var came := Accepted(s.arrivals, max);
    CompleteIs(s, i, max);
    hide Determined, After, Enabled, OutcomeOf;
    if OutcomeOf(came, i).fault != "" {
      assert Faulty(came, s.done + {i}, i);
    } else if exists j :: Faulty(came, s.done, j) {
      var j :| Faulty(came, s.done, j);
      assert Faulty(came, s.done + {i}, j);
    } else {
      forall j: nat ensures !Faulty(came, s.done + {i}, j) {
        assert !Faulty(came, s.done, j);
      }
    }
  }

  lemma BlamedArrive(s: Progress, a: Arrival, max: int)
    requires Determined(s, max) && Blamed(s, max)
    ensures Blamed(After(s, Arrive(a), max), max)
  {
    var t := After(s, Arrive(a), max);
    var came, came' := Accepted(s.arrivals, max), Accepted(t.arrivals, max);
    if s.run.count < max {
      assert came == s.arrivals && came' == came + [a];
      forall j: nat ensures Faulty(came', t.done, j) <==> Faulty(came, s.done, j) {
        if j < |came| {
          RankBelow(came, a, j);
        }
      }
    } else {
      assert came' == came;
    }
  }

  lemma {:induction false} DeterminedHolds(es: seq<Event>, max: int)
    requires Exec(es, max).Some?
    ensures Determined(Exec(es, max).value, max) && Blamed(Exec(es, max).value, max)
  {
    if es == [] {
    } else {
      var n := |es| - 1;
      DeterminedHolds(es[..n], max);
      var s := Exec(es[..n], max).value;
      hide Determined, Blamed, After, Enabled;
      match es[n]
      case Complete(i) =>
        CompleteStep(s, i, max);
        BlamedComplete(s, i, max);
      case Arrive(a) =>
        BlamedArrive(s, a, max);
        if s.run.count < max {
          AcceptStep(s, a, max);
        } else {
          RefuseStep(s, a, max);
        }
    }
  }

  // ---- the order of completions does not show ----

  /** The same requests have arrived, and the same of them are complete. */
  ghost predicate SameHistory(es: seq<Event>, es': seq<Event>, max: int) {
    && Exec(es, max).Some? && Exec(es', max).Some?
    && Exec(es, max).value.arrivals == Exec(es', max).value.arrivals
    && Exec(es, max).value.done == Exec(es', max).value.done
  }

  /** Whatever the order: the same records in the same order, the same reply to every
      accepted request, a refusal to the same others, and the same verdict. */
  lemma OrderIsInvisible(es: seq<Event>, es': seq<Event>, max: int, v: Vector)
    requires SameHistory(es, es', max)
    ensures var s, t := Exec(es, max).value, Exec(es', max).value;
            && s.run.paths == t.run.paths && s.run.lanes == t.run.lanes && s.run.count == t.run.count
            && s.replies.Keys == t.replies.Keys
            && (forall i :: i in s.replies ==> s.replies[i].status == t.replies[i].status)
            && (forall i :: i in s.done && i in s.replies ==> s.replies[i] == t.replies[i])
            && (Passes(v, Some(s.run)) <==> Passes(v, Some(t.run)))
  {
    DeterminedHolds(es, max);
    DeterminedHolds(es', max);
    var s, t := Exec(es, max).value, Exec(es', max).value;
    SameRun(s.run, t.run, Accepted(s.arrivals, max), s.done);
    hide RunDetermined, TicketsDetermined, Exec, HeaderMet, FormMet;
  }

  lemma SameRun(run: Run, run': Run, came: seq<Arrival>, done: set<nat>)
    requires RunDetermined(run, came, done) && RunDetermined(run', came, done)
    ensures run.paths == run'.paths && run.lanes == run'.lanes && run.count == run'.count
  {
    forall p | p in run.lanes ensures run.lanes[p] == run'.lanes[p] {
      assert run.Lane(p) == run'.Lane(p);
    }
  }

  /** `_check` passes only if every request was accepted, is complete and succeeded. */
  lemma PassMeansDone(es: seq<Event>, max: int, v: Vector, i: nat)
    requires Exec(es, max).Some? && Passes(v, Some(Exec(es, max).value.run))
    requires i < |Exec(es, max).value.arrivals|
    ensures var s := Exec(es, max).value;
            && |s.arrivals| <= AtLeastZero(max) && i in s.done
            && OutcomeOf(s.arrivals, i).fault == ""
  {
    DeterminedHolds(es, max);
    var s := Exec(es, max).value;
    var came := Accepted(s.arrivals, max);
    assert came == s.arrivals;
    LaneAt(came, s.done, i);
    var p := came[i].path;
    assert s.run.Lane(p)[Rank(came, i)] in s.run.lanes[p];
    assert !Faulty(came, s.done, i);
  }

  /** Requests on one path have slots in the order of their arrival, none of them shared. */
  lemma {:induction false} SlotsRise(came: seq<Arrival>, i: nat, j: nat)
    requires i < j < |came| && came[i].path == came[j].path
    ensures Rank(came, i) < Rank(came, j)
  {
    RankFits(came[..j], i);
    assert came[..j][..i] == came[..i];
  }

  // ---- answers ----

  /** A canned response is what is answered: its status, 200 by default, and its fixture if it
      names one; or the error of reading that. */
  ghost predicate Serves(reply: Reply, resp: Response, fixture: Fixture) {
    var status := if resp.status.Some? then resp.status.value else 200;
    if resp.fixture.None? then reply == Reply(status, Nothing)
    else
      match fixture
      case Payload(text) => reply == Reply(status, if text == "" then Nothing else Content.Payload(text))
      case Missing(text) => reply == Reply(404, Failure(text))
      case Unreadable(text) => reply == Reply(500, Failure(text))
  }

  /** The arrival order alone picks the answer: a request that arrives after `n` others on its
      path gets entry `n` of the sequence, or the last one, whenever its body completes. */
  lemma AnswerByArrival(es: seq<Event>, max: int, i: nat)
    requires Exec(es, max).Some? && i in Exec(es, max).value.done && i < |Exec(es, max).value.arrivals|
    requires var a := Exec(es, max).value.arrivals[i];
             a.body.Read? && a.path in a.vector.sequences && a.vector.sequences[a.path] != []
    ensures var s := Exec(es, max).value;
            var a, n := s.arrivals[i], Count(s.arrivals[..i], s.arrivals[i].path);
            var q := a.vector.sequences[a.path];
            i in s.replies && Serves(s.replies[i], q[if n < |q| then n else |q| - 1], a.fixture)
  {
    hide Exec, Count;
    ReplyOfDone(es, max, i);
  }

  /** A path without a sequence has one answer, at every position and in every order. */
  lemma AnswerByPath(es: seq<Event>, max: int, i: nat)
    requires Exec(es, max).Some? && i in Exec(es, max).value.done && i < |Exec(es, max).value.arrivals|
    requires var a := Exec(es, max).value.arrivals[i];
             a.body.Read? && a.path !in a.vector.sequences && a.path in a.vector.http
    ensures var s := Exec(es, max).value;
            var a := s.arrivals[i];
            i in s.replies && Serves(s.replies[i], a.vector.http[a.path], a.fixture)
  {
    hide Exec, Count;
    ReplyOfDone(es, max, i);
  }

  /** The vector has no answer for the path: it is in neither map, or its sequence is empty. */
  ghost predicate Unanswered(a: Arrival) {
    if a.path in a.vector.sequences then a.vector.sequences[a.path] == [] else a.path !in a.vector.http
  }

  /** A request that cannot be answered gets an error of its own: no answer, or no body. */
  lemma AnswerOfFailure(es: seq<Event>, max: int, i: nat)
    requires Exec(es, max).Some? && i in Exec(es, max).value.done && i < |Exec(es, max).value.arrivals|
    ensures var s := Exec(es, max).value;
            var a := s.arrivals[i];
            && i in s.replies
            && (a.body.Read? && Unanswered(a) ==> s.replies[i] == Reply(404, Nothing))
            && (a.body.TooLarge? ==> s.replies[i] == Reply(413, Failure(a.body.text)))
            && (a.body.Broken? ==> s.replies[i] == Reply(400, Failure(a.body.text)))
  {
    hide Exec, Count;
    ReplyOfDone(es, max, i);
  }

  // ---- faults ----

  ghost function FixtureFault(resp: Response, fixture: Fixture): string {
    if resp.fixture.None? || fixture.Payload? then "" else fixture.text
  }

  /** What the run is blamed with by a request that came after `n` others on its path; empty
      if by nothing. */
  ghost function FaultText(a: Arrival, n: nat): string {
    if !a.body.Read? then a.body.text
    else if Unanswered(a) then "no canned response for " + a.path.text
    else if a.path in a.vector.sequences then
      var q := a.vector.sequences[a.path];
      FixtureFault(q[if n < |q| then n else |q| - 1], a.fixture)
    else FixtureFault(a.vector.http[a.path], a.fixture)
  }

  lemma FaultIs(came: seq<Arrival>, i: nat)
    requires i < |came|
    ensures OutcomeOf(came, i).fault == FaultText(came[i], Count(came[..i], came[i].path))
  {
    hide Count;
  }

  /** The first fault stays the run's error; it is that of the request which completes. */
  lemma FirstFaultStays(es: seq<Event>, max: int, i: nat)
    requires Exec(es, max).Some? && Enabled(Exec(es, max).value, Complete(i))
    ensures var s := Exec(es, max).value;
            i < |s.arrivals| &&
            After(s, Complete(i), max).run.error ==
            if s.run.error != "" then s.run.error else FaultText(s.arrivals[i], Count(s.arrivals[..i], s.arrivals[i].path))
  {
    DeterminedHolds(es, max);
    var s := Exec(es, max).value;
    CompleteIs(s, i, max);
    var came := Accepted(s.arrivals, max);
    FaultIs(came, i);
    assert came[..i] == s.arrivals[..i] && came[i] == s.arrivals[i];
    hide Exec, Count, Determined, OutcomeOf, FaultText, Enabled, After;
  }

  // ---- the verdict, by arrivals ----

  /** Every request was accepted, is complete and was answered without a fault. */
  ghost predicate AllAnswered(arrivals: seq<Arrival>, done: set<nat>, max: int) {
    && |arrivals| <= AtLeastZero(max)
    && forall i :: 0 <= i < |arrivals| ==>
         i in done && FaultText(arrivals[i], Count(arrivals[..i], arrivals[i].path)) == ""
  }

  /** There was a request on the wanted path, and all of them were as wanted. */
  ghost predicate AllWanted(arrivals: seq<Arrival>, want: Want) {
    && (exists i :: 0 <= i < |arrivals| && arrivals[i].path == want.path)
    && forall i :: 0 <= i < |arrivals| && arrivals[i].path == want.path ==>
         && arrivals[i].verb == want.verb
         && (forall h :: h in want.headers ==> HeaderMet(h, arrivals[i].headers))
         && (forall f :: f in want.form ==> FormMet(f, if arrivals[i].body.Read? then arrivals[i].body.form else []))
  }

  lemma {:induction false} LaneComes(came: seq<Arrival>, done: set<nat>, p: Path, r: Record) returns (i: nat)
    requires r in LaneOf(came, done, p)
    ensures i < |came| && came[i].path == p && r == Shown(came[i], i in done)
  {
    var n := |came| - 1;
    if r in LaneOf(came[..n], done, p) {
      i := LaneComes(came[..n], done, p, r);
    } else {
      i := n;
    }
  }

  lemma LaneHas(came: seq<Arrival>, done: set<nat>, i: nat)
    requires i < |came|
    ensures Shown(came[i], i in done) in LaneOf(came, done, came[i].path)
  {
    LaneAt(came, done, i);
  }

  /** On a run where all is answered, the wanted requests are those on the wanted lane. */
  lemma WantedIsLane(came: seq<Arrival>, done: set<nat>, want: Want)
    requires forall i :: 0 <= i < |came| ==> i in done
    ensures AllWanted(came, want) <==>
              && LaneOf(came, done, want.path) != []
              && forall r :: r in LaneOf(came, done, want.path) ==> RequestMet(want, r)
  {
    var lane := LaneOf(came, done, want.path);
    hide HeaderMet, FormMet, LaneOf;
    forall i | 0 <= i < |came| && came[i].path == want.path ensures Shown(came[i], true) in lane {
      LaneHas(came, done, i);
    }
    forall r | r in lane
      ensures exists i :: 0 <= i < |came| && came[i].path == want.path && r == Shown(came[i], true)
    {
      var i := LaneComes(came, done, want.path, r);
    }
    if lane != [] {
      assert lane[0] in lane;
    }
  }

  /** `_check` passes exactly if every request was accepted, is complete and was answered
      without a fault, as many came on each path as expected, and those on the wanted path,
      one at least, were as wanted. */
  lemma VerdictByArrival(es: seq<Event>, max: int, v: Vector)
    requires Exec(es, max).Some?
    ensures var s := Exec(es, max).value;
            Passes(v, Some(s.run)) <==>
              && AllAnswered(s.arrivals, s.done, max)
              && (v.expectCalls.Some? ==> forall c :: c in v.expectCalls.value ==> Count(s.arrivals, c.0) == c.1)
              && (v.expectRequest.Some? ==> AllWanted(s.arrivals, v.expectRequest.value))
  {
    DeterminedHolds(es, max);
    var s := Exec(es, max).value;
    var came := Accepted(s.arrivals, max);
    hide Exec;
    AnsweredMeans(s, max);
    if AllAnswered(s.arrivals, s.done, max) {
      assert came == s.arrivals;
      forall p ensures |s.run.Lane(p)| == Count(came, p) {
        assert s.run.Lane(p) == LaneOf(came, s.done, p);
      }
      if v.expectRequest.Some? {
        assert s.run.Lane(v.expectRequest.value.path) == LaneOf(came, s.done, v.expectRequest.value.path);
        WantedIsLane(came, s.done, v.expectRequest.value);
      }
    }
    hide AllAnswered, AllWanted, RequestMet, RunDetermined, TicketsDetermined, RepliesDetermined, Count, Blamed;
  }

  /** No error and nothing pending is the same as all answered. */
  lemma AnsweredMeans(s: Progress, max: int)
    requires Determined(s, max) && Blamed(s, max)
    ensures AllAnswered(s.arrivals, s.done, max) <==>
              s.run.error == "" && forall p, r :: p in s.run.lanes && r in s.run.lanes[p] ==> !r.pending
  {
    var came := Accepted(s.arrivals, max);
    if s.run.error == "" && forall p, r :: p in s.run.lanes && r in s.run.lanes[p] ==> !r.pending {
      assert came == s.arrivals;
      forall i | 0 <= i < |came| ensures i in s.done && FaultText(came[i], Count(came[..i], came[i].path)) == "" {
        LaneHas(came, s.done, i);
        assert s.run.Lane(came[i].path) == LaneOf(came, s.done, came[i].path);
        assert !Faulty(came, s.done, i);
        FaultIs(came, i);
      }
    }
    if AllAnswered(s.arrivals, s.done, max) {
      assert came == s.arrivals;
      forall i: nat ensures !Faulty(came, s.done, i) {
        if i < |came| {
          FaultIs(came, i);
        }
      }
      forall p, r | p in s.run.lanes && r in s.run.lanes[p] ensures !r.pending {
        assert s.run.Lane(p) == LaneOf(came, s.done, p);
        var i := LaneComes(came, s.done, p, r);
      }
    }
  }

  // ---- what is recorded ----

  /** Every accepted request has its record, in its slot: method and headers from the start,
      and once it is complete the form of its body, if that could be read. */
  lemma RecordByArrival(es: seq<Event>, max: int, i: nat)
    requires Exec(es, max).Some? && i < |Exec(es, max).value.arrivals| && i < max
    ensures var s := Exec(es, max).value;
            var a, n := s.arrivals[i], Count(s.arrivals[..i], s.arrivals[i].path);
            && a.path in s.run.lanes && n < |s.run.lanes[a.path]|
            && s.run.lanes[a.path][n] ==
               Record(a.verb, a.headers, if i in s.done && a.body.Read? then a.body.form else [], i !in s.done)
  {
    DeterminedHolds(es, max);
    var s := Exec(es, max).value;
    var came := Accepted(s.arrivals, max);
    LaneAt(came, s.done, i);
    assert came[..i] == s.arrivals[..i] && came[i] == s.arrivals[i];
    assert s.run.Lane(came[i].path) == LaneOf(came, s.done, came[i].path);
    hide Exec, Count, LaneOf, TicketsDetermined, RepliesDetermined, Blamed;
  }

  lemma OutcomeAccepted(arrivals: seq<Arrival>, max: int, i: nat)
    requires i < |Accepted(arrivals, max)|
    ensures OutcomeOf(Accepted(arrivals, max), i) == OutcomeOf(arrivals, i)
  {
    assert Accepted(arrivals, max)[..i] == arrivals[..i];
  }

  lemma ReplyOfDone(es: seq<Event>, max: int, i: nat)
    requires Exec(es, max).Some? && i in Exec(es, max).value.done && i < |Exec(es, max).value.arrivals|
    ensures var s := Exec(es, max).value; i in s.replies && s.replies[i] == OutcomeOf(s.arrivals, i).reply
  {
    hide RunDetermined, TicketsDetermined, Blamed, Exec, OutcomeOf, Accepted;
    DeterminedHolds(es, max);
    OutcomeAccepted(Exec(es, max).value.arrivals, max, i);
  }

  // ---- the text of an error does depend on the order ----

  /** A text that some order of the same history leaves in the run. */
  ghost predicate MayBlame(s: Progress, max: int, text: string) {
    var came := Accepted(s.arrivals, max);
    || (|came| < |s.arrivals| && text == LimitText(max))
    || exists i :: Faulty(came, s.done, i) && text == OutcomeOf(came, i).fault
  }

  /** The run carries such a text if there is any, and every refusal repeats it. */
  ghost predicate OneText(s: Progress, max: int) {
    && (s.run.error != "" ==> MayBlame(s, max, s.run.error))
    && forall n :: |Accepted(s.arrivals, max)| <= n < |s.arrivals| && n in s.replies ==>
         s.run.error != "" && s.replies[n] == Reply(429, Failure(s.run.error))
  }

  lemma MayBlameArrive(s: Progress, a: Arrival, max: int, text: string)
    requires Determined(s, max) && MayBlame(s, max, text)
    ensures MayBlame(After(s, Arrive(a), max), max, text)
  {
    var t := After(s, Arrive(a), max);
    var came := Accepted(s.arrivals, max);
    if !(|came| < |s.arrivals| && text == LimitText(max)) {
      var i :| Faulty(came, s.done, i) && text == OutcomeOf(came, i).fault;
      if s.run.count < max {
        assert came == s.arrivals && Accepted(t.arrivals, max) == came + [a];
        RankBelow(came, a, i);
        assert Faulty(came + [a], t.done, i);
      } else {
        assert Accepted(t.arrivals, max) == came;
        assert Faulty(came, t.done, i);
      }
    } else {
      assert Accepted(t.arrivals, max) == came;
    }
  }

  lemma OneTextArrive(s: Progress, a: Arrival, max: int)
    requires Determined(s, max) && OneText(s, max)
    ensures OneText(After(s, Arrive(a), max), max)
  {
    if s.run.error != "" {
      MayBlameArrive(s, a, max, s.run.error);
    }
    var t := After(s, Arrive(a), max);
    assert s.run.count < max ==> Accepted(t.arrivals, max) == t.arrivals;
    assert s.run.count >= max ==> Accepted(t.arrivals, max) == Accepted(s.arrivals, max);
    hide Determined, MayBlame, Admit;
    assert LimitText(max)[0] == 'r';
  }

  lemma OneTextComplete(s: Progress, i: nat, max: int)
    requires Determined(s, max) && OneText(s, max) && Enabled(s, Complete(i))
    ensures OneText(After(s, Complete(i), max), max)
  {
    var came := Accepted(s.arrivals, max);
    CompleteIs(s, i, max);
    var t := After(s, Complete(i), max);
    if s.run.error == "" {
      assert t.run.error != "" ==> Faulty(came, t.done, i);
    } else if !(|came| < |s.arrivals| && s.run.error == LimitText(max)) {
      var j :| Faulty(came, s.done, j) && s.run.error == OutcomeOf(came, j).fault;
      assert Faulty(came, t.done, j);
    }
  }

  lemma {:induction false} OneTextHolds(es: seq<Event>, max: int)
    requires Exec(es, max).Some?
    ensures OneText(Exec(es, max).value, max)
  {
    if es == [] {
    } else {
      var n := |es| - 1;
      OneTextHolds(es[..n], max);
      DeterminedHolds(es[..n], max);
      hide OneText, Determined, Enabled, After, Blamed;
      match es[n]
      case Complete(i) => OneTextComplete(Exec(es[..n], max).value, i, max);
      case Arrive(a) => OneTextArrive(Exec(es[..n], max).value, a, max);
    }
  }

  // ---- every candidate text wins in some order ----

  lemma ExecMore(es: seq<Event>, e: Event, max: int)
    requires Exec(es, max).Some? && Enabled(Exec(es, max).value, e)
    ensures Exec(es + [e], max) == Some(After(Exec(es, max).value, e, max))
  {
    assert (es + [e])[..|es|] == es;
  }

  ghost predicate Continues(s: Progress, t: Progress, more: seq<Arrival>, rest: set<nat>) {
    t.arrivals == s.arrivals + more && t.done == s.done + rest && (s.run.error != "" ==> t.run.error == s.run.error)
  }

  lemma ArriveOne(es: seq<Event>, a: Arrival, max: int)
    requires Exec(es, max).Some?
    ensures Exec(es + [Arrive(a)], max).Some?
    ensures Continues(Exec(es, max).value, Exec(es + [Arrive(a)], max).value, [a], {})
  {
    ExecMore(es, Arrive(a), max);
  }

  /** More requests arrive; an error already there stays. */
  lemma {:induction false} ArriveAll(es: seq<Event>, more: seq<Arrival>, max: int) returns (es': seq<Event>)
    requires Exec(es, max).Some?
    ensures Exec(es', max).Some? && Continues(Exec(es, max).value, Exec(es', max).value, more, {})
    decreases |more|
  {
    hide Exec;
    if more == [] {
      return es;
    }
    ArriveOne(es, more[0], max);
    es' := ArriveAll(es + [Arrive(more[0])], more[1..], max);
    assert more == [more[0]] + more[1..];
  }

  lemma CanComplete(es: seq<Event>, i: nat, max: int)
    requires Exec(es, max).Some?
    requires var s := Exec(es, max).value; i < |Accepted(s.arrivals, max)| && i !in s.done
    ensures Enabled(Exec(es, max).value, Complete(i))
  {
    DeterminedHolds(es, max);
    var s := Exec(es, max).value;
    LaneAt(Accepted(s.arrivals, max), s.done, i);
  }

  lemma CompleteOne(es: seq<Event>, i: nat, max: int)
    requires Exec(es, max).Some?
    requires var s := Exec(es, max).value; i < |Accepted(s.arrivals, max)| && i !in s.done
    ensures Exec(es + [Complete(i)], max).Some?
    ensures Continues(Exec(es, max).value, Exec(es + [Complete(i)], max).value, [], {i})
  {
    CanComplete(es, i, max);
    ExecMore(es, Complete(i), max);
  }

  /** The requests of `rest` complete; an error already there stays. */
  lemma {:induction false} CompleteAll(es: seq<Event>, rest: set<nat>, max: int) returns (es': seq<Event>)
    requires Exec(es, max).Some?
    requires var s := Exec(es, max).value; forall i :: i in rest ==> i < |Accepted(s.arrivals, max)| && i !in s.done
    ensures Exec(es', max).Some? && Continues(Exec(es, max).value, Exec(es', max).value, [], rest)
    decreases |rest|
  {
    hide Exec;
    if rest == {} {
      return es;
    }
    var i :| i in rest;
    CompleteOne(es, i, max);
    es' := CompleteAll(es + [Complete(i)], rest - {i}, max);
    assert Exec(es, max).value.done + {i} + (rest - {i}) == Exec(es, max).value.done + rest;
  }

  /** All accepted requests arrive and none completes, so there is no error yet. */
  lemma ArriveAccepted(came: seq<Arrival>, max: int) returns (es: seq<Event>)
    requires Accepted(came, max) == came
    ensures Exec(es, max).Some?
    ensures var t := Exec(es, max).value;
            t.arrivals == came && t.done == {} && t.run.error == "" && t.run.count == |came| && Determined(t, max)
  {
    es := ArriveAll([], came, max);
    DeterminedHolds(es, max);
  }

  lemma FirstRefusal(es: seq<Event>, a: Arrival, max: int)
    requires Exec(es, max).Some?
    requires var s := Exec(es, max).value; s.run.count >= max && s.run.error == ""
    ensures Exec(es + [Arrive(a)], max).Some?
    ensures var s, t := Exec(es, max).value, Exec(es + [Arrive(a)], max).value;
            t.arrivals == s.arrivals + [a] && t.done == s.done && t.run.error == LimitText(max)
    ensures LimitText(max) != ""
  {
    ExecMore(es, Arrive(a), max);
    assert LimitText(max)[0] == 'r';
  }

  lemma DoneAccepted(es: seq<Event>, max: int)
    requires Exec(es, max).Some?
    ensures var s := Exec(es, max).value; forall i :: i in s.done ==> i < |Accepted(s.arrivals, max)|
  {
    DeterminedHolds(es, max);
  }

  lemma LimitMayWin(es: seq<Event>, max: int) returns (es': seq<Event>)
    requires Exec(es, max).Some?
    requires var s := Exec(es, max).value; |Accepted(s.arrivals, max)| < |s.arrivals|
    ensures SameHistory(es, es', max)
    ensures Exec(es', max).value.run.error == LimitText(max)
  {
    hide Exec, Determined, Blamed, LimitText;
    var s := Exec(es, max).value;
    var came := Accepted(s.arrivals, max);
    DoneAccepted(es, max);
    es' := ArriveAccepted(came, max);
    var a := s.arrivals[|came|];
    assert s.arrivals == came + [a] + s.arrivals[|came| + 1..];
    FirstRefusal(es', a, max);
    es' := ArriveAll(es' + [Arrive(a)], s.arrivals[|came| + 1..], max);
    es' := CompleteAll(es', s.done, max);
  }

  lemma FirstFault(es: seq<Event>, i: nat, max: int)
    requires Exec(es, max).Some?
    requires var s := Exec(es, max).value; s.run.error == "" && i < |Accepted(s.arrivals, max)| && i !in s.done
    ensures Exec(es + [Complete(i)], max).Some?
    ensures var s, t := Exec(es, max).value, Exec(es + [Complete(i)], max).value;
            && t.arrivals == s.arrivals && t.done == s.done + {i}
            && t.run.error == OutcomeOf(Accepted(s.arrivals, max), i).fault
  {
    CanComplete(es, i, max);
    ExecMore(es, Complete(i), max);
    DeterminedHolds(es, max);
    CompleteIs(Exec(es, max).value, i, max);
  }

  lemma FaultMayWin(es: seq<Event>, max: int, i: nat) returns (es': seq<Event>)
    requires Exec(es, max).Some?
    requires var s := Exec(es, max).value; Faulty(Accepted(s.arrivals, max), s.done, i)
    ensures SameHistory(es, es', max)
    ensures var s := Exec(es, max).value; Exec(es', max).value.run.error == OutcomeOf(Accepted(s.arrivals, max), i).fault
  {
    hide Exec, Determined, Blamed, OutcomeOf;
    var s := Exec(es, max).value;
    var came := Accepted(s.arrivals, max);
    DoneAccepted(es, max);
    es' := ArriveAccepted(came, max);
    FirstFault(es', i, max);
    es' := ArriveAll(es' + [Complete(i)], s.arrivals[|came|..], max);
    assert s.arrivals == came + s.arrivals[|came|..];
    es' := CompleteAll(es', s.done - {i}, max);
    assert s.done == {i} + (s.done - {i});
  }

  /** Every candidate text is left in the run, and in every refusal, by some order. */
  lemma AnyTextMayWin(es: seq<Event>, max: int, text: string) returns (es': seq<Event>)
    requires Exec(es, max).Some? && MayBlame(Exec(es, max).value, max, text)
    ensures SameHistory(es, es', max)
    ensures Exec(es', max).value.run.error == text
  {
    var s := Exec(es, max).value;
    var came := Accepted(s.arrivals, max);
    if |came| < |s.arrivals| && text == LimitText(max) {
      es' := LimitMayWin(es, max);
    } else {
      var i :| Faulty(came, s.done, i) && text == OutcomeOf(came, i).fault;
      es' := FaultMayWin(es, max, i);
    }
  }

  /** The error text, which `_check` reports and every refusal repeats, is the same in every
      order exactly if there is no more than one candidate for it. */
  lemma ErrorTextIsFixed(es: seq<Event>, max: int)
    requires Exec(es, max).Some?
    ensures (forall es' :: SameHistory(es, es', max) ==> Exec(es', max).value.run.error == Exec(es, max).value.run.error)
            <==> (forall a, b :: MayBlame(Exec(es, max).value, max, a) && MayBlame(Exec(es, max).value, max, b) ==> a == b)
    ensures var s := Exec(es, max).value;
            forall n :: n in s.replies && n !in s.done ==> s.replies[n] == Reply(429, Failure(s.run.error))
  {
    var s := Exec(es, max).value;
    OneTextHolds(es, max);
    DeterminedHolds(es, max);
    if forall es' :: SameHistory(es, es', max) ==> Exec(es', max).value.run.error == s.run.error {
      forall a, b | MayBlame(s, max, a) && MayBlame(s, max, b) ensures a == b {
        var ea := AnyTextMayWin(es, max, a);
        var eb := AnyTextMayWin(es, max, b);
      }
    } else {
      var es' :| SameHistory(es, es', max) && Exec(es', max).value.run.error != s.run.error;
      DifferentTexts(es, es', max);
    }
  }

  lemma DifferentTexts(es: seq<Event>, es': seq<Event>, max: int)
    requires SameHistory(es, es', max)
    requires Exec(es', max).value.run.error != Exec(es, max).value.run.error
    ensures MayBlame(Exec(es, max).value, max, Exec(es, max).value.run.error)
    ensures MayBlame(Exec(es, max).value, max, Exec(es', max).value.run.error)
  {
    OneTextHolds(es, max);
    OneTextHolds(es', max);
    DeterminedHolds(es, max);
    DeterminedHolds(es', max);
  }
}
