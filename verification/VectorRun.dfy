/** What one canned vector answers, what one run of it records, and the verdict on the
    recorded requests.

    A JavaScript `Map` remembers the order of its keys: a run's `seen` is its paths in that
    order beside a map from each path to the requests recorded on it.  An error text is a
    string whose empty value stands for the absent, falsy one. */
module VectorRun {
  import opened Options

  datatype Path = Path(text: string)

  datatype Response = Response(status: Option<int>, fixture: Option<string>)

  datatype Want = Want(path: Path, verb: string, headers: seq<(string, string)>, form: seq<(string, string)>)

  datatype Vector = Vector(
    http: map<Path, Response>,
    sequences: map<Path, seq<Response>>,
    expectCalls: Option<seq<(Path, nat)>>,
    expectRequest: Option<Want>)

  /** Header names are lower case, as the HTTP library delivers them. */
  datatype Record = Record(verb: string, headers: map<string, string>, form: seq<(string, string)>, pending: bool)

  /** What `_requests` tells about a record. */
  datatype Glance = Glance(verb: string, headers: map<string, string>, form: map<string, string>)

  datatype Run = Run(paths: seq<Path>, lanes: map<Path, seq<Record>>, count: nat, updatedAt: int, error: string) {
    function Lane(p: Path): seq<Record> {
      if p in lanes then lanes[p] else []
    }

    /** `run.error ||= text` */
    function Blame(text: string): Run {
      if error != "" then this else this.(error := text)
    }
  }

  /** How reading a request body ends, and what reading the fixture then gives. */
  datatype Body = Read(form: seq<(string, string)>) | TooLarge(text: string) | Broken(text: string)

  datatype Fixture = Payload(text: string) | Missing(text: string) | Unreadable(text: string)

  datatype Content =
    | Nothing
    | Failure(text: string)
    | Payload(text: string)
    | Verdict(ok: bool, diffs: seq<Diff>)
    | Recorded(paths: seq<Path>, lanes: map<Path, seq<Glance>>)
    | Done

  datatype Reply = Reply(status: int, content: Content)

  // ---- one request ----

  function FreshRun(now: int): Run {
    Run([], map[], 0, now, "")
  }

  /** A slot is reserved on arrival, before the body is read. */
  function Admit(run: Run, p: Path, record: Record): Run {
    run.(
      paths := if p in run.lanes then run.paths else run.paths + [p],
      lanes := run.lanes[p := run.Lane(p) + [record.(form := [], pending := true)]],
      count := run.count + 1)
  }

  function LimitText(max: int): string {
    "request limit " + Decimal(max) + " reached"
  }

  function Decimal(n: int): string
    decreases if n < 0 then 1 - n else n
  {
    if n < 0 then "-" + Decimal(-n)
    else if n < 10 then ["0123456789"[n]]
    else Decimal(n / 10) + ["0123456789"[n % 10]]
  }

  /** The answer to the `position`-th request on a path, counted from one; past the end of
      a sequence its last answer repeats. */
  function Canned(v: Vector, p: Path, position: nat): Option<Response>
    requires position > 0
  {
    if p in v.sequences then
      var s := v.sequences[p];
      var k := if position < |s| then position else |s|;
      if k == 0 then None else Some(s[k - 1])
    else if p in v.http then Some(v.http[p])
    else None
  }

  datatype Outcome = Outcome(reply: Reply, fault: string)

  /** What becomes of the `position`-th request on `p` once its body has been read. */
  function Conclude(v: Vector, p: Path, position: nat, body: Body, fixture: Fixture): Outcome
    requires position > 0
  {
    match body
    case TooLarge(text) => Outcome(Reply(413, Failure(text)), text)
    case Broken(text) => Outcome(Reply(400, Failure(text)), text)
    case Read(_) =>
      match Canned(v, p, position)
      case None => Outcome(Reply(404, Nothing), "no canned response for " + p.text)
      case Some(resp) =>
        var status := if resp.status.Some? then resp.status.value else 200;
        if resp.fixture.None? then Outcome(Reply(status, Nothing), "")
        else
          match fixture
          case Payload(text) => Outcome(Reply(status, if text == "" then Nothing else Content.Payload(text)), "")
          case Missing(text) => Outcome(Reply(404, Failure(text)), text)
          case Unreadable(text) => Outcome(Reply(500, Failure(text)), text)
  }

  function Finished(record: Record, body: Body): Record {
    record.(form := if body.Read? then body.form else record.form, pending := false)
  }

  /** The request in slot `index` of `p` ends. */
  function Settle(run: Run, p: Path, index: nat, body: Body, fault: string): Run
    requires index < |run.Lane(p)|
  {
    run.(lanes := run.lanes[p := run.lanes[p][index := Finished(run.lanes[p][index], body)]]).Blame(fault)
  }

  // ---- the verdict ----

  datatype Diff =
    | Error(text: string)
    | NoRun
    | Pending(path: Path, bodies: nat)
    | Calls(path: Path, have: nat, want: nat)
    | NoRequest(path: Path)
    | Verb(ordinal: nat, verb: string)
    | Header(ordinal: nat, name: string)
    | Form(ordinal: nat, name: string)

  function Lower(s: string): (r: string)
    ensures |r| == |s|
    ensures forall i :: 0 <= i < |s| ==> r[i] == if 'A' <= s[i] <= 'Z' then s[i] - 'A' + 'a' else s[i]
  {
    if s == "" then ""
    else [if 'A' <= s[0] <= 'Z' then s[0] - 'A' + 'a' else s[0]] + Lower(s[1..])
  }

  predicate Blank(c: char) {
    c == ' ' || c == '\t' || c == '\n' || c == '\r'
  }

  function TrimLeft(s: string): string {
    if s != "" && Blank(s[0]) then TrimLeft(s[1..]) else s
  }

  function TrimRight(s: string): string {
    if s != "" && Blank(s[|s| - 1]) then TrimRight(s[..|s| - 1]) else s
  }

  /** A media type without its parameters. */
  function MediaType(s: string): string {
    TrimRight(TrimLeft(UpTo(s, ';')))
  }

  function UpTo(s: string, stop: char): string {
    if s == "" || s[0] == stop then "" else [s[0]] + UpTo(s[1..], stop)
  }

  /** An expected empty value means that the field must be absent. */
  predicate HeaderMet(want: (string, string), have: map<string, string>) {
    var name := Lower(want.0);
    if want.1 == "" then name !in have
    else name in have && want.1 == if name == "content-type" then MediaType(have[name]) else have[name]
  }

  function Values(form: seq<(string, string)>, name: string): seq<string> {
    if form == [] then []
    else (if form[0].0 == name then [form[0].1] else []) + Values(form[1..], name)
  }

  // ---- what `_requests` tells ----

  function Names(form: seq<(string, string)>): set<string> {
    set f | f in form :: f.0
  }

  function Get(form: seq<(string, string)>, name: string): (value: Option<string>)
    ensures value.Some? <==> name in Names(form)
  {
    if form == [] then None
    else if form[0].0 == name then Some(form[0].1)
    else Get(form[1..], name)
  }

  /** A form as an object. */
  function Fields(form: seq<(string, string)>): map<string, string> {
    map n | n in Names(form) :: Get(form, n).value
  }

  /** Of a repeated field only the first value is told. */
  ghost predicate FirstValues(fields: map<string, string>, form: seq<(string, string)>) {
    forall n :: if n in fields then Values(form, n) != [] && fields[n] == Values(form, n)[0] else Values(form, n) == []
  }

  lemma {:induction false} GetIsFirst(form: seq<(string, string)>, name: string)
    ensures Get(form, name) == if Values(form, name) == [] then None else Some(Values(form, name)[0])
  {
    if form == [] {
    } else {
      GetIsFirst(form[1..], name);
    }
  }

  lemma FieldsAreFirst(form: seq<(string, string)>)
    ensures FirstValues(Fields(form), form)
  {
    forall n ensures if n in Fields(form) then Values(form, n) != [] && Fields(form)[n] == Values(form, n)[0] else Values(form, n) == [] {
      GetIsFirst(form, n);
    }
  }

  /** The records of one path, told in their order. */
  ghost predicate Tells(glances: seq<Glance>, records: seq<Record>) {
    && |glances| == |records|
    && forall i :: 0 <= i < |records| ==>
         && glances[i].verb == records[i].verb && glances[i].headers == records[i].headers
         && FirstValues(glances[i].form, records[i].form)
  }

  method Glances(records: seq<Record>) returns (glances: seq<Glance>)
    ensures Tells(glances, records)
  {
    hide FirstValues, Fields;
    glances := [];
    for i := 0 to |records|
      invariant Tells(glances, records[..i])
    {
      var r := records[i];
      FieldsAreFirst(r.form);
      glances := glances + [Glance(r.verb, r.headers, Fields(r.form))];
    }
    assert records[..|records|] == records;
  }

  method TellLanes(run: Run) returns (lanes: map<Path, seq<Glance>>)
    requires forall p :: p in run.paths <==> p in run.lanes
    ensures lanes.Keys == run.lanes.Keys
    ensures forall p :: p in lanes ==> Tells(lanes[p], run.lanes[p])
  {
    hide Tells;
    lanes := map[];
    for i := 0 to |run.paths|
      invariant forall p :: p in lanes <==> p in run.paths[..i]
      invariant forall p :: p in lanes ==> Tells(lanes[p], run.lanes[p])
    {
      var glances := Glances(run.lanes[run.paths[i]]);
      lanes := lanes[run.paths[i] := glances];
      assert run.paths[..i + 1] == run.paths[..i] + [run.paths[i]];
    }
    assert run.paths[..|run.paths|] == run.paths;
  }

  // ---- a request against what is wanted ----

  predicate FormMet(want: (string, string), form: seq<(string, string)>) {
    Values(form, want.0) == if want.1 == "" then [] else [want.1]
  }

  /** A wanted form field must be there once, with its value; an empty one, not at all. */
  lemma FormMetMeans(want: (string, string), form: seq<(string, string)>)
    ensures FormMet(want, form) <==>
              if want.1 == "" then forall i :: 0 <= i < |form| ==> form[i].0 != want.0
              else exists i :: 0 <= i < |form| && form[i] == want && forall j :: 0 <= j < |form| && j != i ==> form[j].0 != want.0
  {
    ValuesNone(form, want.0);
    ValuesOne(form, want.0, want.1);
  }

  lemma {:induction false} ValuesNone(form: seq<(string, string)>, name: string)
    ensures Values(form, name) == [] <==> forall i :: 0 <= i < |form| ==> form[i].0 != name
  {
    if form == [] {
    } else {
      ValuesNone(form[1..], name);
      assert forall i :: 0 < i < |form| ==> form[i] == form[1..][i - 1];
    }
  }

  lemma {:induction false} ValuesOne(form: seq<(string, string)>, name: string, value: string)
    ensures Values(form, name) == [value] <==>
              exists i :: 0 <= i < |form| && form[i] == (name, value) && forall j :: 0 <= j < |form| && j != i ==> form[j].0 != name
  {
    if form == [] {
    } else {
      var rest := form[1..];
      assert forall i :: 0 < i < |form| ==> form[i] == rest[i - 1];
      ValuesOne(rest, name, value);
      ValuesNone(rest, name);
      if form[0].0 == name {
        if Values(form, name) == [value] {
          assert Values(form, name) == [form[0].1] + Values(rest, name);
          assert Values(form, name)[0] == form[0].1 && |Values(rest, name)| == 0;
          assert form[0] == (name, value);
        }
        if exists i :: 0 <= i < |form| && form[i] == (name, value) && forall j :: 0 <= j < |form| && j != i ==> form[j].0 != name {
          assert form[0] == (name, value);
        }
      } else {
        if Values(rest, name) == [value] {
          var i :| 0 <= i < |rest| && rest[i] == (name, value) && forall j :: 0 <= j < |rest| && j != i ==> rest[j].0 != name;
          assert form[i + 1] == (name, value);
        }
        if i :| 0 <= i < |form| && form[i] == (name, value) && forall j :: 0 <= j < |form| && j != i ==> form[j].0 != name {
          assert rest[i - 1] == (name, value);
        }
      }
    }
  }

  ghost predicate AllBlank(s: string) {
    forall i :: 0 <= i < |s| ==> s[i] in {' ', '\t', '\n', '\r'}
  }

  /** A content type is compared without its parameters and the white space around it. */
  lemma MediaTypeReads(pad: string, media: string, pad': string, parameters: string)
    requires AllBlank(pad) && AllBlank(pad')
    requires media != "" && (forall i :: 0 <= i < |media| ==> media[i] != ';')
    requires AllBlank([media[0]]) == false && AllBlank([media[|media| - 1]]) == false
    ensures MediaType(pad + media + pad') == media
    ensures MediaType(pad + media + pad' + ";" + parameters) == media
  {
    var s := pad + media + pad';
    assert forall i :: 0 <= i < |s| ==> s[i] != ';';
    UpToStops(s, "");
    UpToStops(s, ";" + parameters);
    assert s + "" == s && s + (";" + parameters) == s + ";" + parameters;
    assert s == pad + (media + pad');
    assert !Blank(media[0]) by { assert [media[0]][0] == media[0]; }
    assert !Blank(media[|media| - 1]) by { assert [media[|media| - 1]][0] == media[|media| - 1]; }
    TrimLeftPad(pad, media + pad');
    TrimRightPad(media, pad');
  }

  lemma {:induction false} UpToStops(s: string, rest: string)
    requires forall i :: 0 <= i < |s| ==> s[i] != ';'
    requires rest == "" || rest[0] == ';'
    ensures UpTo(s + rest, ';') == s
  {
    if s == "" {
      assert s + rest == rest;
    } else {
      assert (s + rest)[1..] == s[1..] + rest;
      UpToStops(s[1..], rest);
    }
  }

  lemma {:induction false} TrimLeftPad(pad: string, s: string)
    requires AllBlank(pad) && s != "" && !Blank(s[0])
    ensures TrimLeft(pad + s) == s
  {
    if pad == "" {
      assert pad + s == s;
    } else {
      assert (pad + s)[1..] == pad[1..] + s;
      TrimLeftPad(pad[1..], s);
    }
  }

  lemma {:induction false} TrimRightPad(s: string, pad: string)
    requires AllBlank(pad) && s != "" && !Blank(s[|s| - 1])
    ensures TrimRight(s + pad) == s
  {
    if pad == "" {
      assert s + pad == s;
    } else {
      var n := |pad| - 1;
      assert (s + pad)[..|s| + n] == s + pad[..n];
      TrimRightPad(s, pad[..n]);
    }
  }

  /** A wanted header is found under its lower-case name: as it is, or for a content type
      without parameters; an empty one must be absent. */
  lemma HeaderMetMeans(name: string, value: string, have: map<string, string>)
    ensures value == "" ==> (HeaderMet((name, value), have) <==> Lower(name) !in have)
    ensures value != "" && Lower(name) !in have ==> !HeaderMet((name, value), have)
    ensures value != "" && Lower(name) in have && Lower(name) != "content-type" ==>
              (HeaderMet((name, value), have) <==> have[Lower(name)] == value)
    ensures value != "" && Lower(name) in have && Lower(name) == "content-type" ==>
              (HeaderMet((name, value), have) <==> MediaType(have["content-type"]) == value)
  {
  }

  /** The request is what the vector wants: right method, every header and form field. */
  ghost predicate RequestMet(want: Want, got: Record) {
    && got.verb == want.verb
    && (forall h :: h in want.headers ==> HeaderMet(h, got.headers))
    && (forall f :: f in want.form ==> FormMet(f, got.form))
  }

  /** The promise of `_check`: no error, no body pending, the counts as expected, and at
      least one request on the wanted path, each of them as wanted. */
  ghost predicate Met(v: Vector, run: Run) {
    && run.error == ""
    && (forall p, r :: p in run.lanes && r in run.lanes[p] ==> !r.pending)
    && (v.expectCalls.Some? ==> forall c :: c in v.expectCalls.value ==> |run.Lane(c.0)| == c.1)
    && (v.expectRequest.Some? ==>
          var want := v.expectRequest.value;
          run.Lane(want.path) != [] && forall r :: r in run.Lane(want.path) ==> RequestMet(want, r))
  }

  method CheckRequest(want: Want, got: Record, ordinal: nat) returns (diffs: seq<Diff>)
    ensures diffs == [] <==> RequestMet(want, got)
  {
    diffs := [];
    if got.verb != want.verb {
      diffs := diffs + [Verb(ordinal, got.verb)];
    }
    for i := 0 to |want.headers|
      invariant diffs == [] <==> got.verb == want.verb && forall h :: h in want.headers[..i] ==> HeaderMet(h, got.headers)
    {
      if !HeaderMet(want.headers[i], got.headers) {
        diffs := diffs + [Header(ordinal, want.headers[i].0)];
      }
      assert want.headers[..i + 1] == want.headers[..i] + [want.headers[i]];
    }
    assert want.headers[..|want.headers|] == want.headers;
    for i := 0 to |want.form|
      invariant diffs == [] <==>
        && got.verb == want.verb && (forall h :: h in want.headers ==> HeaderMet(h, got.headers))
        && forall f :: f in want.form[..i] ==> FormMet(f, got.form)
    {
      if !FormMet(want.form[i], got.form) {
        diffs := diffs + [Form(ordinal, want.form[i].0)];
      }
      assert want.form[..i + 1] == want.form[..i] + [want.form[i]];
    }
    assert want.form[..|want.form|] == want.form;
  }

  function PendingIn(records: seq<Record>): (n: nat)
    ensures n == 0 <==> forall r :: r in records ==> !r.pending
  {
    if records == [] then 0 else (if records[0].pending then 1 else 0) + PendingIn(records[1..])
  }

  ghost predicate Quiet(run: Run, paths: seq<Path>) {
    forall p, r :: p in paths && r in run.Lane(p) ==> !r.pending
  }

  ghost predicate CallsMet(run: Run, calls: seq<(Path, nat)>) {
    forall c :: c in calls ==> |run.Lane(c.0)| == c.1
  }

  ghost predicate AllMet(want: Want, records: seq<Record>) {
    forall r :: r in records && !r.pending ==> RequestMet(want, r)
  }

  /** The comparison of `check`, which sees the recorded requests but not the run's error. */
  method Check(v: Vector, run: Run) returns (diffs: seq<Diff>)
    requires forall p :: p in run.lanes ==> p in run.paths
    ensures diffs == [] <==> Met(v, run.(error := ""))
  {
    diffs := [];
    for i := 0 to |run.paths|
      invariant diffs == [] <==> Quiet(run, run.paths[..i])
    {
      var p := run.paths[i];
      var pending := PendingIn(run.Lane(p));
      if pending != 0 {
        diffs := diffs + [Pending(p, pending)];
      }
      assert run.paths[..i + 1] == run.paths[..i] + [p];
    }
    assert run.paths[..|run.paths|] == run.paths;
    var calls := if v.expectCalls.Some? then v.expectCalls.value else [];
    for i := 0 to |calls|
      invariant diffs == [] <==> Quiet(run, run.paths) && CallsMet(run, calls[..i])
    {
      var have := |run.Lane(calls[i].0)|;
      if have != calls[i].1 {
        diffs := diffs + [Calls(calls[i].0, have, calls[i].1)];
      }
      assert calls[..i + 1] == calls[..i] + [calls[i]];
    }
    assert calls[..|calls|] == calls;
    if v.expectRequest.None? {
      return;
    }
    var want := v.expectRequest.value;
    var got := run.Lane(want.path);
    if got == [] {
      return diffs + [NoRequest(want.path)];
    }
    for i := 0 to |got|
      invariant diffs == [] <==> Quiet(run, run.paths) && CallsMet(run, calls) && AllMet(want, got[..i])
    {
      if !got[i].pending {
        var more := CheckRequest(want, got[i], if |got| > 1 then i + 1 else 0);
        diffs := diffs + more;
      }
      assert got[..i + 1] == got[..i] + [got[i]];
    }
    assert got[..|got|] == got;
  }
}
