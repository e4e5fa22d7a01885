/** The DPoP round tripper: a proof on every request, one retry on a nonce challenge
    (sections 7 and 8 of RFC 9449), request bodies replayed and response bodies restored.

    Each send is an oracle: an `Attempt` says whether the body could be produced again,
    whether signing worked, and what the base transport then answered. */
module DpopTransport {
  import opened Options
  import opened Bytes

  const MAX_CHALLENGE_BODY: nat := 65536

  datatype Proof = Proof(verb: string, uri: string, token: Option<string>, nonce: Option<string>)

  /** A proof stands for its compact serialization. */
  datatype Value = Words(text: string) | Signed(proof: Proof)

  type Headers = map<string, Value>

  datatype Answer = Answer(status: int, nonce: string, authenticate: string, body: Text)

  datatype Failure = BodyFailed | SigningFailed | SendFailed

  datatype Attempt = Attempt(bodyReplays: bool, signs: bool, answer: Option<Answer>)

  /** What one send puts on the wire. */
  datatype Sent = Sent(headers: Headers, body: Option<Text>)

  /** A request as the caller made it.  `readable` tells whether its body can be read to the
      end; `getBody` is what the caller's replay function yields, if it set one. */
  class Request {
    const verb: string
    const uri: string
    const host: string
    const body: Stream?
    const readable: bool
    const getBody: Option<Text>
    var headers: Headers

    constructor (verb: string, uri: string, host: string, headers: Headers, body: Stream?, readable: bool, getBody: Option<Text>)
      ensures this.verb == verb && this.uri == uri && this.host == host && this.headers == headers
      ensures this.body == body && this.readable == readable && this.getBody == getBody
    {
      this.verb, this.uri, this.host, this.headers := verb, uri, host, headers;
      this.body, this.readable, this.getBody := body, readable, getBody;
    }
  }

  /** A body as the caller reads it: a prefix already read, then the rest of the stream. */
  datatype Reader = Reader(prefix: Text, stream: Stream)

  class Response {
    const status: int
    const nonce: string
    const authenticate: string
    var body: Reader

    ghost function Content(): Text
      reads this, body.stream
    {
      body.prefix + body.stream.rest
    }

    constructor (a: Answer)
      ensures status == a.status && nonce == a.nonce && authenticate == a.authenticate
      ensures body.prefix == [] && body.stream.rest == a.body && fresh(body.stream)
    {
      status, nonce, authenticate := a.status, a.nonce, a.authenticate;
      var stream := new Stream(a.body);
      body := Reader([], stream);
    }
  }

  predicate Contains(s: string, part: string) {
    |part| <= |s| && (s[..|part|] == part || (s != "" && Contains(s[1..], part)))
  }

  ghost predicate Mentions(s: string, part: string) {
    exists i :: 0 <= i <= |s| && part <= s[i..]
  }

  lemma {:induction false} ContainsMeans(s: string, part: string)
    ensures Contains(s, part) <==> Mentions(s, part)
  {
    assert s[0..] == s;
    if |part| <= |s| && s[..|part|] == part {
      assert part <= s[0..];
    } else if s != "" {
      ContainsMeans(s[1..], part);
      if Mentions(s[1..], part) {
        var i :| 0 <= i <= |s[1..]| && part <= s[1..][i..];
        assert s[1..][i..] == s[i + 1..];
      }
      if Mentions(s, part) {
        var i :| 0 <= i <= |s| && part <= s[i..];
        assert i > 0 && s[1..][i - 1..] == s[i..];
      }
    }
  }

  /** The answer rejects a proof for want of a nonce, and supplies one. */
  predicate Challenge(errorOf: Text -> Option<string>, a: Answer) {
    && (a.status == 401 || a.status == 400)
    && a.nonce != ""
    && (Contains(a.authenticate, "use_dpop_nonce") || errorOf(Take(a.body, MAX_CHALLENGE_BODY)) == Some("use_dpop_nonce"))
  }

  /** The last non-empty nonce heard from `host`; empty if there was none. */
  ghost function LastNonce(heard: seq<(string, string)>, host: string): string {
    if heard == [] then ""
    else
      var last := heard[|heard| - 1];
      if last.0 == host && last.1 != "" then last.1 else LastNonce(heard[..|heard| - 1], host)
  }

  function Present(text: string): Option<string> {
    if text == "" then None else Some(text)
  }

  /** The headers a send carries: the caller's, except for those the transport owns. */
  function Signing(headers: Headers, verb: string, uri: string, token: string, nonce: string): Headers {
    var signed := headers["DPoP" := Signed(Proof(verb, uri, Present(token), Present(nonce)))];
    if token == "" then signed else signed["Authorization" := Words("DPoP " + token)]
  }

  /** The body that every send carries, if the request's body can be replayed. */
  ghost function Replay(body: Option<Text>, readable: bool, getBody: Option<Text>): Result<Option<Text>, Failure> {
    if body.None? then Ok(None)
    else if getBody.Some? then Ok(getBody)
    else if readable then Ok(body)
    else Err(BodyFailed)
  }

  ghost predicate Sends(a: Attempt, body: Option<Text>) {
    (body.Some? ==> a.bodyReplays) && a.signs
  }

  /** What one round trip sends, which answers it gets, and which of them the caller gets. */
  datatype Exchange = Exchange(sent: seq<Sent>, answers: seq<Answer>, outcome: Option<Answer>)

  ghost function From(host: string, answers: seq<Answer>): seq<(string, string)> {
    if answers == [] then [] else From(host, answers[..|answers| - 1]) + [(host, answers[|answers| - 1].nonce)]
  }

  lemma FromOneOrTwo(host: string, a: Answer, b: Answer)
    ensures From(host, []) == [] && From(host, [a]) == [(host, a.nonce)]
    ensures From(host, [a, b]) == [(host, a.nonce), (host, b.nonce)]
  {
    assert [a][..0] == [] && [a, b][..1] == [a];
  }

  ghost function Exchanged(errorOf: Text -> Option<string>, headers: Headers, verb: string, uri: string, token: string,
                           nonce: string, body: Result<Option<Text>, Failure>, first: Attempt, second: Attempt): Exchange
  {
    if body.Err? || !Sends(first, body.value) then Exchange([], [], None)
    else
      var one := Sent(Signing(headers, verb, uri, token, nonce), body.value);
      if first.answer.None? then Exchange([one], [], None)
      else
        var a := first.answer.value;
        if !Challenge(errorOf, a) then Exchange([one], [a], Some(a))
        else if !Sends(second, body.value) then Exchange([one], [a], None)
        else
          var two := Sent(Signing(headers, verb, uri, token, a.nonce), body.value);
          match second.answer
          case None => Exchange([one, two], [a], None)
          case Some(b) => Exchange([one, two], [a, b], Some(b))
  }

  class Transport {
    const token: string
    const errorOf: Text -> Option<string>
    var nonces: map<string, string>

    /** Every answer so far: the host, and its DPoP-Nonce header or "". */
    ghost var heard: seq<(string, string)>

    ghost predicate Valid()
      reads this
    {
      forall h :: LastNonce(heard, h) == if h in nonces then nonces[h] else ""
    }

    constructor (token: string, errorOf: Text -> Option<string>)
      ensures Valid() && heard == [] && this.token == token && this.errorOf == errorOf
    {
      this.token, this.errorOf, nonces, heard := token, errorOf, map[], [];
    }

    method GetNonce(host: string) returns (nonce: string)
      requires Valid()
      ensures nonce == LastNonce(heard, host)
    {
      nonce := if host in nonces then nonces[host] else "";
    }

    method CacheNonce(host: string, resp: Response)
      requires Valid()
      modifies this
      ensures Valid() && heard == old(heard) + [(host, resp.nonce)]
    {
      if resp.nonce != "" {
        nonces := nonces[host := resp.nonce];
      }
      heard := heard + [(host, resp.nonce)];
      assert heard[..|heard| - 1] == old(heard);
    }

    method BodyReplay(req: Request) returns (r: Result<Option<Text>, Failure>)
      modifies req.body
      ensures r == Replay(if req.body == null then None else Some(old(req.body.rest)), req.readable, req.getBody)
      ensures req.body == null ==> r == Ok(None)
      ensures req.body != null && req.getBody.Some? ==> r == Ok(req.getBody)
      ensures req.body != null && req.getBody.None? ==> r == if req.readable then Ok(Some(old(req.body.rest))) else Err(BodyFailed)
      ensures req.body != null ==> req.body.closed
    {
      if req.body == null {
        return Ok(None);
      }
      if req.getBody.Some? {
        req.body.Close();
        return Ok(req.getBody);
      }
      var b := req.body.ReadAll();
      req.body.Close();
      if !req.readable {
        return Err(BodyFailed);
      }
      r := Ok(Some(b));
    }

    /** One send, on a clone of the request. */
    method Do(req: Request, body: Option<Text>, nonce: string, a: Attempt) returns (r: Result<Response, Failure>, ghost sent: seq<Sent>)
      ensures sent == if Sends(a, body) then [Sent(Signing(req.headers, req.verb, req.uri, token, nonce), body)] else []
      ensures sent != [] <==> a.signs && (body.Some? ==> a.bodyReplays)
      ensures r.Ok? <==> Sends(a, body) && a.answer.Some?
      ensures r.Ok? ==>
                && fresh(r.value) && fresh(r.value.body.stream)
                && r.value.status == a.answer.value.status && r.value.nonce == a.answer.value.nonce
                && r.value.authenticate == a.answer.value.authenticate && r.value.body.prefix == [] && r.value.body.stream.rest == a.answer.value.body
    {
      sent := [];
      var replayed: Stream? := null;
      if body.Some? {
        if !a.bodyReplays {
          return Err(BodyFailed), sent;
        }
        replayed := new Stream(body.value);
      }
      var clone := new Request(req.verb, req.uri, req.host, req.headers, replayed, true, body);
      if !a.signs {
        return Err(SigningFailed), sent;
      }
      var proof := Proof(req.verb, req.uri, Present(token), Present(nonce));
      clone.headers := clone.headers["DPoP" := Signed(proof)];
      if token != "" {
        clone.headers := clone.headers["Authorization" := Words("DPoP " + token)];
      }
      sent := [Sent(clone.headers, if replayed == null then None else Some(replayed.rest))];
      if a.answer.None? {
        return Err(SendFailed), sent;
      }
      var resp := new Response(a.answer.value);
      r := Ok(resp);
    }

    /** Decides whether to retry; a response that is no challenge keeps its whole body. */
    method NonceChallenge(resp: Response) returns (nonce: string, retry: bool)
      requires resp.body.prefix == []
      modifies resp, resp.body.stream
      ensures retry <==> Challenge(errorOf, old(Answer(resp.status, resp.nonce, resp.authenticate, resp.Content())))
      ensures retry <==>
                && resp.status in {400, 401} && resp.nonce != ""
                && (Mentions(resp.authenticate, "use_dpop_nonce") || errorOf(Take(old(resp.Content()), 65536)) == Some("use_dpop_nonce"))
      ensures retry ==> nonce == resp.nonce
      ensures resp.body.stream == old(resp.body.stream) && resp.Content() == old(resp.Content())
    {
      assert resp.Content() == resp.body.stream.rest;
      TakeDrop(resp.body.stream.rest, MAX_CHALLENGE_BODY);
      if resp.status != 401 && resp.status != 400 {
        return "", false;
      }
      nonce := resp.nonce;
      if nonce == "" {
        return "", false;
      }
      ContainsMeans(resp.authenticate, "use_dpop_nonce");
      if Contains(resp.authenticate, "use_dpop_nonce") {
        return nonce, true;
      }
      var buf := resp.body.stream.ReadUpTo(MAX_CHALLENGE_BODY);
      resp.body := Reader(buf, resp.body.stream);
      retry := errorOf(buf) == Some("use_dpop_nonce");
    }

    /** One send whose answer, if any, is remembered. */
    method DoAndCache(req: Request, body: Option<Text>, nonce: string, a: Attempt) returns (r: Result<Response, Failure>, ghost sent: seq<Sent>)
      requires Valid()
      modifies this
      ensures Valid()
      ensures sent == if Sends(a, body) then [Sent(Signing(req.headers, req.verb, req.uri, token, nonce), body)] else []
      ensures heard == old(heard) + if Sends(a, body) && a.answer.Some? then [(req.host, a.answer.value.nonce)] else []
      ensures Delivers(r, if Sends(a, body) then a.answer else None)
      ensures r.Ok? ==>
                && fresh(r.value) && fresh(r.value.body.stream) && r.value.body.prefix == []
                && r.value.authenticate == a.answer.value.authenticate
    {
      r, sent := Do(req, body, nonce, a);
      if r.Err? {
        return;
      }
      CacheNonce(req.host, r.value);
      assert r.value.Content() == a.answer.value.body;
    }

    method RoundTrip(req: Request, first: Attempt, second: Attempt) returns (r: Result<Response, Failure>, ghost sent: seq<Sent>)
      requires Valid()
      modifies this, req.body
      ensures Valid()
      ensures var body := Replay(if req.body == null then None else Some(old(req.body.rest)), req.readable, req.getBody);
              var x := Exchanged(errorOf, old(req.headers), req.verb, req.uri, token, LastNonce(old(heard), req.host), body, first, second);
              && sent == x.sent
              && heard == old(heard) + From(req.host, x.answers)
              && Delivers(r, x.outcome)
      ensures req.body != null ==> req.body.closed
    {
      sent := [];
      var replay := BodyReplay(req);
      if replay.Err? {
        return Err(replay.error), sent;
      }
      r, sent := Trip(req, replay.value, first, second);
    }

    /** The first send, the decision to retry, and the retry. */
    method Trip(req: Request, body: Option<Text>, first: Attempt, second: Attempt) returns (r: Result<Response, Failure>, ghost sent: seq<Sent>)
      requires Valid()
      modifies this
      ensures Valid()
      ensures var x := Exchanged(errorOf, req.headers, req.verb, req.uri, token, LastNonce(old(heard), req.host), Ok(body), first, second);
              && sent == x.sent
              && heard == old(heard) + From(req.host, x.answers)
              && Delivers(r, x.outcome)
    {
      hide Challenge, Signing, LastNonce, From;
      var known := GetNonce(req.host);
      r, sent := DoAndCache(req, body, known, first);
      ghost var none := Answer(0, "", "", []);
      FromOneOrTwo(req.host, first.answer.UnwrapOr(none), second.answer.UnwrapOr(none));
      if r.Err? {
        return;
      }
      ghost var a := first.answer.value;
      var nonce, retry := NonceChallenge(r.value);
      assert retry <==> Challenge(errorOf, a);
      if !retry {
        return;
      }
      var drained := r.value.body.stream.ReadUpTo(MAX_CHALLENGE_BODY);
      r.value.body.stream.Close();
      ghost var before := sent;
      r, sent := DoAndCache(req, body, nonce, second);
      sent := before + sent;
    }
  }

  /** The caller gets the answer, and reads its body from the first to the last byte. */
  ghost predicate Delivers(r: Result<Response, Failure>, outcome: Option<Answer>)
    reads if r.Ok? then {r.value, r.value.body.stream} else {}
  {
    match r
    case Err(_) => outcome == None
    case Ok(resp) => outcome.Some? && resp.status == outcome.value.status && resp.nonce == outcome.value.nonce && resp.Content() == outcome.value.body
  }

  // ---- what the exchange means ----

  /** `n` is the last non-empty nonce that `host` sent. */
  ghost predicate IsLastFrom(heard: seq<(string, string)>, host: string, n: string, i: nat) {
    && i < |heard| && heard[i] == (host, n) && n != ""
    && forall j :: i < j < |heard| && heard[j].0 == host ==> heard[j].1 == ""
  }

  lemma {:induction false} LastNonceIsLast(heard: seq<(string, string)>, host: string, n: string)
    ensures LastNonce(heard, host) == "" <==> forall i :: 0 <= i < |heard| && heard[i].0 == host ==> heard[i].1 == ""
    ensures n != "" ==> (LastNonce(heard, host) == n <==> exists i :: IsLastFrom(heard, host, n, i))
  {
    if heard == [] {
    } else {
      var k := |heard| - 1;
      LastNonceIsLast(heard[..k], host, n);
      if heard[k].0 == host && heard[k].1 != "" {
        assert heard[k].1 == n ==> IsLastFrom(heard, host, n, k);
        forall i | IsLastFrom(heard, host, n, i) ensures i == k {
        }
      } else {
        forall i: nat ensures IsLastFrom(heard, host, n, i) <==> IsLastFrom(heard[..k], host, n, i) {
          if IsLastFrom(heard[..k], host, n, i) {
            assert heard[..k][i] == heard[i];
          }
        }
      }
    }
  }

  function NonceOf(sent: Sent): Option<string> {
    if "DPoP" in sent.headers && sent.headers["DPoP"].Signed? then sent.headers["DPoP"].proof.nonce else None
  }

  /** The proof and the other headers that a send carries. */
  ghost predicate Carries(sent: Sent, headers: Headers, verb: string, uri: string, token: string, nonce: string) {
    && "DPoP" in sent.headers
    && sent.headers["DPoP"] ==
       Signed(Proof(verb, uri, if token == "" then None else Some(token), if nonce == "" then None else Some(nonce)))
    && (token != "" ==> "Authorization" in sent.headers && sent.headers["Authorization"] == Words("DPoP " + token))
    && forall h :: h != "DPoP" && (h == "Authorization" ==> token == "") ==>
         (h in sent.headers <==> h in headers) && (h in headers ==> sent.headers[h] == headers[h])
  }

  /** At most two sends; the second exactly after a challenge, with the nonce of that
      challenge; the first with the nonce known for the host; both with the same body, the
      same token and the caller's other headers. */
  lemma RetryOnce(errorOf: Text -> Option<string>, headers: Headers, verb: string, uri: string, token: string,
                  nonce: string, body: Result<Option<Text>, Failure>, first: Attempt, second: Attempt)
    ensures var x := Exchanged(errorOf, headers, verb, uri, token, nonce, body, first, second);
            && |x.sent| <= 2
            && (x.sent != [] <==> body.Ok? && Sends(first, body.value))
            && (x.sent != [] ==> Carries(x.sent[0], headers, verb, uri, token, nonce) && x.sent[0].body == body.value)
            && (|x.sent| == 2 <==>
                  x.sent != [] && first.answer.Some? && Challenge(errorOf, first.answer.value) && Sends(second, body.value))
            && (|x.sent| == 2 ==>
                  && Carries(x.sent[1], headers, verb, uri, token, first.answer.value.nonce)
                  && x.sent[1].body == body.value)
  {
    SigningCarries(headers, verb, uri, token, nonce);
    if first.answer.Some? {
      SigningCarries(headers, verb, uri, token, first.answer.value.nonce);
    }
    hide Carries, Signing, Challenge;
  }

  lemma SigningCarries(headers: Headers, verb: string, uri: string, token: string, nonce: string)
    ensures forall body :: Carries(Sent(Signing(headers, verb, uri, token, nonce), body), headers, verb, uri, token, nonce)
  {
  }

  // ---- what is heard ----

  /** The answers that the given attempts got, in order. */
  ghost function Received(tries: seq<Attempt>): seq<Answer> {
    if tries == [] then []
    else Received(tries[..|tries| - 1]) + if tries[|tries| - 1].answer.Some? then [tries[|tries| - 1].answer.value] else []
  }

  lemma ReceivedFew(first: Attempt, second: Attempt)
    ensures Received([]) == []
    ensures Received([first]) == if first.answer.Some? then [first.answer.value] else []
    ensures Received([first, second]) == Received([first]) + if second.answer.Some? then [second.answer.value] else []
  {
    assert [first][..0] == [] && [first, second][..1] == [first];
  }

  /** Every answer that a send got is heard, in order.  The caller gets the answer to the last
      send; nothing, if that got none, or if it was challenged and the retry was not sent. */
  lemma AnswersAreHeard(errorOf: Text -> Option<string>, headers: Headers, verb: string, uri: string, token: string,
                        nonce: string, body: Result<Option<Text>, Failure>, first: Attempt, second: Attempt)
    ensures var x := Exchanged(errorOf, headers, verb, uri, token, nonce, body, first, second);
            && |x.sent| <= 2 && x.answers == Received([first, second][..|x.sent|])
            && x.outcome ==
               (if |x.sent| == 0 then None
                else if |x.sent| == 2 then second.answer
                else if first.answer.Some? && Challenge(errorOf, first.answer.value) then None
                else first.answer)
  {
    ReceivedFew(first, second);
    assert [first, second][..0] == [] && [first, second][..1] == [first] && [first, second][..2] == [first, second];
    hide Challenge, Signing, Received;
  }

  // ---- a sequence of round trips ----

  /** A request with its replayed body, and what became of its attempts. */
  datatype Call = Call(host: string, headers: Headers, verb: string, uri: string, body: Result<Option<Text>, Failure>,
                       first: Attempt, second: Attempt)

  /** The exchange of a round trip after `heard`, as `RoundTrip` makes it. */
  ghost function ExchangeOf(errorOf: Text -> Option<string>, token: string, heard: seq<(string, string)>, c: Call): Exchange {
    Exchanged(errorOf, c.headers, c.verb, c.uri, token, LastNonce(heard, c.host), c.body, c.first, c.second)
  }

  ghost function HeardAfter(errorOf: Text -> Option<string>, token: string, calls: seq<Call>): seq<(string, string)> {
    if calls == [] then []
    else
      var before, c := HeardAfter(errorOf, token, calls[..|calls| - 1]), calls[|calls| - 1];
      before + From(c.host, ExchangeOf(errorOf, token, before, c).answers)
  }

  /** The nonces of all answers that the calls got, with their hosts: of the first attempt,
      and of the retry where one was due and sent. */
  ghost function Given(errorOf: Text -> Option<string>, calls: seq<Call>): seq<(string, string)> {
    if calls == [] then []
    else
      var c := calls[|calls| - 1];
      Given(errorOf, calls[..|calls| - 1]) +
      if c.body.Err? || !Sends(c.first, c.body.value) || c.first.answer.None? then []
      else if Challenge(errorOf, c.first.answer.value) && Sends(c.second, c.body.value) && c.second.answer.Some?
      then [(c.host, c.first.answer.value.nonce), (c.host, c.second.answer.value.nonce)]
      else [(c.host, c.first.answer.value.nonce)]
  }

  lemma {:induction false} HeardIsGiven(errorOf: Text -> Option<string>, token: string, calls: seq<Call>)
    ensures HeardAfter(errorOf, token, calls) == Given(errorOf, calls)
  {
    if calls == [] {
    } else {
      var n := |calls| - 1;
      HeardIsGiven(errorOf, token, calls[..n]);
      var none := Answer(0, "", "", []);
      FromOneOrTwo(calls[n].host, calls[n].first.answer.UnwrapOr(none), calls[n].second.answer.UnwrapOr(none));
      hide Challenge, Signing, LastNonce, From;
    }
  }

  /** In any sequence of round trips, the first proof of a request carries the last non-empty
      nonce among all answers that its host has given, retries included; none if there is
      none. */
  lemma FirstProofIsFresh(errorOf: Text -> Option<string>, token: string, calls: seq<Call>, c: Call, n: string)
    requires ExchangeOf(errorOf, token, HeardAfter(errorOf, token, calls), c).sent != []
    ensures var given := Given(errorOf, calls);
            var proof := NonceOf(ExchangeOf(errorOf, token, HeardAfter(errorOf, token, calls), c).sent[0]);
            && (proof == None <==> forall i :: 0 <= i < |given| && given[i].0 == c.host ==> given[i].1 == "")
            && (proof == Some(n) <==> exists i :: IsLastFrom(given, c.host, n, i))
  {
    HeardIsGiven(errorOf, token, calls);
    var given := Given(errorOf, calls);
    LastNonceIsLast(given, c.host, n);
    RetryOnce(errorOf, c.headers, c.verb, c.uri, token, LastNonce(given, c.host), c.body, c.first, c.second);
    hide Exchanged, LastNonce, Given, HeardAfter;
  }

  /** A challenge must fit the peek when it comes in the body: bytes past the first 64 KiB
      do not matter. */
  lemma PeekDecides(errorOf: Text -> Option<string>, a: Answer, tail: Text)
    requires |a.body| >= 64 * 1024
    ensures Challenge(errorOf, a) <==> Challenge(errorOf, a.(body := a.body + tail))
  {
    assert Take(a.body + tail, MAX_CHALLENGE_BODY) == Take(a.body, MAX_CHALLENGE_BODY);
  }
}
