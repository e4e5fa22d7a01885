/** DPoP proofs: the builder (section 4.2 of RFC 9449) against the verifier (section 4.3).

    Signatures and hashes are ideal.  A signature is a value that names the key that made it
    and what it covers; it verifies for that key and that content only.  A URI is the record
    that parsing it gives, and `render` stands for writing a normalized one. */
module DpopProof {
  import opened Options

  datatype Kind = Ec | Rsa | Other

  datatype PublicKey = PublicKey(id: nat, kind: Kind)

  /** `secret`: the key carries private members. */
  datatype Jwk = Jwk(key: PublicKey, secret: bool)

  datatype Header = Header(alg: string, typ: string, jwk: Option<Jwk>)

  /** `Sha(t)` is the hash of the token `t`; `Raw` is any other text. */
  datatype Ath = NoAth | Sha(token: string) | Raw(text: string)

  datatype Claims = Claims(jti: string, htm: string, htu: string, iat: int, ath: Ath, nonce: string)

  datatype Payload = Json(claims: Claims) | NotJson

  datatype Signature = Signature(maker: PublicKey, header: Header, payload: Payload)

  datatype Jws = Malformed | Jws(header: Header, payload: Payload, signatures: seq<Signature>)

  // ---- URIs ----

  datatype Url = Url(scheme: string, userinfo: string, host: string, path: string, query: string, fragment: string)

  datatype Target = Target(scheme: string, host: string, path: string)

  /** Scheme, authority and path; `None` is a URI that does not parse. */
  function Normalize(uri: Option<Url>): Option<Target> {
    if uri.None? || uri.value.scheme == "" || uri.value.host == "" then None
    else Some(Target(uri.value.scheme, uri.value.host, uri.value.path))
  }

  // ---- the builder ----

  /** A key pair, named by its public half. */
  datatype Key = Key(alg: string, public: PublicKey)

  const NANOS := 1_000_000_000

  datatype Inputs = Inputs(verb: string, uri: Option<Url>, token: Option<string>, nonce: string, now: int, jti: string)

  /** `now` is in nanoseconds; the `iat` claim is in whole seconds, rounded down. */
  function Prove(k: Key, i: Inputs, render: Target -> string): Option<Jws> {
    match Normalize(i.uri)
    case None => None
    case Some(target) =>
      var ath := if i.token.Some? then Sha(i.token.value) else NoAth;
      var payload := Json(Claims(i.jti, i.verb, render(target), i.now / NANOS, ath, i.nonce));
      var header := Header(k.alg, "dpop+jwt", Some(Jwk(k.public, false)));
      Some(Jws(header, payload, [Signature(k.public, header, payload)]))
  }

  // ---- the verifier ----

  const ASYMMETRIC := ["ES256", "ES384", "ES512", "RS256", "RS384", "RS512", "PS256", "PS384", "PS512"]

  /** Durations are 64-bit counts of nanoseconds. */
  const MAX_DURATION := 0x7FFF_FFFF_FFFF_FFFF
  const MIN_DURATION := -0x8000_0000_0000_0000

  /** Subtracting instants saturates. */
  function Saturate(d: int): int {
    if d > MAX_DURATION then MAX_DURATION else if d < MIN_DURATION then MIN_DURATION else d
  }

  /** Negating a duration wraps around. */
  function Negate(d: int): int {
    if d == MIN_DURATION then MIN_DURATION else -d
  }

  predicate Outside(elapsed: int, maxAge: int) {
    Saturate(elapsed) > maxAge || Saturate(elapsed) < Negate(maxAge)
  }

  datatype Expected = Expected(verb: string, uri: Option<Url>, maxAge: int, now: int, token: Option<string>, nonce: Option<string>)

  datatype Verified = Verified(typ: string, alg: string, jwk: Jwk, thumbprint: PublicKey, claims: Claims)

  /** The compact form parses, with an allowed algorithm and no private key embedded. */
  function ParseSigned(j: Jws): Option<string> {
    if j.Malformed? || j.header.alg !in ASYMMETRIC then Some("alg")
    else if j.header.jwk.Some? && j.header.jwk.value.secret then Some("jwk")
    else None
  }

  function VerifyProof(j: Jws, e: Expected, render: Target -> string): Result<Verified, string> {
    var refused := ParseSigned(j);
    if refused.Some? then Err(refused.value)
    else if |j.signatures| != 1 then Err("signature")
    else if j.header.jwk.None? then Err("jwk")
    else
      var jwk := j.header.jwk.value;
      if jwk.key.kind == Other then Err("jwk")
      else if j.header.typ != "dpop+jwt" then Err("typ")
      else if j.signatures[0] != Signature(jwk.key, j.header, j.payload) then Err("signature")
      else if j.payload.NotJson? then Err("payload")
      else CheckClaims(j.header, jwk, j.payload.claims, e, render)
  }

  function CheckClaims(h: Header, jwk: Jwk, c: Claims, e: Expected, render: Target -> string): Result<Verified, string> {
    if c.jti == "" then Err("jti")
    else if c.htm != e.verb then Err("htm")
    else
      match Normalize(e.uri)
      case None => Err("htu")
      case Some(target) =>
        if c.htu != render(target) then Err("htu")
        else if c.iat == 0 then Err("iat")
        else if Outside(e.now - c.iat * NANOS, e.maxAge) then Err("iat")
        else if e.token.Some? && c.ath != Sha(e.token.value) then Err("ath")
        else if e.nonce.Some? && c.nonce != e.nonce.value then Err("nonce")
        else Ok(Verified(h.typ, h.alg, jwk, jwk.key, c))
  }

  // ---- the round trip ----

  /** The age window in plain arithmetic.  Saturation shows at the two ends only: the
      largest window has no upper limit, and the most negative one, whose negation wraps
      around to itself, admits exactly the ages that saturate below. */
  lemma WindowMeans(elapsed: int, maxAge: int)
    requires MIN_DURATION <= maxAge <= MAX_DURATION
    ensures !Outside(elapsed, maxAge) <==>
            if maxAge == MAX_DURATION then -MAX_DURATION <= elapsed
            else if maxAge == MIN_DURATION then elapsed <= MIN_DURATION
            else -maxAge <= elapsed <= maxAge
  {
  }

  /** A built proof is accepted exactly when it was built for this request: same method,
      same normalized URI, an issue time that is not zero and lies in the window, and the
      token and nonce that are expected.  What is returned is what was built in. */
  lemma BuiltIsAcceptedIff(k: Key, i: Inputs, e: Expected, render: Target -> string)
    requires (k.alg == "ES256" && k.public.kind == Ec) || (k.alg == "RS256" && k.public.kind == Rsa)
    requires i.jti != "" && Normalize(i.uri).Some?
    requires MIN_DURATION <= e.maxAge <= MAX_DURATION
    ensures var r := VerifyProof(Prove(k, i, render).value, e, render);
            var iat := i.now / NANOS;
            && (r.Ok? <==>
                  && i.verb == e.verb
                  && Normalize(e.uri).Some? && render(Normalize(i.uri).value) == render(Normalize(e.uri).value)
                  && iat != 0 && !Outside(e.now - iat * NANOS, e.maxAge)
                  && (e.token.Some? ==> i.token == e.token)
                  && (e.nonce.Some? ==> i.nonce == e.nonce.value))
            && (r.Ok? ==>
                  && r.value.typ == "dpop+jwt" && r.value.alg == k.alg && r.value.jwk == Jwk(k.public, false)
                  && r.value.thumbprint == k.public
                  && r.value.claims.jti == i.jti && r.value.claims.htm == i.verb
                  && r.value.claims.htu == render(Normalize(i.uri).value) && r.value.claims.iat == iat
                  && r.value.claims.ath == (if i.token.Some? then Sha(i.token.value) else NoAth)
                  && r.value.claims.nonce == i.nonce)
  {
    assert k.alg == ASYMMETRIC[0] || k.alg == ASYMMETRIC[3];
  }

  /** Within a window of at least a second, a proof verified in the instant it was built,
      or at most `maxAge` minus a second later, is not too old. */
  lemma FreshIsInWindow(built: int, now: int, maxAge: int)
    requires NANOS <= maxAge < MAX_DURATION
    requires built <= now <= built + maxAge - NANOS
    ensures !Outside(now - (built / NANOS) * NANOS, maxAge)
  {
    assert built - NANOS < (built / NANOS) * NANOS <= built;
    WindowMeans(now - (built / NANOS) * NANOS, maxAge);
  }

  /** What an accepted proof is bound to: it stays accepted for another URI, with the same
      result, exactly if that URI has the same scheme, authority and path, given that
      different targets are written differently.  User information, query and fragment do
      not count, neither when building nor when verifying. */
  lemma UriIsBound(k: Key, i: Inputs, e: Expected, render: Target -> string, u: Url, v: Url)
    requires forall s, t :: render(s) == render(t) ==> s == t
    requires e.uri == Some(u) && Prove(k, i, render).Some?
    requires VerifyProof(Prove(k, i, render).value, e, render).Ok?
    ensures i.uri.Some? && u.scheme == i.uri.value.scheme && u.host == i.uri.value.host && u.path == i.uri.value.path
    ensures var r := VerifyProof(Prove(k, i, render).value, e.(uri := Some(v)), render);
            && (r.Ok? <==> v.scheme == u.scheme && v.host == u.host && v.path == u.path)
            && (r.Ok? ==> r == VerifyProof(Prove(k, i, render).value, e, render))
  {
    var s, t := Normalize(i.uri).value, Normalize(e.uri).value;
    assert render(s) == render(t);
    if Normalize(Some(v)).Some? && render(Normalize(Some(v)).value) == render(s) {
      assert Normalize(Some(v)).value == s;
    }
  }

  /** What acceptance means for an arbitrary token, whoever made it: one signature, by the
      public key embedded in the header, over this very header and payload; the type of a
      proof; an asymmetric algorithm; and claims that fit the request, the clock, the access
      token and the nonce that are expected. */
  lemma AcceptedMeans(j: Jws, e: Expected, render: Target -> string)
    requires MIN_DURATION <= e.maxAge <= MAX_DURATION
    ensures VerifyProof(j, e, render).Ok? <==>
              && j.Jws? && j.header.typ == "dpop+jwt"
              && (exists key: PublicKey ::
                    && key.kind != Other && j.header.jwk == Some(Jwk(key, false))
                    && j.signatures == [Signature(key, j.header, j.payload)])
              && j.header.alg in {"ES256", "ES384", "ES512", "RS256", "RS384", "RS512", "PS256", "PS384", "PS512"}
              && j.payload.Json? && ClaimsFit(j.payload.claims, e, render)
    ensures VerifyProof(j, e, render).Ok? ==>
              var v := VerifyProof(j, e, render).value;
              && v.typ == j.header.typ && v.alg == j.header.alg && Some(v.jwk) == j.header.jwk
              && v.thumbprint == v.jwk.key && v.claims == j.payload.claims
  {
    if j.Jws? {
      AsymmetricAre(j.header.alg);
      hide ASYMMETRIC;
      if j.payload.Json? {
        ClaimsMean(j.header, j.payload.claims, e, render);
      }
      hide CheckClaims, ClaimsFit;
      if j.header.jwk.Some? && |j.signatures| == 1 {
        var key := j.header.jwk.value.key;
        assert j.signatures == [Signature(key, j.header, j.payload)] <==> j.signatures[0] == Signature(key, j.header, j.payload);
      }
    }
  }

  /** The claims fit: there is an identifier, method and normalized URI are those of the
      request, the issue time is set and within the window either way, and an expected token
      or nonce is the one that is named. */
  ghost predicate ClaimsFit(c: Claims, e: Expected, render: Target -> string) {
    && c.jti != "" && c.htm == e.verb
    && e.uri.Some? && e.uri.value.scheme != "" && e.uri.value.host != ""
    && c.htu == render(Target(e.uri.value.scheme, e.uri.value.host, e.uri.value.path))
    && c.iat != 0
    && (var age := e.now - c.iat * NANOS;
        if e.maxAge == MAX_DURATION then -MAX_DURATION <= age
        else if e.maxAge == MIN_DURATION then age <= MIN_DURATION
        else -e.maxAge <= age <= e.maxAge)
    && (e.token.Some? ==> c.ath == Sha(e.token.value))
    && (e.nonce.Some? ==> c.nonce == e.nonce.value)
  }

  lemma ClaimsMean(h: Header, c: Claims, e: Expected, render: Target -> string)
    requires MIN_DURATION <= e.maxAge <= MAX_DURATION
    ensures forall jwk :: CheckClaims(h, jwk, c, e, render).Ok? <==> ClaimsFit(c, e, render)
    ensures forall jwk :: CheckClaims(h, jwk, c, e, render).Ok? ==>
              CheckClaims(h, jwk, c, e, render) == Ok(Verified(h.typ, h.alg, jwk, jwk.key, c))
  {
    WindowMeans(e.now - c.iat * NANOS, e.maxAge);
    hide Outside;
  }

  lemma AsymmetricAre(alg: string)
    ensures alg in ASYMMETRIC <==>
              alg in {"ES256", "ES384", "ES512", "RS256", "RS384", "RS512", "PS256", "PS384", "PS512"}
  {
    assert |ASYMMETRIC| == 9;
    assert ASYMMETRIC[0] == "ES256" && ASYMMETRIC[1] == "ES384" && ASYMMETRIC[2] == "ES512";
    assert ASYMMETRIC[3] == "RS256" && ASYMMETRIC[4] == "RS384" && ASYMMETRIC[5] == "RS512";
    assert ASYMMETRIC[6] == "PS256" && ASYMMETRIC[7] == "PS384" && ASYMMETRIC[8] == "PS512";
  }

  ghost predicate MadeBy(k: Key, render: Target -> string, log: seq<Inputs>, s: Signature) {
    exists n :: 0 <= n < |log| && Prove(k, log[n], render).Some? && s in Prove(k, log[n], render).value.signatures
  }

  /** Proof of possession.  The key may sign other tokens too, of another type, such as access
      tokens: as long as every signature of it that `j` carries and that covers the type of a
      proof was made by the builder, an accepted `j` with that key's thumbprint is one of the
      built proofs, and its token and nonce were built in if they were expected. */
  lemma AcceptedWasBuilt(k: Key, log: seq<Inputs>, j: Jws, e: Expected, render: Target -> string) returns (n: nat)
    requires j.Jws?
    requires forall s :: s in j.signatures && s.maker == k.public && s.header.typ == "dpop+jwt" ==> MadeBy(k, render, log, s)
    requires VerifyProof(j, e, render).Ok? && VerifyProof(j, e, render).value.thumbprint == k.public
    ensures n < |log| && Prove(k, log[n], render) == Some(j)
    ensures log[n].verb == e.verb && log[n].jti != ""
    ensures e.token.Some? ==> log[n].token == e.token
    ensures e.nonce.Some? ==> log[n].nonce == e.nonce.value
  {
    var s := j.signatures[0];
    assert s in j.signatures && MadeBy(k, render, log, s);
    n :| 0 <= n < |log| && Prove(k, log[n], render).Some? && s in Prove(k, log[n], render).value.signatures;
    assert j.signatures == [s];
  }

  /** A refused token is refused for the first thing that is wrong with it: its algorithm, a
      private key, the number of its signatures, its key, its type, its signature, its payload,
      and then its claims. */
  lemma FaultIsNamed(j: Jws, e: Expected, render: Target -> string)
    ensures var r := VerifyProof(j, e, render);
            if j.Malformed? || j.header.alg !in {"ES256", "ES384", "ES512", "RS256", "RS384", "RS512", "PS256", "PS384", "PS512"} then
              r == Err("alg")
            else
              var key := j.header.jwk;
              && (key.Some? && key.value.secret ==> r == Err("jwk"))
              && (!(key.Some? && key.value.secret) && |j.signatures| != 1 ==> r == Err("signature"))
              && (|j.signatures| == 1 && (key.None? || key.value.key.kind == Other) ==> r == Err("jwk"))
              && (|j.signatures| == 1 && key.Some? && !key.value.secret && key.value.key.kind != Other ==>
                    if j.header.typ != "dpop+jwt" then r == Err("typ")
                    else if j.signatures != [Signature(key.value.key, j.header, j.payload)] then r == Err("signature")
                    else if j.payload.NotJson? then r == Err("payload")
                    else
                      && (j.payload.claims.jti == "" ==> r == Err("jti"))
                      && (j.payload.claims.jti != "" && j.payload.claims.htm != e.verb ==> r == Err("htm"))
                      && (j.payload.claims.iat == 0 ==> r.Err? && r.error in {"jti", "htm", "htu", "iat"}))
  {
    if j.Jws? {
      AsymmetricAre(j.header.alg);
    }
    hide ASYMMETRIC, Outside;
  }

  /** An accepted proof that is held against another request fails by the name of what
      differs: the first that does, in the order method, URI, time, token, nonce. */
  lemma DifferenceIsNamed(j: Jws, e: Expected, d: Expected, render: Target -> string)
    requires VerifyProof(j, e, render).Ok?
    requires MIN_DURATION <= d.maxAge <= MAX_DURATION
    ensures var c, r := j.payload.claims, VerifyProof(j, d, render);
            if d.verb != e.verb then r == Err("htm")
            else if Normalize(d.uri).None? || render(Normalize(d.uri).value) != c.htu then r == Err("htu")
            else if !ClaimsFit(c, e.(maxAge := d.maxAge, now := d.now), render) then r == Err("iat")
            else if d.token.Some? && c.ath != Sha(d.token.value) then r == Err("ath")
            else if d.nonce.Some? && c.nonce != d.nonce.value then r == Err("nonce")
            else r == VerifyProof(j, e, render)
  {
    WindowMeans(d.now - j.payload.claims.iat * NANOS, d.maxAge);
    hide Outside;
  }

  /** A signature covers header and payload: no other proof can carry it. */
  lemma TamperingShows(k: Key, i: Inputs, j: Jws, e: Expected, render: Target -> string)
    requires Prove(k, i, render).Some? && j.Jws? && j.signatures == Prove(k, i, render).value.signatures
    requires j != Prove(k, i, render).value
    ensures VerifyProof(j, e, render).Err?
  {
  }
}
