/** The scope validator: which scopes a token grants, and which of the required are missing. */
module ScopeValidator {
  import opened Options
  import opened ClaimsValidators

  /** Unicode white space, as the splitting of words sees it. */
  predicate Space(c: char) {
    || '\t' <= c <= '\r' || c == ' '
    || c == '\U{85}' || c == '\U{A0}' || c == '\U{1680}' || '\U{2000}' <= c <= '\U{200A}'
    || c == '\U{2028}' || c == '\U{2029}' || c == '\U{202F}' || c == '\U{205F}' || c == '\U{3000}'
  }

  function WordLength(s: string): (n: nat)
    ensures n <= |s|
    ensures forall i :: 0 <= i < n ==> !Space(s[i])
    ensures n < |s| ==> Space(s[n])
  {
    if s == "" || Space(s[0]) then 0 else 1 + WordLength(s[1..])
  }

  predicate Word(w: string) {
    w != "" && forall i :: 0 <= i < |w| ==> !Space(w[i])
  }

  /** The words of a text. */
  function Fields(s: string): (words: seq<string>)
    ensures forall i :: 0 <= i < |words| ==> Word(words[i])
    decreases |s|
  {
    if s == "" then []
    else if Space(s[0]) then Fields(s[1..])
    else
      var n := WordLength(s);
      [s[..n]] + Fields(s[n..])
  }

  /** A claim that is absent, or does not decode, counts as null. */
  function Decode(c: Claims, name: string): Json {
    if name in c && c[name].Some? then c[name].value else Null
  }

  function ScopesOf(value: Json): set<string> {
    match value
    case Str(text) => set s | s in Fields(text)
    case Array(items) => set j | j in items && j.Str? :: j.s
    case _ => {}
  }

  /** `scope` counts unless it is absent, null or empty; only then `scp` does. */
  function Granted(c: Claims): set<string> {
    var scope := Decode(c, "scope");
    ScopesOf(if scope == Null || scope == Str("") then Decode(c, "scp") else scope)
  }

  method ScopesFromValue(value: Json) returns (granted: set<string>)
    ensures granted == ScopesOf(value)
  {
    granted := {};
    match value
    case Str(text) =>
      var words := Fields(text);
      for i := 0 to |words|
        invariant granted == set s | s in words[..i]
      {
        granted := granted + {words[i]};
        assert words[..i + 1] == words[..i] + [words[i]];
      }
      assert words[..|words|] == words;
    case Array(items) =>
      for i := 0 to |items|
        invariant granted == set j | j in items[..i] && j.Str? :: j.s
      {
        assert items[..i + 1] == items[..i] + [items[i]];
        if items[i].Str? {
          granted := granted + {items[i].s};
        }
      }
      assert items[..|items|] == items;
    case _ =>
  }

  /** The required scopes that are not granted, in order. */
  function Missing(required: seq<string>, granted: set<string>): seq<string> {
    if required == [] then []
    else
      var n := |required| - 1;
      Missing(required[..n], granted) + if required[n] in granted then [] else [required[n]]
  }

  function ScopeOutcome(required: seq<string>, c: Claims): Outcome {
    var missing := Missing(required, Granted(c));
    if missing == [] then Accept else Reject("missing required scope(s): " + JoinWith(missing, ", "), "scope")
  }

  method CheckScopes(required: seq<string>, c: Claims) returns (o: Outcome)
    ensures o == ScopeOutcome(required, c)
  {
    var scope := Decode(c, "scope");
    var value := scope;
    if scope == Null || scope == Str("") {
      value := Decode(c, "scp");
    }
    var granted := ScopesFromValue(value);
    var missing := [];
    for i := 0 to |required|
      invariant missing == Missing(required[..i], granted)
    {
      assert required[..i + 1][..i] == required[..i];
      if required[i] !in granted {
        missing := missing + [required[i]];
      }
    }
    assert required[..|required|] == required;
    if |missing| > 0 {
      return Reject("missing required scope(s): " + JoinWith(missing, ", "), "scope");
    }
    o := Accept;
  }

  /** The validator, which needs at least one scope. */
  function RequireScopes(required: seq<string>): Result<Validator, string> {
    if required == [] then Err("no scopes") else Ok(Leaf(c => ScopeOutcome(required, c)))
  }

  // ---- what it means ----

  lemma {:induction false} MissingMeans(required: seq<string>, granted: set<string>)
    ensures forall s :: s in Missing(required, granted) <==> s in required && s !in granted
  {
    if required == [] {
    } else {
      var n := |required| - 1;
      MissingMeans(required[..n], granted);
      assert forall s :: s in required <==> s in required[..n] || s == required[n];
    }
  }

  /** The missing scopes are found one by one, in the order in which they are required and as
      often. */
  lemma {:induction false} MissingInOrder(a: seq<string>, b: seq<string>, scope: string, granted: set<string>)
    ensures Missing(a + b, granted) == Missing(a, granted) + Missing(b, granted)
    ensures Missing([scope], granted) == if scope in granted then [] else [scope]
  {
    assert [scope][..0] == [];
    if b == [] {
      assert a + b == a;
    } else {
      assert (a + b)[..|a| + |b| - 1] == a + b[..|b| - 1];
      MissingInOrder(a, b[..|b| - 1], scope, granted);
    }
  }

  /** The token passes exactly if every required scope is granted, and is otherwise cleanly
      rejected, for the claim `scope` and by the names of what is missing. */
  lemma ScopesAccept(required: seq<string>, c: Claims)
    ensures ScopeOutcome(required, c) == Accept <==> forall s :: s in required ==> s in Granted(c)
    ensures !Faulty(ScopeOutcome(required, c))
    ensures ScopeOutcome(required, c) != Accept ==>
              ScopeOutcome(required, c) ==
              Reject("missing required scope(s): " + JoinWith(Missing(required, Granted(c)), ", "), "scope")
    ensures RequireScopes(required).Ok? <==> required != []
    ensures required != [] ==> Eval(RequireScopes(required).value, c) == ScopeOutcome(required, c)
  {
    var missing := Missing(required, Granted(c));
    MissingMeans(required, Granted(c));
    if missing != [] {
      assert missing[0] in missing;
    }
  }

  /** The claim of that name, if there is one and it decodes. */
  ghost function Claim(c: Claims, name: string): Option<Json> {
    if name in c then c[name] else None
  }

  ghost predicate Grants(claim: Option<Json>, s: string) {
    claim.Some? && ((claim.value.Str? && s in Fields(claim.value.s)) || (claim.value.Array? && Str(s) in claim.value.items))
  }

  /** What grants `s`: a word of the `scope` text or a string of the `scope` array; or, if
      `scope` is absent, null or empty, the same for `scp`. */
  lemma GrantedMeans(c: Claims, s: string)
    ensures s in Granted(c) <==>
              || Grants(Claim(c, "scope"), s)
              || (Claim(c, "scope") in {None, Some(Null), Some(Str(""))} && Grants(Claim(c, "scp"), s))
  {
    StringsOf(Decode(c, "scope"), s);
    StringsOf(Decode(c, "scp"), s);
    assert Fields("") == [];
  }

  lemma StringsOf(value: Json, s: string)
    ensures s in ScopesOf(value) <==> (value.Str? && s in Fields(value.s)) || (value.Array? && Str(s) in value.items)
  {
    if value.Array? {
      assert Str(s) in value.items ==> Str(s).s in ScopesOf(value);
    }
  }

  /** A malformed `scope` fails closed, whatever `scp` holds. */
  lemma MalformedFailsClosed(required: seq<string>, c: Claims)
    requires required != []
    requires var scope := Claim(c, "scope"); scope.Some? && (scope.value.Bool? || scope.value.Number? || scope.value.Object?)
    ensures ScopeOutcome(required, c).Reject?
  {
    ScopesAccept(required, c);
    assert required[0] in required;
  }

  /** Requiring two lists of scopes is requiring both. */
  lemma ScopesSplit(a: seq<string>, b: seq<string>, c: Claims)
    requires a != [] && b != []
    ensures Eval(RequireScopes(a + b).value, c) == Accept <==>
            Eval(All([RequireScopes(a).value, RequireScopes(b).value]), c) == Accept
  {
    ScopesAccept(a, c);
    ScopesAccept(b, c);
    ScopesAccept(a + b, c);
    var both := [RequireScopes(a).value, RequireScopes(b).value];
    AllMeans(both, c);
    assert Eval(both[0], c) == ScopeOutcome(a, c) && Eval(both[1], c) == ScopeOutcome(b, c);
  }

  /** White space separates words, wherever it stands, and nothing else does. */
  lemma {:induction false} FieldsSplit(a: string, gap: char, b: string)
    requires Space(gap)
    ensures Fields(a + [gap] + b) == Fields(a) + Fields(b)
    decreases |a|
  {
    var s := a + [gap] + b;
    if a == "" {
      assert s[1..] == b;
    } else if Space(a[0]) {
      assert s[1..] == a[1..] + [gap] + b;
      FieldsSplit(a[1..], gap, b);
    } else {
      var n := WordLength(a);
      assert WordLength(s) == n by {
        assert forall i :: 0 <= i < n ==> s[i] == a[i];
        assert s[n] == if n < |a| then a[n] else gap;
      }
      assert s[..n] == a[..n] && s[n..] == a[n..] + [gap] + b;
      FieldsSplit(a[n..], gap, b);
    }
  }

  lemma FieldsWord(w: string)
    requires Word(w)
    ensures Fields(w) == [w] && Fields("") == []
  {
    WordThen(w, "");
    assert w + "" == w;
  }

  // ---- writing a scope claim and reading it ----

  lemma {:induction false} WordThen(w: string, rest: string)
    requires Word(w) && (rest == "" || Space(rest[0]))
    ensures Fields(w + rest) == [w] + Fields(rest)
  {
    var s := w + rest;
    assert s[0] == w[0];
    assert WordLength(s) == |w| by {
      assert forall i :: 0 <= i < |w| ==> s[i] == w[i];
      assert rest != "" ==> s[|w|] == rest[0];
    }
    assert s[..|w|] == w && s[|w|..] == rest;
  }

  /** Words joined by single spaces are read back as they were. */
  lemma {:induction false} FieldsJoin(words: seq<string>)
    requires forall i :: 0 <= i < |words| ==> Word(words[i])
    ensures Fields(JoinWith(words, " ")) == words
  {
    if words == [] {
    } else if |words| == 1 {
      WordThen(words[0], "");
      assert words[0] + "" == words[0];
    } else {
      var tail := JoinWith(words[1..], " ");
      FieldsJoin(words[1..]);
      WordThen(words[0], " " + tail);
      assert words[0] + " " + tail == words[0] + (" " + tail);
      assert (" " + tail)[1..] == tail;
    }
  }
}
