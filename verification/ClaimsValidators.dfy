/** Composable claims validators: all-of and any-of trees with a third outcome, a bug or a
    panic in a member, which is neither an acceptance nor a clean rejection. */
module ClaimsValidators {
  import opened Options

  datatype Json = Null | Bool(b: bool) | Number(n: real) | Str(s: string) | Array(items: seq<Json>) | Object(members: map<string, Json>)

  /** The decoded claims; `None` is a claim whose JSON does not decode. */
  type Claims = map<string, Option<Json>>

  datatype Outcome =
    | Accept
    | Reject(reason: string, claim: string)
    | Bug(error: string)
    | Panic(value: string)

  datatype Validator =
    | Leaf(check: Claims -> Outcome)
    | All(members: seq<Validator>)
    | Any(members: seq<Validator>)

  predicate Faulty(o: Outcome) {
    o.Bug? || o.Panic?
  }

  /** The construction, which refuses an unknown mode and an empty any-of. */
  function Combine(members: seq<Validator>, mode: string): Result<Validator, string> {
    if mode != "all" && mode != "any" then Err("unknown mode")
    else if mode == "any" && members == [] then Err("empty any-of")
    else if mode == "all" then Ok(All(members))
    else Ok(Any(members))
  }

  function JoinWith(parts: seq<string>, sep: string): string {
    if parts == [] then ""
    else if |parts| == 1 then parts[0]
    else parts[0] + sep + JoinWith(parts[1..], sep)
  }

  function Aggregate(reasons: seq<string>): Outcome {
    Reject("no validator accepted the claims: " + JoinWith(reasons, "; "), "")
  }

  // ---- left-to-right evaluation ----

  function Eval(v: Validator, c: Claims): Outcome {
    match v
    case Leaf(check) => check(c)
    case All(ms) => EvalAll(ms, c)
    case Any(ms) => EvalAny(ms, c, [])
  }

  function EvalAll(ms: seq<Validator>, c: Claims): Outcome {
    if ms == [] then Accept
    else
      var o := Eval(ms[0], c);
      if o != Accept then o else EvalAll(ms[1..], c)
  }

  /** `reasons` are those of the members tried so far. */
  function EvalAny(ms: seq<Validator>, c: Claims, reasons: seq<string>): Outcome {
    if ms == [] then Aggregate(reasons)
    else
      var o := Eval(ms[0], c);
      if o.Reject? then EvalAny(ms[1..], c, reasons + [o.reason]) else o
  }

  /** The closures that the combinator returns. */
  method Validate(v: Validator, c: Claims) returns (o: Outcome)
    ensures o == Eval(v, c)
    decreases v
  {
    match v
    case Leaf(check) =>
      o := check(c);
    case All(ms) =>
      for i := 0 to |ms|
        invariant Eval(v, c) == EvalAll(ms[i..], c)
      {
        assert ms[i..][1..] == ms[i + 1..];
        o := Validate(ms[i], c);
        if o != Accept {
          return;
        }
      }
      o := Accept;
    case Any(ms) =>
      var reasons := [];
      assert ms[0..] == ms;
      for i := 0 to |ms|
        invariant Eval(v, c) == EvalAny(ms[i..], c, reasons)
      {
        assert ms[i..][1..] == ms[i + 1..];
        o := Validate(ms[i], c);
        if !o.Reject? {
          return;
        }
        reasons := reasons + [o.reason];
      }
      o := Aggregate(reasons);
  }

  datatype Verdict = Trusted | Rejected(reason: string, claim: string) | FailedClosed(cause: string)

  /** Only an acceptance lets a token through; a bug or a panic fails it closed. */
  method RunClaimsValidator(v: Validator, c: Claims) returns (r: Verdict)
    ensures r == Trusted <==> Eval(v, c) == Accept
    ensures r.Rejected? <==> Eval(v, c).Reject?
    ensures r.Rejected? ==> Reject(r.reason, r.claim) == Eval(v, c)
    ensures r.FailedClosed? <==> Faulty(Eval(v, c))
  {
    var o := Validate(v, c);
    match o
    case Accept => r := Trusted;
    case Reject(reason, claim) => r := Rejected(reason, claim);
    case Bug(error) => r := FailedClosed("jwt: claims validation failed: " + error);
    case Panic(value) => r := FailedClosed("jwt: claims validation failed: validator panicked: " + value);
  }

  // ---- what a list of members evaluates to ----

  /** All-of: every member accepts, or the outcome is that of the first that does not. */
  lemma {:induction false} AllMeans(ms: seq<Validator>, c: Claims)
    ensures EvalAll(ms, c) == Accept <==> forall i :: 0 <= i < |ms| ==> Eval(ms[i], c) == Accept
    ensures EvalAll(ms, c) != Accept ==>
              exists i :: 0 <= i < |ms| && Eval(ms[i], c) == EvalAll(ms, c) && forall j :: 0 <= j < i ==> Eval(ms[j], c) == Accept
  {
    if ms == [] {
    } else if Eval(ms[0], c) != Accept {
      assert Eval(ms[0], c) == EvalAll(ms, c);
    } else {
      AllMeans(ms[1..], c);
      if EvalAll(ms, c) != Accept {
        var i :| 0 <= i < |ms[1..]| && Eval(ms[1..][i], c) == EvalAll(ms, c) && forall j :: 0 <= j < i ==> Eval(ms[1..][j], c) == Accept;
        forall j | 0 <= j < i + 1 ensures Eval(ms[j], c) == Accept {
          assert j > 0 ==> ms[j] == ms[1..][j - 1];
        }
        assert Eval(ms[i + 1], c) == EvalAll(ms, c);
      }
    }
  }

  function ReasonsOf(ms: seq<Validator>, c: Claims): seq<string> {
    if ms == [] then []
    else
      var o := Eval(ms[|ms| - 1], c);
      ReasonsOf(ms[..|ms| - 1], c) + if o.Reject? then [o.reason] else []
  }

  lemma {:induction false} ReasonsCons(m: Validator, ms: seq<Validator>, c: Claims)
    ensures ReasonsOf([m] + ms, c) == ReasonsOf([m], c) + ReasonsOf(ms, c)
  {
    var s := [m] + ms;
    if ms == [] {
      assert s == [m];
    } else {
      assert s[..|s| - 1] == [m] + ms[..|ms| - 1];
      ReasonsCons(m, ms[..|ms| - 1], c);
    }
  }

  /** Any-of: the outcome is that of the first member that does not cleanly reject, or if
      all do, one rejection that lists their reasons in order. */
  lemma {:induction false} AnyMeans(ms: seq<Validator>, c: Claims, before: seq<string>)
    ensures EvalAny(ms, c, before).Reject? <==> forall i :: 0 <= i < |ms| ==> Eval(ms[i], c).Reject?
    ensures EvalAny(ms, c, before).Reject? ==> EvalAny(ms, c, before) == Aggregate(before + ReasonsOf(ms, c))
    ensures !EvalAny(ms, c, before).Reject? ==>
              exists i :: 0 <= i < |ms| && Eval(ms[i], c) == EvalAny(ms, c, before) && forall j :: 0 <= j < i ==> Eval(ms[j], c).Reject?
  {
    if ms == [] {
      assert before + ReasonsOf(ms, c) == before;
    } else if !Eval(ms[0], c).Reject? {
      assert Eval(ms[0], c) == EvalAny(ms, c, before);
    } else {
      var o, rest := Eval(ms[0], c), ms[1..];
      AnyMeans(rest, c, before + [o.reason]);
      ReasonsCons(ms[0], rest, c);
      assert [ms[0]] + rest == ms;
      assert ReasonsOf([ms[0]], c) == [o.reason] by {
        assert [ms[0]][..0] == [];
      }
      assert before + [o.reason] + ReasonsOf(rest, c) == before + ReasonsOf(ms, c);
      if !EvalAny(ms, c, before).Reject? {
        var i :| 0 <= i < |rest| && Eval(rest[i], c) == EvalAny(ms, c, before) && forall j :: 0 <= j < i ==> Eval(rest[j], c).Reject?;
        forall j | 0 <= j < i + 1 ensures Eval(ms[j], c).Reject? {
          assert j > 0 ==> ms[j] == rest[j - 1];
        }
        assert Eval(ms[i + 1], c) == EvalAny(ms, c, before);
      }
    }
  }

  lemma {:induction false} ReasonsAre(ms: seq<Validator>, c: Claims, reasons: seq<string>)
    requires |reasons| == |ms|
    requires forall i :: 0 <= i < |ms| ==> Eval(ms[i], c).Reject? && Eval(ms[i], c).reason == reasons[i]
    ensures ReasonsOf(ms, c) == reasons
  {
    if ms == [] {
    } else {
      var n := |ms| - 1;
      ReasonsAre(ms[..n], c, reasons[..n]);
      assert reasons == reasons[..n] + [reasons[n]];
    }
  }

  /** When every member of an any-of rejects, the rejection names no claim and lists all their
      reasons, each once and in the order of the members. */
  lemma AllReasonsAreGiven(ms: seq<Validator>, c: Claims, reasons: seq<string>)
    requires |reasons| == |ms|
    requires forall i :: 0 <= i < |ms| ==> Eval(ms[i], c).Reject? && Eval(ms[i], c).reason == reasons[i]
    ensures Eval(Any(ms), c) == Reject("no validator accepted the claims: " + JoinWith(reasons, "; "), "")
  {
    AnyMeans(ms, c, []);
    ReasonsAre(ms, c, reasons);
    assert [] + reasons == reasons;
  }

  /** What construction promises.  It refuses an unknown mode, and an empty any-of, which
      would reject every token; the all-of it builds accepts exactly if every member does,
      and the any-of exactly if a member accepts and those before it reject cleanly. */
  lemma CombineMeans(ms: seq<Validator>, mode: string, c: Claims)
    ensures Combine(ms, mode).Ok? <==> mode == "all" || (mode == "any" && ms != [])
    ensures mode == "all" ==>
              (Eval(Combine(ms, mode).value, c) == Accept <==> forall i :: 0 <= i < |ms| ==> Eval(ms[i], c) == Accept)
    ensures mode == "any" && ms != [] ==>
              var o := Eval(Combine(ms, mode).value, c);
              && (o == Accept <==>
                    exists i :: 0 <= i < |ms| && Eval(ms[i], c) == Accept && forall j :: 0 <= j < i ==> Eval(ms[j], c).Reject?)
              && (o.Reject? <==> forall i :: 0 <= i < |ms| ==> Eval(ms[i], c).Reject?)
    ensures mode == "any" && ms == [] ==> Eval(Any(ms), c).Reject?
  {
    AllMeans(ms, c);
    AnyMeans(ms, c, []);
    hide EvalAll, EvalAny;
    assert "all"[1] != "any"[1];
  }

  // ---- trees of clean leaves are monotone formulas ----

  ghost predicate Clean(v: Validator, c: Claims) {
    match v
    case Leaf(check) => !Faulty(check(c))
    case All(ms) => forall m :: m in ms ==> Clean(m, c)
    case Any(ms) => forall m :: m in ms ==> Clean(m, c)
  }

  /** The tree as a boolean formula over its leaves. */
  ghost predicate Truth(v: Validator, c: Claims) {
    match v
    case Leaf(check) => check(c) == Accept
    case All(ms) => forall m :: m in ms ==> Truth(m, c)
    case Any(ms) => exists m :: m in ms && Truth(m, c)
  }

  /** A clean tree accepts exactly if its formula is true, and otherwise rejects cleanly. */
  lemma {:induction false} CleanIsTruth(v: Validator, c: Claims)
    requires Clean(v, c)
    ensures Eval(v, c) == Accept <==> Truth(v, c)
    ensures !Faulty(Eval(v, c))
    decreases v
  {
    match v
    case Leaf(_) =>
    case All(ms) =>
      forall m | m in ms ensures (Eval(m, c) == Accept <==> Truth(m, c)) && !Faulty(Eval(m, c)) {
        CleanIsTruth(m, c);
      }
      AllMeans(ms, c);
    case Any(ms) =>
      forall m | m in ms ensures (Eval(m, c) == Accept <==> Truth(m, c)) && !Faulty(Eval(m, c)) {
        CleanIsTruth(m, c);
      }
      AnyMeans(ms, c, []);
  }

  /** The same tree up to the order and repetition of members, at every level. */
  ghost predicate Similar(v: Validator, w: Validator)
    decreases v
  {
    match v
    case Leaf(check) => w == v
    case All(ms) => w.All? && SimilarMembers(v, ms, w.members)
    case Any(ms) => w.Any? && SimilarMembers(v, ms, w.members)
  }

  ghost predicate SimilarMembers(v: Validator, ms: seq<Validator>, ns: seq<Validator>)
    requires forall m :: m in ms ==> m < v
    decreases v, 0
  {
    && (forall m :: m in ms ==> exists n :: n in ns && Similar(m, n))
    && (forall n :: n in ns ==> exists m :: m in ms && Similar(m, n))
  }

  ghost predicate SameTruth(m: Validator, n: Validator, c: Claims) {
    (Truth(m, c) <==> Truth(n, c)) && (Clean(m, c) <==> Clean(n, c))
  }

  /** Each member of `ns` has one of `ms` that means the same. */
  ghost predicate Covered(ms: seq<Validator>, ns: seq<Validator>, c: Claims) {
    forall n :: n in ns ==> exists m :: m in ms && SameTruth(m, n, c)
  }

  lemma CoveredTruth(ms: seq<Validator>, ns: seq<Validator>, c: Claims)
    requires Covered(ms, ns, c)
    ensures (forall m :: m in ms ==> Truth(m, c)) ==> (forall n :: n in ns ==> Truth(n, c))
    ensures (forall m :: m in ms ==> Clean(m, c)) ==> (forall n :: n in ns ==> Clean(n, c))
    ensures (exists n :: n in ns && Truth(n, c)) ==> (exists m :: m in ms && Truth(m, c))
  {
    hide Truth, Clean;
    forall n | n in ns ensures exists m :: m in ms && SameTruth(m, n, c) {
    }
  }

  lemma SameTruthIs(v: Validator, w: Validator, c: Claims)
    requires (Truth(v, c) <==> Truth(w, c)) && (Clean(v, c) <==> Clean(w, c))
    ensures SameTruth(v, w, c)
  {
  }

  lemma MembersTruth(v: Validator, w: Validator, c: Claims)
    requires !v.Leaf? && !w.Leaf? && v.All? == w.All?
    requires Covered(v.members, w.members, c) && Covered(w.members, v.members, c)
    ensures SameTruth(v, w, c)
  {
    hide Covered;
    var ms, ns := v.members, w.members;
    CoveredTruth(ms, ns, c);
    CoveredTruth(ns, ms, c);
    hide SameTruth;
    if v.All? {
      assert v == All(ms) && w == All(ns);
      assert (Truth(v, c) <==> Truth(w, c)) && (Clean(v, c) <==> Clean(w, c));
    } else {
      assert v == Any(ms) && w == Any(ns);
      assert (Truth(v, c) <==> Truth(w, c)) && (Clean(v, c) <==> Clean(w, c));
    }
    SameTruthIs(v, w, c);
  }

  lemma BothCovered(v: Validator, ms: seq<Validator>, ns: seq<Validator>, c: Claims)
    requires (forall m :: m in ms ==> m < v) && SimilarMembers(v, ms, ns)
    requires forall m, n :: m in ms && n in ns && Similar(m, n) ==> SameTruth(m, n, c)
    ensures Covered(ms, ns, c) && Covered(ns, ms, c)
  {
    assert forall m, n :: SameTruth(m, n, c) <==> SameTruth(n, m, c);
    hide SameTruth, Similar;
  }

  lemma {:induction false} SimilarTruth(v: Validator, w: Validator, c: Claims)
    requires Similar(v, w)
    ensures SameTruth(v, w, c)
    decreases v
  {
    hide Truth, Clean, SameTruth, SimilarMembers;
    if v.Leaf? {
      SameTruthIs(v, w, c);
    } else {
      var ms, ns := v.members, w.members;
      assert SimilarMembers(v, ms, ns);
      forall m, n | m in ms && n in ns && Similar(m, n) ensures SameTruth(m, n, c) {
        SimilarTruth(m, n, c);
      }
      BothCovered(v, ms, ns, c);
      MembersTruth(v, w, c);
    }
  }

  /** Reordering or repeating members anywhere in a clean tree leaves the verdict alone. */
  lemma OrderIsFree(v: Validator, w: Validator, c: Claims)
    requires Similar(v, w) && Clean(v, c)
    ensures Eval(v, c) == Accept <==> Eval(w, c) == Accept
  {
    SimilarTruth(v, w, c);
    CleanIsTruth(v, c);
    CleanIsTruth(w, c);
  }

  /** Turning rejections of leaves into acceptances never turns an acceptance of a clean
      tree into a rejection. */
  ghost predicate Weaker(v: Validator, c: Claims, d: Claims) {
    match v
    case Leaf(check) => check(c) == Accept ==> check(d) == Accept
    case All(ms) => forall m :: m in ms ==> Weaker(m, c, d)
    case Any(ms) => forall m :: m in ms ==> Weaker(m, c, d)
  }

  lemma {:induction false} TruthGrows(v: Validator, c: Claims, d: Claims)
    requires Weaker(v, c, d) && Truth(v, c)
    ensures Truth(v, d)
    decreases v
  {
    if !v.Leaf? {
      forall m | m in v.members && Truth(m, c) ensures Truth(m, d) {
        TruthGrows(m, c, d);
      }
    }
  }

  lemma Monotone(v: Validator, c: Claims, d: Claims)
    requires Weaker(v, c, d) && Clean(v, c) && Clean(v, d)
    requires Eval(v, c) == Accept
    ensures Eval(v, d) == Accept
  {
    CleanIsTruth(v, c);
    CleanIsTruth(v, d);
    TruthGrows(v, c, d);
  }

  // ---- with faulty members the order matters, in any-of only ----

  function ToFront<T>(s: seq<T>, i: nat): seq<T>
    requires i < |s|
  {
    [s[i]] + s[..i] + s[i + 1..]
  }

  lemma ToFrontPermutes<T>(s: seq<T>, i: nat)
    requires i < |s|
    ensures multiset(ToFront(s, i)) == multiset(s)
  {
    assert s == s[..i] + [s[i]] + s[i + 1..];
  }

  ghost predicate OrderDecides(ms: seq<Validator>, c: Claims, p: seq<Validator>, q: seq<Validator>) {
    && multiset(p) == multiset(ms) && multiset(q) == multiset(ms)
    && EvalAny(p, c, []) == Accept && EvalAny(q, c, []) != Accept
  }

  /** Whether some order of the members accepts and another does not: exactly if one member
      accepts and another is faulty. */
  lemma AnyOrderMatters(ms: seq<Validator>, c: Claims)
    ensures (exists p, q :: OrderDecides(ms, c, p, q))
            <==> (exists m :: m in ms && Eval(m, c) == Accept) && (exists m :: m in ms && Faulty(Eval(m, c)))
  {
    if (exists m :: m in ms && Eval(m, c) == Accept) && (exists m :: m in ms && Faulty(Eval(m, c))) {
      var i :| 0 <= i < |ms| && Eval(ms[i], c) == Accept;
      var j :| 0 <= j < |ms| && Faulty(Eval(ms[j], c));
      ToFrontPermutes(ms, i);
      ToFrontPermutes(ms, j);
      var p, q := ToFront(ms, i), ToFront(ms, j);
      assert p[0] == ms[i] && q[0] == ms[j];
      assert OrderDecides(ms, c, p, q);
    } else {
      forall p, q | OrderDecides(ms, c, p, q) ensures false {
        OrderDecided(ms, c, p, q);
      }
    }
  }

  lemma OrderDecided(ms: seq<Validator>, c: Claims, p: seq<Validator>, q: seq<Validator>)
    requires OrderDecides(ms, c, p, q)
    ensures (exists m :: m in ms && Eval(m, c) == Accept) && (exists m :: m in ms && Faulty(Eval(m, c)))
  {
    AnyMeans(p, c, []);
    AnyMeans(q, c, []);
    hide Eval, EvalAny;
    var i :| 0 <= i < |p| && Eval(p[i], c) == Accept;
    assert p[i] in multiset(p) && p[i] in ms && p[i] in multiset(q) && p[i] in q;
    assert !EvalAny(q, c, []).Reject?;
    var k :| 0 <= k < |q| && Eval(q[k], c) == EvalAny(q, c, []);
    assert q[k] in multiset(q) && q[k] in ms && Faulty(Eval(q[k], c));
  }

  /** All-of accepts in every order or in none, faulty members or not. */
  lemma AllOrderIsFree(ms: seq<Validator>, ns: seq<Validator>, c: Claims)
    requires multiset(ms) == multiset(ns)
    ensures EvalAll(ms, c) == Accept <==> EvalAll(ns, c) == Accept
  {
    AllMeans(ms, c);
    AllMeans(ns, c);
    forall i | 0 <= i < |ms| ensures ms[i] in ns {
      assert ms[i] in multiset(ns);
    }
    forall i | 0 <= i < |ns| ensures ns[i] in ms {
      assert ns[i] in multiset(ms);
    }
  }

  // ---- flattening ----

  lemma {:induction false} EvalAllPlus(a: seq<Validator>, b: seq<Validator>, c: Claims)
    ensures EvalAll(a + b, c) == if EvalAll(a, c) != Accept then EvalAll(a, c) else EvalAll(b, c)
  {
    if a == [] {
      assert a + b == b;
    } else {
      assert (a + b)[1..] == a[1..] + b;
      EvalAllPlus(a[1..], b, c);
    }
  }

  /** An all-of inside an all-of flattens, with the very same outcome, faults included. */
  lemma AllFlattens(a: seq<Validator>, b: seq<Validator>, d: seq<Validator>, c: Claims)
    ensures EvalAll(a + [All(b)] + d, c) == EvalAll(a + b + d, c)
  {
    EvalAllPlus(a + [All(b)], d, c);
    EvalAllPlus(a, [All(b)], c);
    EvalAllPlus(a + b, d, c);
    EvalAllPlus(a, b, c);
    assert [All(b)][1..] == [];
  }

  lemma {:induction false} EvalAnyPlus(a: seq<Validator>, b: seq<Validator>, c: Claims, before: seq<string>)
    ensures EvalAny(a + b, c, before) ==
            if !EvalAny(a, c, before).Reject? then EvalAny(a, c, before) else EvalAny(b, c, before + ReasonsOf(a, c))
  {
    if a == [] {
      assert a + b == b && before + ReasonsOf(a, c) == before;
    } else {
      assert (a + b)[1..] == a[1..] + b;
      if Eval(a[0], c).Reject? {
        var r := Eval(a[0], c).reason;
        EvalAnyPlus(a[1..], b, c, before + [r]);
        ReasonsCons(a[0], a[1..], c);
        assert [a[0]] + a[1..] == a;
        assert ReasonsOf([a[0]], c) == [r] by {
          assert [a[0]][..0] == [];
        }
        assert before + [r] + ReasonsOf(a[1..], c) == before + ReasonsOf(a, c);
      }
    }
  }

  lemma EvalAnyBefore(a: seq<Validator>, c: Claims, r: seq<string>, s: seq<string>)
    ensures EvalAny(a, c, r).Reject? <==> EvalAny(a, c, s).Reject?
    ensures !EvalAny(a, c, r).Reject? ==> EvalAny(a, c, r) == EvalAny(a, c, s)
  {
    if a == [] {
    } else if Eval(a[0], c).Reject? {
      EvalAnyBefore(a[1..], c, r + [Eval(a[0], c).reason], s + [Eval(a[0], c).reason]);
    }
  }

  /** An any-of inside an any-of flattens up to the wording of a rejection. */
  lemma AnyFlattens(a: seq<Validator>, b: seq<Validator>, d: seq<Validator>, c: Claims)
    ensures var nested, flat := EvalAny(a + [Any(b)] + d, c, []), EvalAny(a + b + d, c, []);
            nested == flat || (nested.Reject? && flat.Reject?)
  {
    var ra := ReasonsOf(a, c);
    EvalAnyPlus(a + [Any(b)], d, c, []);
    EvalAnyPlus(a, [Any(b)], c, []);
    EvalAnyPlus(a + b, d, c, []);
    EvalAnyPlus(a, b, c, []);
    assert [] + ra == ra && [Any(b)][1..] == [];
    EvalAnyBefore(b, c, [], ra);
    EvalAnyBefore(d, c, [] + ReasonsOf(a + [Any(b)], c), [] + ReasonsOf(a + b, c));
  }
}
