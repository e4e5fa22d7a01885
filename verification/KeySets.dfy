/** Keys on the heap: parsing a JWK Set, and copying keys so that nobody shares an
    `Extra` map with anybody else.

    Every slice and every Extra map carries a ghost owner.  `SHARED` owns the cache's master
    copies; every copy that is handed out gets an owner allocated for it, so no two copies
    ever have the same one.  A JSON document is taken in decoded form, one `Member` per array
    element. */
module KeySets {
  import opened Options

  /** Whoever may write to a slice or a map. */
  class Owner {
    ghost constructor ()
    {
    }
  }

  ghost const SHARED: Owner? := null

  datatype Params = Params(kty: string, kid: string, use: string, alg: string,
                           n: string, e: string, crv: string, x: string, y: string)

  class ExtraMap {
    ghost const owner: Owner?
    var fields: map<string, string>

    constructor (ghost owner: Owner?, fields: map<string, string>)
      ensures this.owner == owner && this.fields == fields
    {
      this.owner := owner;
      this.fields := fields;
    }
  }

  datatype Jwk = Jwk(params: Params, extra: ExtraMap?)

  class KeySlice {
    ghost const owner: Owner?
    var keys: seq<Jwk>

    constructor (ghost owner: Owner?, keys: seq<Jwk>)
      ensures this.owner == owner && this.keys == keys
    {
      this.owner := owner;
      this.keys := keys;
    }
  }

  /** A key as a value: what a reader of it observes. */
  datatype KeyVal = KeyVal(params: Params, extra: Option<map<string, string>>)

  ghost function Extra(k: Jwk): set<ExtraMap> {
    if k.extra == null then {} else {k.extra}
  }

  ghost function KeyOf(k: Jwk): KeyVal
    reads Extra(k)
  {
    KeyVal(k.params, if k.extra == null then None else Some(k.extra.fields))
  }

  ghost function Extras(ks: seq<Jwk>): set<ExtraMap> {
    set k | k in ks && k.extra != null :: k.extra
  }

  ghost function KeysOf(ks: seq<Jwk>): seq<KeyVal>
    reads Extras(ks)
  {
    if ks == [] then []
    else
      assert ks[0] in ks && forall k :: k in ks[1..] ==> k in ks;
      [KeyOf(ks[0])] + KeysOf(ks[1..])
  }

  ghost predicate AllOwned(ks: seq<Jwk>, owner: Owner?) {
    forall x :: x in Extras(ks) ==> x.owner == owner
  }

  ghost predicate Owned(s: KeySlice, owner: Owner?)
    reads s
  {
    s.owner == owner && AllOwned(s.keys, owner)
  }

  /** All of a slice belongs to one owner, who is not the cache. */
  ghost predicate Private(s: KeySlice)
    reads s
  {
    s.owner != SHARED && Owned(s, s.owner)
  }

  lemma KeysOfAppend(ks: seq<Jwk>, k: Jwk)
    ensures KeysOf(ks + [k]) == KeysOf(ks) + [KeyOf(k)]
    ensures Extras(ks + [k]) == Extras(ks) + Extra(k)
  {
    if ks == [] {
      assert [] + [k] == [k];
    } else {
      assert (ks + [k])[1..] == ks[1..] + [k];
      KeysOfAppend(ks[1..], k);
    }
  }

  lemma AllOwnedAppend(ks: seq<Jwk>, k: Jwk, owner: Owner?)
    requires AllOwned(ks, owner) && forall x :: x in Extra(k) ==> x.owner == owner
    ensures AllOwned(ks + [k], owner)
  {
    KeysOfAppend(ks, k);
  }

  lemma KeysOfIndex(ks: seq<Jwk>, i: nat)
    requires i < |ks|
    ensures |KeysOf(ks)| == |ks| && KeysOf(ks)[i] == KeyOf(ks[i])
    ensures Extra(ks[i]) <= Extras(ks)
  {
    if i > 0 {
      KeysOfIndex(ks[1..], i - 1);
    } else if |ks| > 1 {
      KeysOfIndex(ks[1..], 0);
    }
  }

  twostate lemma Unwritten(ks: seq<Jwk>)
    requires forall x :: x in Extras(ks) ==> x.fields == old(x.fields)
    ensures KeysOf(ks) == old(KeysOf(ks))
  {
    if ks != [] {
      var rest := ks[1..];
      Unwritten(rest);
      assert ks[0] in ks;
    }
  }

  // ---- copying ----

  method CloneKey(k: Jwk, ghost owner: Owner?) returns (c: Jwk)
    ensures KeyOf(c) == KeyOf(k)
    ensures fresh(Extra(c)) && forall x :: x in Extra(c) ==> x.owner == owner
  {
    if k.extra == null {
      return k;
    }
    var todo := k.extra.fields.Keys;
    var copy := map[];
    while todo != {}
      invariant todo <= k.extra.fields.Keys
      invariant copy == map name | name in k.extra.fields && name !in todo :: k.extra.fields[name]
    {
      var name :| name in todo;
      copy := copy[name := k.extra.fields[name]];
      todo := todo - {name};
    }
    assert copy == k.extra.fields;
    var extra := new ExtraMap(owner, copy);
    c := k.(extra := extra);
  }

  /** A copy with an owner of its own. */
  method CloneKeys(s: KeySlice?) returns (out: KeySlice?)
    ensures s == null <==> out == null
    ensures out != null ==> fresh(out) && fresh(Extras(out.keys)) && Private(out) && fresh(out.owner)
    ensures out != null ==> KeysOf(out.keys) == KeysOf(s.keys)
  {
    if s == null {
      return null;
    }
    ghost var owner := new Owner();
    var keys: seq<Jwk> := [];
    var i := 0;
    while i < |s.keys|
      invariant 0 <= i <= |s.keys|
      invariant KeysOf(keys) == KeysOf(s.keys[..i])
      invariant fresh(Extras(keys)) && AllOwned(keys, owner)
    {
      var k := CloneKey(s.keys[i], owner);
      assert s.keys[..i + 1] == s.keys[..i] + [s.keys[i]];
      KeysOfAppend(keys, k);
      KeysOfAppend(s.keys[..i], s.keys[i]);
      AllOwnedAppend(keys, k, owner);
      keys := keys + [k];
      i := i + 1;
    }
    assert s.keys[..i] == s.keys;
    label Copied:
    out := new KeySlice(owner, keys);
    Unwritten@Copied(keys);
    Unwritten@Copied(s.keys);
  }

  /** Two callers served by one flight, each with its own copy of the slice it returned:
      they share no slice and no map with each other or with the cache. */
  method ServeTwo(master: KeySlice) returns (a: KeySlice, b: KeySlice)
    requires Owned(master, SHARED)
    ensures KeysOf(a.keys) == KeysOf(b.keys) == KeysOf(master.keys)
    ensures a != b && a != master && b != master
    ensures Extras(a.keys) !! Extras(b.keys) && Extras(a.keys) !! Extras(master.keys) && Extras(b.keys) !! Extras(master.keys)
    ensures Private(a) && Private(b) && a.owner != b.owner
  {
    a := CloneKeys(master);
    label First:
    b := CloneKeys(master);
    Unwritten@First(a.keys);
  }

  /** A key handed out on its own reads the same after any writes through what belongs to
      somebody else. */
  twostate lemma KeyIsIsolated(k: Jwk, q: Owner?, p: Owner?)
    requires q != p && forall x :: x in Extra(k) ==> x.owner == q
    requires forall o: ExtraMap :: old(allocated(o)) && o.owner != p ==> o.fields == old(o.fields)
    ensures KeyOf(k) == old(KeyOf(k))
  {
    assert forall x :: x in Extra(k) ==> x.fields == old(x.fields);
  }

  // ---- parsing ----

  datatype Member =
    | NotAnObject
    | Mistyped(kid: string)
    | Object(params: Params, rest: map<string, string>)

  datatype Error = Malformed | InvalidKey(kid: string) | EmptyKeySet | FetchFailed

  /** A key has a type, and an RSA or EC key its key material. */
  predicate Complete(p: Params) {
    && p.kty != ""
    && (p.kty == "RSA" ==> p.n != "" && p.e != "")
    && (p.kty == "EC" ==> p.crv != "" && p.x != "" && p.y != "")
  }

  ghost predicate Usable(m: Member) {
    m.Object? && Complete(m.params)
  }

  ghost function ValueOf(m: Member): KeyVal
    requires Usable(m)
  {
    KeyVal(m.params, if m.rest == map[] then None else Some(m.rest))
  }

  /** The usable members in document order. */
  ghost function UsableKeys(ms: seq<Member>): seq<KeyVal> {
    if ms == [] then []
    else if Usable(ms[0]) then [ValueOf(ms[0])] + UsableKeys(ms[1..])
    else UsableKeys(ms[1..])
  }

  ghost function Kid(m: Member): string
    requires !m.NotAnObject?
  {
    if m.Mistyped? then m.kid else m.params.kid
  }

  /** What a document with these members parses to. */
  ghost function Parsed(ms: seq<Member>): Result<seq<KeyVal>, Error> {
    if exists i :: 0 <= i < |ms| && ms[i].NotAnObject? then Err(Malformed)
    else if UsableKeys(ms) != [] then Ok(UsableKeys(ms))
    else if ms == [] then Err(EmptyKeySet)
    else Err(InvalidKey(Kid(ms[0])))
  }

  method ParseKey(m: Member) returns (r: Result<Jwk, Error>)
    ensures r.Ok? <==> Usable(m)
    ensures r.Ok? ==> KeyOf(r.value) == ValueOf(m) && fresh(Extra(r.value)) && AllOwned([r.value], SHARED)
    ensures r.Err? ==> r.error == if m.NotAnObject? then Malformed else InvalidKey(Kid(m))
  {
    match m
    case NotAnObject => return Err(Malformed);
    case Mistyped(kid) => return Err(InvalidKey(kid));
    case Object(params, rest) =>
      var extra: ExtraMap? := null;
      if |rest| > 0 {
        extra := new ExtraMap(SHARED, rest);
      }
      if !Complete(params) {
        return Err(InvalidKey(params.kid));
      }
      return Ok(Jwk(params, extra));
  }

  method ParseKeySet(ms: seq<Member>) returns (r: Result<KeySlice, Error>)
    ensures r.Ok? <==> Parsed(ms).Ok?
    ensures r.Ok? ==> fresh(r.value) && fresh(Extras(r.value.keys)) && Owned(r.value, SHARED)
    ensures r.Ok? ==> Parsed(ms) == Ok(KeysOf(r.value.keys))
    ensures r.Err? ==> Parsed(ms) == Err(r.error)
  {
    var keys: seq<Jwk> := [];
    var firstInvalid: Option<Error> := None;
    var i := 0;
    while i < |ms|
      invariant 0 <= i <= |ms|
      invariant forall j :: 0 <= j < i ==> !ms[j].NotAnObject?
      invariant KeysOf(keys) == UsableKeys(ms[..i])
      invariant fresh(Extras(keys)) && AllOwned(keys, SHARED)
      invariant keys == [] ==> firstInvalid == if i == 0 then None else Some(InvalidKey(Kid(ms[0])))
    {
      var k := ParseKey(ms[i]);
      UsableAppend(ms[..i], ms[i]);
      assert ms[..i + 1] == ms[..i] + [ms[i]];
      match k {
        case Ok(key) =>
          KeysOfAppend(keys, key);
          assert Extras([key]) == Extra(key);
          keys := keys + [key];
        case Err(Malformed) => return Err(Malformed);
        case Err(e) =>
          if firstInvalid == None {
            firstInvalid := Some(e);
          }
      }
      i := i + 1;
    }
    assert ms[..i] == ms;
    if keys == [] {
      return Err(if firstInvalid.Some? then firstInvalid.value else EmptyKeySet);
    }
    KeysOfIndex(keys, 0);
    var slice := new KeySlice(SHARED, keys);
    return Ok(slice);
  }

  lemma UsableAppend(ms: seq<Member>, m: Member)
    ensures UsableKeys(ms + [m]) == UsableKeys(ms) + (if Usable(m) then [ValueOf(m)] else [])
  {
    if ms == [] {
      assert [] + [m] == [m];
    } else {
      assert (ms + [m])[1..] == ms[1..] + [m];
      UsableAppend(ms[1..], m);
    }
  }

  lemma {:induction false} UsableConcat(a: seq<Member>, b: seq<Member>)
    ensures UsableKeys(a + b) == UsableKeys(a) + UsableKeys(b)
  {
    if a == [] {
      assert a + b == b;
    } else {
      assert (a + b)[1..] == a[1..] + b;
      UsableConcat(a[1..], b);
    }
  }

  /** A member that yields a key: an object with a type and, for RSA, modulus and exponent, for
      EC, curve and both coordinates. */
  ghost predicate YieldsKey(m: Member) {
    && m.Object? && m.params.kty != ""
    && (m.params.kty == "RSA" ==> m.params.n != "" && m.params.e != "")
    && (m.params.kty == "EC" ==> m.params.crv != "" && m.params.x != "" && m.params.y != "")
  }

  /** The key it yields, with the parameters that the key type has no field for. */
  ghost predicate IsKeyOf(k: KeyVal, m: Member) {
    m.Object? && k.params == m.params && k.extra == if m.rest == map[] then None else Some(m.rest)
  }

  lemma {:induction false} UsableKeysMean(ms: seq<Member>, k: KeyVal)
    ensures k in UsableKeys(ms) <==> exists i :: 0 <= i < |ms| && YieldsKey(ms[i]) && IsKeyOf(k, ms[i])
    ensures UsableKeys(ms) == [] <==> forall i :: 0 <= i < |ms| ==> !YieldsKey(ms[i])
  {
    if ms == [] {
    } else {
      UsableKeysMean(ms[1..], k);
      assert forall i :: 0 < i < |ms| ==> ms[i] == ms[1..][i - 1];
      if i :| 0 <= i < |ms| && YieldsKey(ms[i]) && IsKeyOf(k, ms[i]) {
        assert i > 0 ==> YieldsKey(ms[1..][i - 1]) && IsKeyOf(k, ms[1..][i - 1]);
      }
    }
  }

  /** What a document gives: the keys of the members that yield one, or the error of its shape. */
  lemma DocumentMeans(ms: seq<Member>, k: KeyVal)
    ensures Parsed(ms) == Err(Malformed) <==> exists i :: 0 <= i < |ms| && ms[i] == NotAnObject
    ensures Parsed(ms) == Err(EmptyKeySet) <==> ms == []
    ensures Parsed(ms).Ok? <==>
              (forall i :: 0 <= i < |ms| ==> ms[i] != NotAnObject) && exists i :: 0 <= i < |ms| && YieldsKey(ms[i])
    ensures Parsed(ms).Ok? ==>
              (k in Parsed(ms).value <==> exists i :: 0 <= i < |ms| && YieldsKey(ms[i]) && IsKeyOf(k, ms[i]))
    ensures Parsed(ms).Err? && ms != [] && Parsed(ms) != Err(Malformed) ==>
              Parsed(ms) == Err(InvalidKey(if ms[0].Mistyped? then ms[0].kid else ms[0].params.kid))
  {
    UsableKeysMean(ms, k);
    hide UsableKeys, YieldsKey, IsKeyOf;
  }

  /** An unusable object among the members changes nothing for the usable ones: the document
      parses exactly as it does without it, as long as one usable key is left. */
  lemma UnusableKeyIsSkipped(a: seq<Member>, m: Member, b: seq<Member>)
    requires !m.NotAnObject? && !Usable(m)
    requires Parsed(a + b).Ok?
    ensures Parsed(a + [m] + b) == Parsed(a + b)
  {
    UsableConcat(a, b);
    UsableConcat(a + [m], b);
    UsableConcat(a, [m]);
    assert UsableKeys([m]) == [] by { assert [m][1..] == []; }
    assert UsableKeys(a + [m]) == UsableKeys(a);
    var ms := a + [m] + b;
    forall i | 0 <= i < |ms| ensures !ms[i].NotAnObject? {
      if i < |a| {
        assert ms[i] == (a + b)[i];
      } else if i > |a| {
        assert ms[i] == (a + b)[i - 1];
      }
    }
  }
}
