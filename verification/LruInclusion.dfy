/** Runs of the recency-list cache: a larger bound never loses a hit, a hit is
    always the latest store, and a key in use is dropped only after as many other
    keys as the bound admits have been used since. */
module LruInclusion {
  import opened Options
  import opened RecencyList

  datatype Op<+V> =
    | Look(key: Key, now: int)
    | Put(key: Key, value: V, expiresAt: int)
    | Drop(key: Key)
    | Clear

  ghost function Apply<V>(c: Lru<V>, op: Op<V>, max: int): Lru<V> {
    match op
    case Look(k, now) => c.Lookup(k, now)
    case Put(k, v, expiresAt) => Store(c, k, v, expiresAt, max)
    case Drop(k) => c.Invalidate(k)
    case Clear => Lru([], map[], map[])
  }

  ghost function Run<V>(c: Lru<V>, ops: seq<Op<V>>, max: int): Lru<V> {
    if ops == [] then c else Apply(Run(c, ops[..|ops| - 1], max), ops[|ops| - 1], max)
  }

  /** What the lookup at position `i` of the run returns. */
  ghost function Answer<V>(c: Lru<V>, ops: seq<Op<V>>, max: int, i: nat): Option<V>
    requires i < |ops|
  {
    if ops[i].Look? then Run(c, ops[..i], max).Found(ops[i].key, ops[i].now) else None
  }

  lemma {:induction false} RunValid<V>(c: Lru<V>, ops: seq<Op<V>>, max: int)
    requires c.Valid()
    requires max > 0 ==> |c.slots| <= max
    ensures Run(c, ops, max).Valid()
    ensures max > 0 ==> |Run(c, ops, max).slots| <= max
  {
    if ops == [] {
    } else {
      var n := |ops| - 1;
      RunValid(c, ops[..n], max);
      var before := Run(c, ops[..n], max);
      match ops[n]
      case Look(k, now) => LookupValid(before, k, now);
      case Put(k, v, expiresAt) => StoreValid(before, k, v, expiresAt, max);
      case Drop(k) =>
        InvalidateValid(before, k);
        SlotsSize(before);
        SlotsSize(before.Invalidate(k));
      case Clear =>
    }
  }

  lemma SlotsSize<V>(c: Lru<V>)
    requires c.Valid()
    ensures |c.slots| == |c.order|
  {
    KeysSize(c.order);
  }

  // ---- inclusion ----

  /** `small`, bounded by `m`, is a sub-cache of `big`, bounded by `m'` (or unbounded when
      `m' <= 0`): same slots, same recency order on the shared keys, and `big` never runs
      ahead of `small` by more entries than the bounds allow. */
  ghost predicate Included<V(!new)>(small: Lru<V>, big: Lru<V>, m: int, m': int) {
    && small.Valid() && big.Valid()
    && small.order == Keep(big.order, small.slots.Keys)
    && (forall k :: k in small.slots ==> k in big.slots && small.slots[k] == big.slots[k])
    && |small.order| <= m
    && (m' > 0 ==> |big.order| <= m' && |big.order| - |small.order| <= m' - m)
  }

  lemma {:induction false} InclusionTheorem<V(!new)>(small: Lru<V>, big: Lru<V>, ops: seq<Op<V>>, m: int, m': int)
    requires 1 <= m && (m' <= 0 || m <= m')
    requires Included(small, big, m, m')
    ensures Included(Run(small, ops, m), Run(big, ops, m'), m, m')
    ensures forall i :: 0 <= i < |ops| && Answer(small, ops, m, i).Some? ==>
              Answer(big, ops, m', i) == Answer(small, ops, m, i)
  {
    if ops == [] {
    } else {
      var n := |ops| - 1;
      InclusionTheorem(small, big, ops[..n], m, m');
      var s, b := Run(small, ops[..n], m), Run(big, ops[..n], m');
      match ops[n] {
        case Look(k, now) => LookIncluded(s, b, k, now, m, m');
        case Put(k, v, expiresAt) => StoreIncluded(s, b, k, v, expiresAt, m, m');
        case Drop(k) => DropIncluded(s, b, k, m, m');
        case Clear =>
      }
      forall i | 0 <= i < |ops| && Answer(small, ops, m, i).Some?
        ensures Answer(big, ops, m', i) == Answer(small, ops, m, i)
      {
        if i < n {
          assert ops[..n][..i] == ops[..i];
          assert Answer(small, ops[..n], m, i) == Answer(small, ops, m, i);
          assert Answer(big, ops[..n], m', i) == Answer(big, ops, m', i);
        }
      }
    }
  }

  lemma LookIncluded<V(!new)>(s: Lru<V>, b: Lru<V>, k: Key, now: int, m: int, m': int)
    requires Included(s, b, m, m')
    ensures Included(s.Lookup(k, now), b.Lookup(k, now), m, m')
    ensures s.Hit(k, now) ==> b.Found(k, now) == s.Found(k, now)
  {
    if s.Hit(k, now) || b.Hit(k, now) {
      TouchIncluded(s, b, k, m, m');
    }
  }

  /** Moving `k` to the front of the bigger cache, and of the smaller one if it is there. */
  lemma TouchIncluded<V(!new)>(s: Lru<V>, b: Lru<V>, k: Key, m: int, m': int)
    requires Included(s, b, m, m') && k in b.slots
    ensures var b' := b.(order := Touch(b.order, k));
            var s' := if k in s.slots then s.(order := Touch(s.order, k)) else s;
            Included(s', b', m, m')
  {
    hide NoDup, Keep, Without;
    TouchFacts(b.order, k);
    var keys := s.slots.Keys;
    if k in s.slots {
      TouchFacts(s.order, k);
      KeepTouch(b.order, k, keys);
      assert keys + {k} == keys;
    } else {
      WithoutAbsent(s.order, k);
      KeepWithout(b.order, k, keys);
      KeepSkip(k, Without(b.order, k), keys);
    }
  }

  lemma KeepSkip(k: Key, rest: seq<Key>, keep: set<Key>)
    requires k !in keep
    ensures Keep([k] + rest, keep) == Keep(rest, keep)
  {
    assert ([k] + rest)[1..] == rest;
  }

  lemma DropIncluded<V(!new)>(s: Lru<V>, b: Lru<V>, k: Key, m: int, m': int)
    requires Included(s, b, m, m')
    ensures Included(s.Invalidate(k), b.Invalidate(k), m, m')
  {
    InvalidateValid(s, k);
    InvalidateValid(b, k);
    KeepMinusBoth(b.order, k, s.slots.Keys);
    assert s.Invalidate(k).slots.Keys == s.slots.Keys - {k};
    assert k in s.order ==> k in b.order;
  }

  lemma StoreIncluded<V(!new)>(s: Lru<V>, b: Lru<V>, k: Key, v: V, expiresAt: int, m: int, m': int)
    requires 1 <= m && (m' <= 0 || m <= m')
    requires Included(s, b, m, m')
    ensures Included(Store(s, k, v, expiresAt, m), Store(b, k, v, expiresAt, m'), m, m')
  {
    var s1, b1 := Insert(s, k, v, expiresAt), Insert(b, k, v, expiresAt);
    InsertValid(s, k, v, expiresAt);
    InsertValid(b, k, v, expiresAt);
    InsertIncluded(s, b, k, v, expiresAt, m, m');
    ShrinkValid(s1, m);
    ShrinkValid(b1, m');
    ShrinkIncluded(s1, b1, m, m');
  }

  lemma InsertIncluded<V(!new)>(s: Lru<V>, b: Lru<V>, k: Key, v: V, expiresAt: int, m: int, m': int)
    requires Included(s, b, m, m')
    ensures var s1, b1 := Insert(s, k, v, expiresAt), Insert(b, k, v, expiresAt);
            && s1.order == Keep(b1.order, s1.slots.Keys)
            && (forall x :: x in s1.slots ==> x in b1.slots && s1.slots[x] == b1.slots[x])
            && |s1.order| <= m + 1
            && (m' > 0 ==> |b1.order| <= m' + 1 && |b1.order| - |s1.order| <= m' - m)
  {
    KeepTouch(b.order, k, s.slots.Keys);
    assert Insert(s, k, v, expiresAt).slots.Keys == s.slots.Keys + {k};
    TouchSizes(s.order, b.order, k, s.slots.Keys);
  }

  lemma TouchSizes(s: seq<Key>, b: seq<Key>, k: Key, keys: set<Key>)
    requires NoDup(s) && NoDup(b) && s == Keep(b, keys)
    ensures |s| <= |Touch(s, k)| <= |s| + 1 && |b| <= |Touch(b, k)| <= |b| + 1
    ensures |Touch(b, k)| - |Touch(s, k)| <= |b| - |s|
  {
    TouchFacts(s, k);
    TouchFacts(b, k);
    assert k in s ==> k in b;
  }

  /** An overfull cache loses exactly its last key. */
  lemma ShrinkOne<V>(c: Lru<V>, max: int)
    requires c.Valid() && (max > 0 ==> |c.order| <= max + 1)
    ensures max <= 0 || |c.order| <= max ==> Shrink(c, max).order == c.order && Shrink(c, max).slots == c.slots
    ensures max > 0 && |c.order| == max + 1 ==>
              && Shrink(c, max).order == c.order[..max]
              && Shrink(c, max).slots == c.slots - {c.order[max]}
  {
    if max > 0 && |c.order| == max + 1 {
      assert c.order[max..] == [c.order[max]];
    }
  }

  lemma ShrinkIncluded<V(!new)>(s: Lru<V>, b: Lru<V>, m: int, m': int)
    requires 1 <= m && (m' <= 0 || m <= m')
    requires s.Valid() && b.Valid() && Shrink(s, m).Valid() && Shrink(b, m').Valid()
    requires s.order == Keep(b.order, s.slots.Keys)
    requires forall k :: k in s.slots ==> k in b.slots && s.slots[k] == b.slots[k]
    requires |s.order| <= m + 1
    requires m' > 0 ==> |b.order| <= m' + 1 && |b.order| - |s.order| <= m' - m
    ensures Included(Shrink(s, m), Shrink(b, m'), m, m')
  {
    ShrinkOne(s, m);
    ShrinkOne(b, m');
    var s', b' := Shrink(s, m), Shrink(b, m');
    ShrinkKeepsOrder(s.order, b.order, s.slots.Keys, m, m');
    if |s.order| == m + 1 {
      assert s'.slots.Keys == s.slots.Keys - {s.order[m]};
    }
    forall k | k in s'.slots ensures k in b'.slots && s'.slots[k] == b'.slots[k] {
      assert k in s'.order && k in Keep(b'.order, s'.slots.Keys);
      assert k in b'.order;
    }
  }

  lemma ShrinkKeepsOrder(s: seq<Key>, b: seq<Key>, keys: set<Key>, m: int, m': int)
    requires 1 <= m && NoDup(s) && NoDup(b)
    requires s == Keep(b, keys)
    requires |s| <= m + 1
    requires m' > 0 ==> |b| <= m' + 1 && |b| - |s| <= m' - m
    ensures |s| <= m ==> Fit(b, m') == b
    ensures |s| == m + 1 ==> Fit(s, m) == Keep(Fit(b, m'), keys - {s[m]})
  {
    hide NoDup, Without, Keep;
    if |s| == m + 1 {
      var y := s[m];
      KeepMinus(b, keys, y);
      WithoutLast(s);
      if m' > 0 && |b| == m' + 1 {
        KeepLast(b, keys);
        KeepMinus(b[..m'], keys, y);
        CutNoDup(b, m');
        assert b[m'] in b[m'..];
        if b[m'] !in keys {
          assert s == Keep(b[..m'], keys);
        } else {
          assert y == b[m'] && y !in b[..m'];
          KeepAgree(b[..m'], keys, keys - {y});
        }
      }
    }
  }

  // ---- filtering and moving to the front ----

  lemma KeepAgree(b: seq<Key>, keep: set<Key>, keep': set<Key>)
    requires forall x :: x in b ==> (x in keep <==> x in keep')
    ensures Keep(b, keep) == Keep(b, keep')
  {
    if b == [] {
    } else {
      KeepAgree(b[1..], keep, keep');
    }
  }

  lemma {:induction false} KeepWithout(b: seq<Key>, k: Key, keep: set<Key>)
    ensures Keep(Without(b, k), keep) == Without(Keep(b, keep), k)
  {
    if b == [] {
    } else {
      KeepWithout(b[1..], k, keep);
      var rest := Without(b[1..], k);
      if b[0] != k {
        assert ([b[0]] + rest)[1..] == rest;
        assert ([b[0]] + Keep(b[1..], keep))[1..] == Keep(b[1..], keep);
      } else {
        assert ([k] + Keep(b[1..], keep))[1..] == Keep(b[1..], keep);
      }
    }
  }

  lemma KeepTouch(b: seq<Key>, k: Key, keep: set<Key>)
    ensures Keep(Touch(b, k), keep + {k}) == Touch(Keep(b, keep), k)
  {
    assert Touch(b, k)[1..] == Without(b, k);
    KeepAgree(Without(b, k), keep, keep + {k});
    KeepWithout(b, k, keep);
  }

  lemma {:induction false} KeepMinus(b: seq<Key>, keep: set<Key>, y: Key)
    ensures Keep(b, keep - {y}) == Without(Keep(b, keep), y)
  {
    KeepWithout(b, y, keep);
    if b == [] {
    } else {
      KeepMinus(b[1..], keep, y);
      assert ([b[0]] + Keep(b[1..], keep))[1..] == Keep(b[1..], keep);
    }
  }

  lemma KeepMinusBoth(b: seq<Key>, k: Key, keep: set<Key>)
    ensures Keep(Without(b, k), keep - {k}) == Without(Keep(b, keep), k)
  {
    KeepWithout(b, k, keep);
    KeepAgree(Without(b, k), keep, keep - {k});
  }

  lemma {:induction false} KeepLast(b: seq<Key>, keep: set<Key>)
    requires b != []
    ensures var n := |b| - 1;
            Keep(b, keep) == Keep(b[..n], keep) + (if b[n] in keep then [b[n]] else [])
  {
    var n := |b| - 1;
    if n == 0 {
    } else {
      KeepLast(b[1..], keep);
      assert b[1..][..n - 1] == b[..n][1..];
    }
  }

  lemma {:induction false} WithoutLast(s: seq<Key>)
    requires NoDup(s) && s != []
    ensures Without(s, s[|s| - 1]) == s[..|s| - 1]
  {
    if |s| == 1 {
    } else {
      WithoutLast(s[1..]);
      assert s[1..][..|s| - 2] == s[..|s| - 1][1..];
    }
  }

  // ---- a hit is the latest store ----

  /** The slot the most recent store of `k` left, unless `k` was dropped since. */
  ghost function Latest<V>(ops: seq<Op<V>>, k: Key): Option<Slot<V>> {
    if ops == [] then None
    else
      var op := ops[|ops| - 1];
      if op.Put? && op.key == k then Some(Slot(op.value, op.expiresAt))
      else if op.Clear? || (op.Drop? && op.key == k) then None
      else Latest(ops[..|ops| - 1], k)
  }

  lemma {:induction false} UnboundedIsLatest<V>(ops: seq<Op<V>>, k: Key)
    ensures var c := Run(Lru([], map[], map[]), ops, 0);
            Latest(ops, k) == if k in c.slots then Some(c.slots[k]) else None
  {
    if ops == [] {
    } else {
      var n := |ops| - 1;
      UnboundedIsLatest(ops[..n], k);
      var before := Run(Lru([], map[], map[]), ops[..n], 0);
      if ops[n].Put? {
        assert before.order[|before.order|..] == [];
        var order := Touch(before.order, ops[n].key);
        assert order[|order|..] == [];
      }
    }
  }

  /** Whatever the bound, a lookup that hits returns the value of the latest store of
      that key, and that value has not expired: eviction can lose entries but never
      resurrects or mixes them up. */
  lemma HitIsLatestStore<V(!new)>(ops: seq<Op<V>>, max: int, k: Key, now: int)
    requires var c := Run(Lru([], map[], map[]), ops, max); c.Hit(k, now)
    ensures var c := Run(Lru([], map[], map[]), ops, max);
            Latest(ops, k) == Some(c.slots[k]) && now < c.slots[k].expiresAt
  {
    UnboundedIsLatest(ops, k);
    if max > 0 {
      InclusionTheorem(Lru([], map[], map[]), Lru([], map[], map[]), ops, max, 0);
    } else {
      UnboundedBounds(Lru([], map[], map[]), ops, max);
    }
  }

  lemma UnboundedBounds<V>(c: Lru<V>, ops: seq<Op<V>>, max: int)
    requires max <= 0
    ensures Run(c, ops, max) == Run(c, ops, 0)
  {
    if ops == [] {
    } else {
      UnboundedBounds(c, ops[..|ops| - 1], max);
    }
  }

  // ---- a key in use ----

  ghost function Used<V>(ops: seq<Op<V>>): set<Key> {
    set i | 0 <= i < |ops| && (ops[i].Put? || ops[i].Look?) :: ops[i].key
  }

  ghost predicate Undropped<V>(ops: seq<Op<V>>, k: Key) {
    forall i :: 0 <= i < |ops| ==> !ops[i].Clear? && !(ops[i].Drop? && ops[i].key == k)
  }

  /** `k` is in `s`, and every key ahead of it is in `others`. */
  ghost predicate Ahead(s: seq<Key>, k: Key, others: set<Key>) {
    s != [] && (s[0] == k || (s[0] in others && Ahead(s[1..], k, others)))
  }

  /** A key just used stays cached through any run that uses fewer than `m` other keys
      and does not drop it. */
  lemma HotKeySurvives<V>(c: Lru<V>, k: Key, ops: seq<Op<V>>, m: int)
    requires c.Valid() && 1 <= m && |c.slots| <= m
    requires c.order != [] && c.order[0] == k
    requires Undropped(ops, k)
    requires |Used(ops) - {k}| < m
    ensures k in Run(c, ops, m).slots
  {
    HotKeyInvariant(c, k, ops, m, Used(ops) - {k});
    RunValid(c, ops, m);
    AheadMember(Run(c, ops, m).order, k, Used(ops) - {k});
  }

  lemma {:induction false} HotKeyInvariant<V>(c: Lru<V>, k: Key, ops: seq<Op<V>>, m: int, others: set<Key>)
    requires c.Valid() && 1 <= m && |c.slots| <= m
    requires c.order != [] && c.order[0] == k
    requires Undropped(ops, k)
    requires Used(ops) <= others + {k} && |others| < m
    ensures Ahead(Run(c, ops, m).order, k, others)
  {
    if ops == [] {
    } else {
      var n := |ops| - 1;
      UsedPrefix(ops);
      HotKeyInvariant(c, k, ops[..n], m, others);
      RunValid(c, ops[..n], m);
      HotKeyStep(Run(c, ops[..n], m), k, ops[n], m, others);
    }
  }

  lemma UsedPrefix<V>(ops: seq<Op<V>>)
    requires ops != []
    ensures Used(ops[..|ops| - 1]) <= Used(ops)
    ensures var op := ops[|ops| - 1]; op.Look? || op.Put? ==> op.key in Used(ops)
  {
    var n := |ops| - 1;
    forall x | x in Used(ops[..n]) ensures x in Used(ops) {
      var i :| 0 <= i < n && (ops[i].Put? || ops[i].Look?) && ops[i].key == x;
      assert ops[i].key in Used(ops);
    }
  }

  lemma HotKeyStep<V>(c: Lru<V>, k: Key, op: Op<V>, m: int, others: set<Key>)
    requires c.Valid() && 1 <= m && |others| < m
    requires Ahead(c.order, k, others)
    requires !op.Clear? && (op.Drop? ==> op.key != k)
    requires op.Look? || op.Put? ==> op.key == k || op.key in others
    ensures Ahead(Apply(c, op, m).order, k, others)
  {
    match op
    case Drop(x) => WithoutAhead(c.order, k, x, others);
    case Look(x, now) => if c.Hit(x, now) { TouchAhead(c.order, k, x, others); }
    case Put(x, _, _) =>
      TouchAhead(c.order, k, x, others);
      TouchFacts(c.order, x);
      FitAhead(Touch(c.order, x), k, others, m);
      assert Apply(c, op, m).order == Fit(Touch(c.order, x), m);
    case Clear =>
  }

  lemma AheadMember(s: seq<Key>, k: Key, others: set<Key>)
    requires Ahead(s, k, others)
    ensures k in s
  {
  }

  lemma {:induction false} WithoutAhead(s: seq<Key>, k: Key, x: Key, others: set<Key>)
    requires Ahead(s, k, others) && x != k
    ensures Ahead(Without(s, x), k, others)
  {
    if s[0] != k {
      WithoutAhead(s[1..], k, x, others);
    }
  }

  lemma TouchAhead(s: seq<Key>, k: Key, x: Key, others: set<Key>)
    requires Ahead(s, k, others) && (x == k || x in others)
    ensures Ahead(Touch(s, x), k, others)
  {
    if x != k {
      WithoutAhead(s, k, x, others);
      assert Touch(s, x)[1..] == Without(s, x);
    }
  }

  lemma {:induction false} FitAhead(s: seq<Key>, k: Key, others: set<Key>, m: int)
    requires NoDup(s) && Ahead(s, k, others) && |others| < m
    ensures Ahead(Fit(s, m), k, others)
  {
    if s[0] != k && |s| > m {
      var less := others - {s[0]};
      AheadNarrow(s[1..], k, others, less);
      FitAhead(s[1..], k, less, m - 1);
      assert Fit(s, m)[1..] == Fit(s[1..], m - 1);
      AheadNarrow(Fit(s, m)[1..], k, less, others);
    }
  }

  lemma {:induction false} AheadNarrow(s: seq<Key>, k: Key, others: set<Key>, others': set<Key>)
    requires Ahead(s, k, others)
    requires forall x :: x in s && x in others ==> x in others'
    ensures Ahead(s, k, others')
  {
    if s[0] != k {
      AheadNarrow(s[1..], k, others, others');
    }
  }

  /** Operation `i` of a run uses `k`: it stores it, or it looks it up and hits. */
  ghost predicate Uses<V>(ops: seq<Op<V>>, max: int, i: nat, k: Key) {
    && i < |ops|
    && match ops[i]
       case Put(x, _, _) => x == k
       case Look(x, now) => x == k && Run(Lru([], map[], map[]), ops[..i], max).Hit(k, now)
       case _ => false
  }

  lemma {:induction false} RunPlus<V>(c: Lru<V>, a: seq<Op<V>>, b: seq<Op<V>>, max: int)
    ensures Run(c, a + b, max) == Run(Run(c, a, max), b, max)
    decreases |b|
  {
    hide Apply;
    if b == [] {
      assert a + b == a;
    } else {
      var n := |b| - 1;
      assert (a + b)[..|a| + n] == a + b[..n];
      RunPlus(c, a, b[..n], max);
    }
  }

  /** Over every run: a key that was stored or hit is still cached as long as it was not dropped
      and fewer than `m` other keys were stored or looked up since.  This is what a list in
      order of insertion would not keep. */
  lemma UsedKeyStays<V>(ops: seq<Op<V>>, m: int, i: nat, k: Key)
    requires 1 <= m && Uses(ops, m, i, k)
    requires Undropped(ops[i + 1..], k) && |Used(ops[i + 1..]) - {k}| < m
    ensures k in Run(Lru([], map[], map[]), ops, m).slots
  {
    var empty: Lru<V> := Lru([], map[], map[]);
    var n := i + 1;
    assert ops[..n][..i] == ops[..i] && ops[..n] + ops[n..] == ops;
    RunValid(empty, ops[..i], m);
    RunValid(empty, ops[..n], m);
    UseFronts(Run(empty, ops[..i], m), ops[i], m, k);
    hide Apply, Used, Undropped;
    assert Run(empty, ops[..n], m) == Apply(Run(empty, ops[..i], m), ops[i], m);
    hide Run;
    RunPlus(empty, ops[..n], ops[n..], m);
    HotKeySurvives(Run(empty, ops[..n], m), k, ops[n..], m);
  }

  lemma UseFronts<V>(c: Lru<V>, op: Op<V>, m: int, k: Key)
    requires c.Valid() && (op.Put? || op.Look?) && op.key == k && (op.Look? ==> c.Hit(k, op.now))
    ensures var after := Apply(c, op, m); after.order != [] && after.order[0] == k
  {
    if op.Put? {
      JustStoredSurvives(c, k, op.value, op.expiresAt, m);
    }
  }

  ghost function Flood<V>(keys: seq<Key>, v: V, expiresAt: int): seq<Op<V>> {
    if keys == [] then []
    else Flood(keys[..|keys| - 1], v, expiresAt) + [Put(keys[|keys| - 1], v, expiresAt)]
  }

  ghost function Reversed(s: seq<Key>): (r: seq<Key>)
    ensures |r| == |s|
    ensures forall x :: x in r <==> x in s
  {
    if s == [] then []
    else
      assert s == s[..|s| - 1] + [s[|s| - 1]];
      [s[|s| - 1]] + Reversed(s[..|s| - 1])
  }

  /** The bound in `HotKeySurvives` is tight: storing `m` other distinct keys replaces the
      whole cache, whatever was in it. */
  lemma FloodEvicts<V>(c: Lru<V>, keys: seq<Key>, v: V, expiresAt: int, m: int)
    requires c.Valid() && 1 <= m && |c.slots| <= m
    requires NoDup(keys) && |keys| == m
    ensures Run(c, Flood(keys, v, expiresAt), m).slots.Keys == Keys(keys)
  {
    FloodInvariant(c, keys, v, expiresAt, m);
    var ops := Flood(keys, v, expiresAt);
    RunValid(c, ops, m);
    SlotsSize(Run(c, ops, m));
    assert Run(c, ops, m).order == Reversed(keys);
  }

  lemma {:induction false} FloodInvariant<V>(c: Lru<V>, keys: seq<Key>, v: V, expiresAt: int, m: int)
    requires c.Valid() && 1 <= m && |c.slots| <= m
    requires NoDup(keys) && |keys| <= m
    ensures Reversed(keys) <= Run(c, Flood(keys, v, expiresAt), m).order
  {
    if keys == [] {
    } else {
      hide NoDup;
      var n := |keys| - 1;
      CutNoDup(keys, n);
      FloodInvariant(c, keys[..n], v, expiresAt, m);
      FloodRun(c, keys, v, expiresAt, m);
      var before := Run(c, Flood(keys[..n], v, expiresAt), m);
      StoreFront(before.order, Reversed(keys[..n]), keys[n], m);
    }
  }

  lemma FloodRun<V>(c: Lru<V>, keys: seq<Key>, v: V, expiresAt: int, m: int)
    requires keys != []
    ensures var n := |keys| - 1;
            Run(c, Flood(keys, v, expiresAt), m).order ==
            Fit(Touch(Run(c, Flood(keys[..n], v, expiresAt), m).order, keys[n]), m)
  {
    var ops := Flood(keys, v, expiresAt);
    assert ops[..|ops| - 1] == Flood(keys[..|keys| - 1], v, expiresAt);
  }

  lemma StoreFront(order: seq<Key>, front: seq<Key>, k: Key, m: int)
    requires front <= order && k !in front && |front| < m
    ensures [k] + front <= Fit(Touch(order, k), m)
  {
    WithoutFront(order, front, k);
    PrefixOfFit([k] + front, Without(order, k)[|front|..], m);
    assert Touch(order, k) == [k] + front + Without(order, k)[|front|..];
  }

  lemma {:induction false} WithoutFront(order: seq<Key>, front: seq<Key>, k: Key)
    requires front <= order && k !in front
    ensures front <= Without(order, k)
  {
    if front == [] {
    } else {
      WithoutFront(order[1..], front[1..], k);
      assert order[0] == front[0] && order[0] != k;
      assert front == [front[0]] + front[1..];
    }
  }

  lemma PrefixOfFit(front: seq<Key>, tail: seq<Key>, m: int)
    requires |front| <= m
    ensures front <= Fit(front + tail, m)
  {
  }
}
