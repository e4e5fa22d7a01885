/** Where a lockfile records the version of a crate: the first version line of the first
    `[[package]]` block that names it.  A line is only what the tool sees in it. */
module CargoBlocks {
  import opened Options

  datatype Kind = Header | Name(name: string) | Version(version: string) | OtherLine

  datatype Fault = NoEntry | NoVersion

  /** The positions of the block headers, in order. */
  function Starts(kinds: seq<Kind>): (starts: seq<nat>)
    ensures forall k :: 0 <= k < |starts| ==> starts[k] < |kinds|
  {
    if kinds == [] then []
    else
      var n := |kinds| - 1;
      Starts(kinds[..n]) + if kinds[n].Header? then [n] else []
  }

  predicate NamedIn(kinds: seq<Kind>, lo: nat, hi: nat, crate: string)
    requires hi <= |kinds|
  {
    exists j :: lo <= j < hi && kinds[j] == Name(crate)
  }

  /** The first version line from `lo` up to `hi`. */
  function VersionIn(kinds: seq<Kind>, lo: nat, hi: nat): (i: Option<nat>)
    requires hi <= |kinds|
    ensures i.Some? ==> lo <= i.value < hi && kinds[i.value].Version?
    decreases hi - lo
  {
    if lo >= hi then None
    else if kinds[lo].Version? then Some(lo)
    else VersionIn(kinds, lo + 1, hi)
  }

  function End(kinds: seq<Kind>, starts: seq<nat>, k: nat): nat
    requires k < |starts|
  {
    if k + 1 < |starts| then starts[k + 1] else |kinds|
  }

  /** The version line of `crate` among the blocks that start at `starts`. */
  function LocateIn(kinds: seq<Kind>, crate: string, starts: seq<nat>): (r: Result<nat, Fault>)
    requires forall k :: 0 <= k < |starts| ==> starts[k] < |kinds|
    ensures r.Ok? ==> r.value < |kinds| && kinds[r.value].Version?
  {
    if starts == [] then Err(NoEntry)
    else
      var lo, hi := starts[0], End(kinds, starts, 0);
      if !NamedIn(kinds, lo, hi, crate) then LocateIn(kinds, crate, starts[1..])
      else
        match VersionIn(kinds, lo, hi)
        case None => Err(NoVersion)
        case Some(i) => Ok(i)
  }

  function Locate(kinds: seq<Kind>, crate: string): (r: Result<nat, Fault>)
    ensures r.Ok? ==> r.value < |kinds| && kinds[r.value].Version?
  {
    LocateIn(kinds, crate, Starts(kinds))
  }

  // ---- the loops ----

  /** The bounds of every block: a header, up to the next header or the end. */
  method PackageBlocks(kinds: seq<Kind>) returns (bounds: seq<(nat, nat)>)
    ensures |bounds| == |Starts(kinds)|
    ensures forall k :: 0 <= k < |bounds| ==> bounds[k] == (Starts(kinds)[k], End(kinds, Starts(kinds), k))
  {
    var starts: seq<nat> := [];
    for i := 0 to |kinds|
      invariant starts == Starts(kinds[..i])
    {
      if kinds[i].Header? {
        starts := starts + [i];
      }
      assert kinds[..i + 1][..i] == kinds[..i];
    }
    assert kinds[..|kinds|] == kinds;
    bounds := [];
    for k := 0 to |starts|
      invariant |bounds| == k
      invariant forall j :: 0 <= j < k ==> bounds[j] == (starts[j], End(kinds, starts, j))
    {
      var end := if k + 1 < |starts| then starts[k + 1] else |kinds|;
      bounds := bounds + [(starts[k], end)];
    }
  }

  lemma {:induction false} StartsRise(kinds: seq<Kind>, k: nat)
    requires k < |Starts(kinds)|
    ensures Starts(kinds)[k] < End(kinds, Starts(kinds), k)
  {
    var n := |kinds| - 1;
    if k < |Starts(kinds[..n])| {
      StartsRise(kinds[..n], k);
    }
  }

  /** The scan that reading and writing share. */
  method FindEntry(kinds: seq<Kind>, crate: string) returns (r: Result<nat, Fault>)
    ensures r == Locate(kinds, crate)
  {
    var bounds := PackageBlocks(kinds);
    ghost var starts := Starts(kinds);
    for k := 0 to |bounds|
      invariant Locate(kinds, crate) == LocateIn(kinds, crate, starts[k..])
    {
      StartsRise(kinds, k);
      var lo, hi := bounds[k].0, bounds[k].1;
      assert starts[k..][1..] == starts[k + 1..];
      if !NamedIn(kinds, lo, hi, crate) {
        continue;
      }
      for j := lo to hi
        invariant VersionIn(kinds, lo, hi) == VersionIn(kinds, j, hi)
      {
        if kinds[j].Version? {
          return Ok(j);
        }
      }
      return Err(NoVersion);
    }
    r := Err(NoEntry);
  }

  // ---- which line that is ----

  /** Block `k` is the first to name `crate`. */
  ghost predicate FirstNamed(kinds: seq<Kind>, crate: string, starts: seq<nat>, k: nat)
    requires forall k :: 0 <= k < |starts| ==> starts[k] < |kinds|
  {
    && k < |starts| && NamedIn(kinds, starts[k], End(kinds, starts, k), crate)
    && forall j :: 0 <= j < k ==> !NamedIn(kinds, starts[j], End(kinds, starts, j), crate)
  }

  /** `i` is the first version line of block `k`. */
  ghost predicate FirstVersionOf(kinds: seq<Kind>, starts: seq<nat>, k: nat, i: nat)
    requires k < |starts|
  {
    && starts[k] <= i < End(kinds, starts, k) <= |kinds| && kinds[i].Version?
    && forall j :: starts[k] <= j < i ==> !kinds[j].Version?
  }

  lemma {:induction false} VersionInMeans(kinds: seq<Kind>, lo: nat, hi: nat)
    requires hi <= |kinds|
    ensures forall j :: lo <= j < hi && (VersionIn(kinds, lo, hi).Some? ==> j < VersionIn(kinds, lo, hi).value) ==>
              !kinds[j].Version?
    decreases hi - lo
  {
    if lo < hi && !kinds[lo].Version? {
      VersionInMeans(kinds, lo + 1, hi);
    }
  }

  /** What the scan finds: without an entry, no block names the crate; otherwise its block
      is the first that does, and its line the first version line of that block, if any. */
  ghost predicate Found(kinds: seq<Kind>, crate: string, starts: seq<nat>, r: Result<nat, Fault>, k: nat)
    requires forall k :: 0 <= k < |starts| ==> starts[k] < |kinds|
  {
    if r == Err(NoEntry) then forall j :: 0 <= j < |starts| ==> !NamedIn(kinds, starts[j], End(kinds, starts, j), crate)
    else
      && FirstNamed(kinds, crate, starts, k)
      && match r
         case Ok(i) => FirstVersionOf(kinds, starts, k, i)
         case Err(_) => forall j :: starts[k] <= j < End(kinds, starts, k) ==> !kinds[j].Version?
  }

  lemma {:induction false} LocateMeans(kinds: seq<Kind>, crate: string, starts: seq<nat>) returns (k: nat)
    requires forall k :: 0 <= k < |starts| ==> starts[k] < |kinds|
    ensures Found(kinds, crate, starts, LocateIn(kinds, crate, starts), k)
  {
    hide NamedIn;
    k := 0;
    if starts != [] {
      var hi := End(kinds, starts, 0);
      if NamedIn(kinds, starts[0], hi, crate) {
        VersionInMeans(kinds, starts[0], hi);
      } else {
        var rest, r := starts[1..], LocateIn(kinds, crate, starts);
        var k' := LocateMeans(kinds, crate, rest);
        k := k' + 1;
        assert forall j :: 0 <= j < |rest| ==> rest[j] == starts[j + 1] && End(kinds, rest, j) == End(kinds, starts, j + 1);
        forall j | 0 < j < |starts| && (r == Err(NoEntry) || j < k) ensures !NamedIn(kinds, starts[j], End(kinds, starts, j), crate) {
          assert !NamedIn(kinds, rest[j - 1], End(kinds, rest, j - 1), crate);
        }
      }
    }
  }

  // ---- the same, in terms of headers ----

  /** A block: a header, up to the next header or the end. */
  ghost predicate Block(kinds: seq<Kind>, lo: nat, hi: nat) {
    && lo < hi <= |kinds| && kinds[lo].Header?
    && (forall j :: lo < j < hi ==> !kinds[j].Header?)
    && (hi == |kinds| || kinds[hi].Header?)
  }

  ghost predicate BlockOf(kinds: seq<Kind>, crate: string, lo: nat, hi: nat) {
    Block(kinds, lo, hi) && exists j :: lo <= j < hi && kinds[j] == Name(crate)
  }

  /** The first block that names the crate. */
  ghost predicate FirstBlockOf(kinds: seq<Kind>, crate: string, lo: nat, hi: nat) {
    BlockOf(kinds, crate, lo, hi) && forall l, h :: BlockOf(kinds, crate, l, h) ==> lo <= l
  }

  ghost predicate Rising(starts: seq<nat>) {
    forall a, b :: 0 <= a < b < |starts| ==> starts[a] < starts[b]
  }

  /** The starts are exactly the headers, in order. */
  lemma {:induction false} StartsMean(kinds: seq<Kind>)
    ensures Rising(Starts(kinds))
    ensures forall i: nat :: i in Starts(kinds) <==> i < |kinds| && kinds[i].Header?
  {
    if kinds == [] {
    } else {
      var n := |kinds| - 1;
      var before := Starts(kinds[..n]);
      StartsMean(kinds[..n]);
      forall i: nat ensures i in Starts(kinds) <==> i < |kinds| && kinds[i].Header? {
        assert i in before <==> i < n && kinds[..n][i].Header?;
      }
    }
  }

  lemma NextStart(starts: seq<nat>, k: nat, x: nat)
    requires Rising(starts) && k < |starts| && x in starts && starts[k] < x
    ensures k + 1 < |starts| && starts[k + 1] <= x
  {
    var l :| 0 <= l < |starts| && starts[l] == x;
    assert l > k;
  }

  lemma BlockHas(kinds: seq<Kind>, k: nat)
    requires k < |Starts(kinds)|
    ensures Block(kinds, Starts(kinds)[k], End(kinds, Starts(kinds), k))
  {
    StartsMean(kinds);
    var starts := Starts(kinds);
    hide Starts;
    assert starts[k] in starts;
    var hi := End(kinds, starts, k);
    assert k + 1 < |starts| ==> starts[k + 1] in starts;
    forall j | starts[k] < j < hi ensures !kinds[j].Header? {
      if kinds[j].Header? {
        NextStart(starts, k, j);
      }
    }
  }

  lemma BlockStarts(kinds: seq<Kind>, lo: nat, hi: nat) returns (k: nat)
    requires Block(kinds, lo, hi)
    ensures k < |Starts(kinds)| && Starts(kinds)[k] == lo && End(kinds, Starts(kinds), k) == hi
  {
    StartsMean(kinds);
    var starts := Starts(kinds);
    hide Starts;
    assert lo in starts;
    k :| 0 <= k < |starts| && starts[k] == lo;
    if k + 1 < |starts| {
      assert starts[k + 1] in starts;
    }
    if hi < |kinds| {
      assert hi in starts;
      NextStart(starts, k, hi);
    }
  }

  /** The first version line of a block, if it has one. */
  ghost predicate VersionOf(kinds: seq<Kind>, lo: nat, hi: nat, r: Result<nat, Fault>) {
    && hi <= |kinds|
    && match r
       case Ok(i) => lo <= i < hi && kinds[i].Version? && forall j :: lo <= j < i ==> !kinds[j].Version?
       case Err(e) => e == NoVersion && forall j :: lo <= j < hi ==> !kinds[j].Version?
  }

  /** The scan finds the first version line of the first block that names the crate; it fails
      for want of such a block, or of a version line in it. */
  lemma LocateExact(kinds: seq<Kind>, crate: string) returns (lo: nat, hi: nat)
    ensures var r := Locate(kinds, crate);
            if forall l, h :: !BlockOf(kinds, crate, l, h) then r == Err(NoEntry)
            else FirstBlockOf(kinds, crate, lo, hi) && VersionOf(kinds, lo, hi, r)
  {
    var starts, r := Starts(kinds), Locate(kinds, crate);
    var k := LocateMeans(kinds, crate, starts);
    hide Starts, Locate, LocateIn, Block;
    lo, hi := 0, 0;
    forall l, h | BlockOf(kinds, crate, l, h) ensures r != Err(NoEntry) && k < |starts| && starts[k] <= l {
      var i := BlockStarts(kinds, l, h);
      assert NamedIn(kinds, starts[i], End(kinds, starts, i), crate);
      FirstIsFirst(kinds, crate, starts, r, k, i);
    }
    if r != Err(NoEntry) {
      BlockHas(kinds, k);
      lo, hi := starts[k], End(kinds, starts, k);
      assert BlockOf(kinds, crate, lo, hi);
      assert VersionOf(kinds, lo, hi, r);
    }
  }

  lemma FirstIsFirst(kinds: seq<Kind>, crate: string, starts: seq<nat>, r: Result<nat, Fault>, k: nat, i: nat)
    requires starts == Starts(kinds) && Found(kinds, crate, starts, r, k)
    requires i < |starts| && NamedIn(kinds, starts[i], End(kinds, starts, i), crate)
    ensures r != Err(NoEntry) && k < |starts| && starts[k] <= starts[i]
  {
    StartsMean(kinds);
    hide Starts, NamedIn;
  }

  // ---- lines that look the same to the scan ----

  /** The same kinds, but for the versions. */
  ghost predicate Alike(a: seq<Kind>, b: seq<Kind>) {
    |a| == |b| && forall j :: 0 <= j < |a| ==> a[j] == b[j] || (a[j].Version? && b[j].Version?)
  }

  lemma {:induction false} StartsAlike(a: seq<Kind>, b: seq<Kind>)
    requires Alike(a, b)
    ensures Starts(a) == Starts(b)
  {
    if a == [] {
    } else {
      StartsAlike(a[..|a| - 1], b[..|a| - 1]);
    }
  }

  lemma {:induction false} VersionInAlike(a: seq<Kind>, b: seq<Kind>, lo: nat, hi: nat)
    requires hi <= |a| && hi <= |b| && forall j :: lo <= j < hi ==> a[j].Version? == b[j].Version?
    ensures VersionIn(a, lo, hi) == VersionIn(b, lo, hi)
    decreases hi - lo
  {
    if lo < hi {
      VersionInAlike(a, b, lo + 1, hi);
    }
  }

  lemma {:induction false} LocateAlike(a: seq<Kind>, b: seq<Kind>, crate: string, starts: seq<nat>)
    requires Alike(a, b)
    requires forall k :: 0 <= k < |starts| ==> starts[k] < |a|
    ensures LocateIn(a, crate, starts) == LocateIn(b, crate, starts)
  {
    if starts != [] {
      VersionInAlike(a, b, starts[0], End(a, starts, 0));
      LocateAlike(a, b, crate, starts[1..]);
    }
  }

  /** Writing another version leaves the place where it is found. */
  lemma WriteLocates(kinds: seq<Kind>, crate: string, v: string)
    requires Locate(kinds, crate).Ok?
    ensures Locate(kinds[Locate(kinds, crate).value := Version(v)], crate) == Locate(kinds, crate)
  {
    var after := kinds[Locate(kinds, crate).value := Version(v)];
    StartsAlike(kinds, after);
    LocateAlike(kinds, after, crate, Starts(kinds));
  }

  lemma {:induction false} VersionInMore(a: seq<Kind>, lo: nat)
    ensures VersionIn(a + [OtherLine], lo, |a| + 1) == VersionIn(a, lo, |a|)
    decreases |a| - lo
  {
    if lo < |a| {
      VersionInMore(a, lo + 1);
    } else if lo == |a| {
      assert (a + [OtherLine])[lo] == OtherLine && VersionIn(a + [OtherLine], lo + 1, |a| + 1) == None;
    }
  }

  lemma {:induction false} LocateInMore(a: seq<Kind>, crate: string, starts: seq<nat>)
    requires forall k :: 0 <= k < |starts| ==> starts[k] < |a|
    ensures LocateIn(a + [OtherLine], crate, starts) == LocateIn(a, crate, starts)
  {
    if starts != [] {
      var b, lo, hi := a + [OtherLine], starts[0], End(a, starts, 0);
      VersionInAlike(a, b, lo, hi);
      assert NamedIn(a, lo, hi, crate) <==> NamedIn(b, lo, End(b, starts, 0), crate);
      if |starts| == 1 {
        VersionInMore(a, lo);
      }
      LocateInMore(a, crate, starts[1..]);
    }
  }

  /** A line at the end that means nothing changes nothing. */
  lemma LocateMore(a: seq<Kind>, crate: string)
    ensures Locate(a + [OtherLine], crate) == Locate(a, crate)
  {
    var b := a + [OtherLine];
    assert b[..|b| - 1] == a && b[|b| - 1] == OtherLine;
    assert Starts(b) == Starts(a);
    LocateInMore(a, crate, Starts(a));
  }

  // ---- the manifest ----

  datatype ManifestLine = Table(package: bool) | Declaration(version: string) | OtherManifestLine

  /** The last table header before line `i` is `[package]`. */
  predicate InPackage(lines: seq<ManifestLine>, i: nat)
    requires i <= |lines|
  {
    i > 0 && if lines[i - 1].Table? then lines[i - 1].package else InPackage(lines, i - 1)
  }

  /** The version on the first line from `i` on that declares one in `[package]`. */
  function Declared(lines: seq<ManifestLine>, i: nat): Option<string>
    requires i <= |lines|
    decreases |lines| - i
  {
    if i == |lines| then None
    else if lines[i].Declaration? && InPackage(lines, i) then Some(lines[i].version)
    else Declared(lines, i + 1)
  }

  method FindDeclared(lines: seq<ManifestLine>) returns (v: Option<string>)
    ensures v == Declared(lines, 0)
  {
    var inPackage := false;
    for i := 0 to |lines|
      invariant inPackage == InPackage(lines, i)
      invariant Declared(lines, 0) == Declared(lines, i)
    {
      if lines[i].Table? {
        inPackage := lines[i].package;
        continue;
      }
      if !inPackage {
        continue;
      }
      if lines[i].Declaration? {
        return Some(lines[i].version);
      }
    }
    v := None;
  }

  lemma {:induction false} DeclaredComes(lines: seq<ManifestLine>, i: nat)
    requires i <= |lines| && Declared(lines, i).Some?
    ensures exists j :: 0 <= j < |lines| && lines[j] == Declaration(Declared(lines, i).value)
    decreases |lines| - i
  {
    if !(lines[i].Declaration? && InPackage(lines, i)) {
      DeclaredComes(lines, i + 1);
    }
  }

  /** Line `i` declares a version under a `[package]` header: header `h` is the last table
      header before it. */
  ghost predicate DeclaredUnder(lines: seq<ManifestLine>, h: nat, i: nat) {
    && h < i < |lines| && lines[i].Declaration?
    && lines[h] == Table(true) && forall j :: h < j < i ==> !lines[j].Table?
  }

  lemma {:induction false} InPackageMeans(lines: seq<ManifestLine>, i: nat)
    requires i <= |lines|
    ensures InPackage(lines, i) <==> exists h :: 0 <= h < i && lines[h] == Table(true) && forall j :: h < j < i ==> !lines[j].Table?
  {
    if i > 0 && !lines[i - 1].Table? {
      InPackageMeans(lines, i - 1);
    }
  }

  /** The version of the package is that of the first line that declares one under its header. */
  lemma {:induction false} DeclaredMeans(lines: seq<ManifestLine>, i: nat)
    requires i <= |lines|
    ensures Declared(lines, i) == None <==> forall h, k :: i <= k && DeclaredUnder(lines, h, k) ==> false
    ensures Declared(lines, i).Some? ==>
              exists h, k :: i <= k && DeclaredUnder(lines, h, k) && Declared(lines, i) == Some(lines[k].version)
                && forall h', k' :: i <= k' && DeclaredUnder(lines, h', k') ==> k <= k'
    decreases |lines| - i
  {
    if i < |lines| {
      InPackageMeans(lines, i);
      if lines[i].Declaration? && InPackage(lines, i) {
        var h :| 0 <= h < i && lines[h] == Table(true) && forall j :: h < j < i ==> !lines[j].Table?;
        assert DeclaredUnder(lines, h, i);
      } else {
        assert forall h: nat :: !DeclaredUnder(lines, h, i);
        DeclaredMeans(lines, i + 1);
      }
    }
  }
}
