/** The Go mutation gate: a pass means that every mutant on a changed line was killed, could
    not be built, or was waived for exactly what it does.

    A path is its components.  Each mutation run is an oracle: what `go list`, the report
    and the listing of the package directory gave for one directory. */
module GoMutationGate {
  import opened Options
  import CargoText

  /** The components of a path relative to the module; the root has none. */
  type Dir = seq<string>

  /** A field of a report entry: JSON, or absent. */
  datatype Field = Missing | Int(n: int) | Boolean(b: bool) | Text(s: string) | Odd

  datatype Mutant = Mutant(line: Field, column: Field, status: Field, kind: Field)

  datatype FileReport = FileReport(name: Field, mutations: seq<Mutant>)

  datatype Run = Run(buildable: bool, report: Option<seq<FileReport>>, files: set<Dir>)

  /** A hash, taken as ideal, of mutator, stripped line and offset within that line. */
  datatype Digest = Digest(kind: string, stripped: string, offset: int)

  datatype Waiver = Waiver(file: string, kind: string, digest: Digest)

  type Located = (string, Mutant)

  // ---- paths ----

  function UpToSlash(s: string): (n: nat)
    ensures n <= |s|
    ensures forall i :: 0 <= i < n ==> s[i] != '/'
    ensures n < |s| ==> s[n] == '/'
  {
    if s == "" || s[0] == '/' then 0 else 1 + UpToSlash(s[1..])
  }

  function KeepPart(part: string): Dir {
    if part == "" || part == "." then [] else [part]
  }

  /** The components of a relative path as written; empty and `.` components vanish. */
  function Parts(s: string): Dir {
    var n := UpToSlash(s);
    KeepPart(s[..n]) + if n == |s| then [] else Parts(s[n + 1..])
  }

  function Slashes(p: Dir): string {
    if p == [] then ""
    else if |p| == 1 then p[0]
    else p[0] + "/" + Slashes(p[1..])
  }

  /** The one normal spelling of a path. */
  function Show(p: Dir): string {
    if p == [] then "." else Slashes(p)
  }

  function Parent(f: string): Dir {
    if Parts(f) == [] then [] else Parts(f)[..|Parts(f)| - 1]
  }

  predicate StartsWith(s: string, c: char) {
    s != "" && s[0] == c
  }

  /** A path that the go tool never compiles. */
  predicate Ignored(f: string) {
    exists i :: 0 <= i < |Parts(f)| &&
      (Parts(f)[i] == "testdata" || StartsWith(Parts(f)[i], '_') || StartsWith(Parts(f)[i], '.'))
  }

  /** The directories to run: those of the changed files, less those below another. */
  function PackageDirs(files: set<string>): set<Dir> {
    var dirs := set f | f in files :: Parent(f);
    set d | d in dirs && !exists o :: o in dirs && o != d && o <= d
  }

  // ---- one report ----

  predicate IsIndex(f: Field, minimum: int) {
    f.Int? && f.n >= minimum
  }

  predicate IsName(f: Field) {
    f.Text? && f.s != ""
  }

  predicate WellFormed(m: Mutant) {
    IsIndex(m.line, 1) && IsIndex(m.column, 0) && IsName(m.status) && IsName(m.kind)
  }

  function Tag(file: string, ms: seq<Mutant>): (located: seq<Located>)
    ensures forall x :: x in located <==> x.0 == file && x.1 in ms
  {
    if ms == [] then [] else Tag(file, ms[..|ms| - 1]) + [(file, ms[|ms| - 1])]
  }

  /** A file name that stays inside the directory of the run. */
  predicate Usable(name: Field) {
    IsName(name) && !StartsWith(name.s, '/') && ".." !in Parts(name.s)
  }

  /** The mutants of a report under module-relative names; `None` if a name is unusable. */
  function Reanchored(report: seq<FileReport>, dir: Dir): Option<seq<Located>> {
    if report == [] then Some([])
    else
      var before, f := Reanchored(report[..|report| - 1], dir), report[|report| - 1];
      if before.None? || !Usable(f.name) then None
      else Some(before.value + Tag(Show(dir + Parts(f.name.s)), f.mutations))
  }

  method ReportMutants(report: seq<FileReport>, dir: Dir) returns (r: Option<seq<Located>>)
    ensures r == Reanchored(report, dir)
  {
    hide Show, Parts;
    var anchored: seq<Located> := [];
    for i := 0 to |report|
      invariant Reanchored(report[..i], dir) == Some(anchored)
    {
      var f := report[i];
      assert report[..i + 1][..i] == report[..i];
      if !Usable(f.name) {
        StaysNone(report, dir, i + 1);
        return None;
      }
      anchored := anchored + Tag(Show(dir + Parts(f.name.s)), f.mutations);
    }
    assert report[..|report|] == report;
    r := Some(anchored);
  }

  lemma {:induction false} StaysNone(report: seq<FileReport>, dir: Dir, n: nat)
    requires n <= |report| && Reanchored(report[..n], dir) == None
    ensures Reanchored(report, dir) == None
    decreases |report|
  {
    hide Usable, Show, Parts;
    if n == |report| {
      assert report[..n] == report;
    } else {
      var m := |report| - 1;
      assert report[..m][..n] == report[..n];
      StaysNone(report[..m], dir, n);
    }
  }

  /** A file name as a report may give it: a relative path that never goes up. */
  ghost predicate RelativeName(name: Field) {
    name.Text? && name.s != "" && name.s[0] != '/' && ".." !in Parts(name.s)
  }

  /** The path of a reported file below the directory of the run. */
  ghost function PathOf(f: FileReport, dir: Dir): string {
    if f.name.Text? then Show(dir + Parts(f.name.s)) else ""
  }

  /** `x` is a mutant of this file. */
  ghost predicate InFile(f: FileReport, dir: Dir, x: Located) {
    x.0 == PathOf(f, dir) && x.1 in f.mutations
  }

  ghost predicate Lists(report: seq<FileReport>, dir: Dir, x: Located) {
    exists i :: 0 <= i < |report| && InFile(report[i], dir, x)
  }

  lemma ListsMore(report: seq<FileReport>, dir: Dir, x: Located)
    requires report != []
    ensures var n := |report| - 1; Lists(report, dir, x) <==> Lists(report[..n], dir, x) || InFile(report[n], dir, x)
  {
    hide InFile;
    var n := |report| - 1;
    if Lists(report[..n], dir, x) {
      var i :| 0 <= i < n && InFile(report[..n][i], dir, x);
      assert InFile(report[i], dir, x);
    }
    if Lists(report, dir, x) {
      var i :| 0 <= i < |report| && InFile(report[i], dir, x);
      assert i < n ==> report[..n][i] == report[i];
    }
  }

  /** A report is refused exactly if some file name is not relative. */
  lemma {:induction false} NamesAreRelative(report: seq<FileReport>, dir: Dir)
    ensures Reanchored(report, dir).Some? <==> forall i :: 0 <= i < |report| ==> RelativeName(report[i].name)
  {
    hide Show, Parts;
    if report == [] {
    } else {
      var n := |report| - 1;
      NamesAreRelative(report[..n], dir);
      assert forall i :: 0 <= i < n ==> report[..n][i] == report[i];
    }
  }

  /** Otherwise it gives the mutants that the files list, all of them and no others. */
  lemma {:induction false} ReportIsKept(report: seq<FileReport>, dir: Dir, x: Located)
    requires Reanchored(report, dir).Some?
    ensures x in Reanchored(report, dir).value <==> Lists(report, dir, x)
  {
    hide Show, Parts, Lists;
    if report == [] {
      assert !Lists(report, dir, x) by {
        ListsNothing(dir, x);
      }
    } else {
      ReportIsKept(report[..|report| - 1], dir, x);
      ListsMore(report, dir, x);
    }
  }

  lemma ListsNothing(dir: Dir, x: Located)
    ensures !Lists([], dir, x)
  {
  }

  const MIN_TESTED := 5

  predicate WasTested(m: Mutant) {
    m.status != Text("SKIPPED") && m.status != Text("NOT COVERED")
  }

  function Tested(ms: seq<Located>): seq<Located> {
    if ms == [] then []
    else Tested(ms[..|ms| - 1]) + if WasTested(ms[|ms| - 1].1) then [ms[|ms| - 1]] else []
  }

  /** A run that tested enough mutants has killed one. */
  predicate Healthy(ms: seq<Located>) {
    |Tested(ms)| < MIN_TESTED || exists i :: 0 <= i < |ms| && ms[i].1.status == Text("KILLED")
  }

  method HealthCheck(ms: seq<Located>) returns (healthy: bool)
    ensures healthy <==> Healthy(ms)
  {
    var tested, killed := 0, 0;
    for i := 0 to |ms|
      invariant tested == |Tested(ms[..i])|
      invariant killed > 0 <==> exists k :: 0 <= k < i && ms[k].1.status == Text("KILLED")
      invariant killed >= 0
    {
      assert ms[..i + 1][..i] == ms[..i];
      if WasTested(ms[i].1) {
        tested := tested + 1;
        if ms[i].1.status == Text("KILLED") {
          killed := killed + 1;
        }
      }
    }
    assert ms[..|ms|] == ms;
    healthy := tested < MIN_TESTED || killed > 0;
  }

  /** The package's files as the listing spells them. */
  function Listed(dir: Dir, files: set<Dir>): set<string> {
    set r | r in files :: Show(dir + r)
  }

  /** Report paths and changed-file keys below `dir` are all spelled as the listing does. */
  predicate SameSpelling(dir: Dir, run: Run, ms: seq<Located>, lines: map<string, set<int>>) {
    && (forall i :: 0 <= i < |ms| ==> ms[i].0 in Listed(dir, run.files))
    && (forall f :: f in lines && dir <= Parts(f) ==> f in Listed(dir, run.files))
  }

  /** Every guard on one run holds. */
  predicate RunSound(dir: Dir, run: Run, lines: map<string, set<int>>) {
    && run.buildable && run.report.Some?
    && var ms := Reanchored(run.report.value, dir);
    ms.Some? && ms.value != [] && Healthy(ms.value) && SameSpelling(dir, run, ms.value, lines)
  }

  method GatePackage(dir: Dir, run: Run, lines: map<string, set<int>>) returns (r: Result<seq<Located>, int>)
    ensures r.Ok? <==> RunSound(dir, run, lines)
    ensures r.Ok? ==> run.report.Some? && Some(r.value) == Reanchored(run.report.value, dir)
    ensures r.Err? ==> r.error == 2
  {
    if !run.buildable || run.report.None? {
      return Err(2);
    }
    var mutants := ReportMutants(run.report.value, dir);
    if mutants.None? || mutants.value == [] {
      return Err(2);
    }
    var healthy := HealthCheck(mutants.value);
    if !healthy || !SameSpelling(dir, run, mutants.value, lines) {
      return Err(2);
    }
    r := Ok(mutants.value);
  }

  // ---- judging the mutants ----

  const KILLED_STATUSES := ["KILLED", "NOT VIABLE"]

  /** Pins a mutant to its transformation; `None` if its position cannot be resolved. */
  function MutantHash(lines: seq<string>, line: int, column: int, kind: string): Option<Digest> {
    if !(1 <= line <= |lines|) then None
    else
      var raw := lines[line - 1];
      var stripped := CargoText.Strip(raw);
      if stripped == "" then None
      else Some(Digest(kind, stripped, column - (|raw| - |CargoText.TrimLeft(raw)|)))
  }

  function SourceOf(sources: map<string, seq<string>>, f: string): seq<string> {
    if f in sources then sources[f] else []
  }

  /** Dead, or waived for exactly its file, mutator and content; a skipped mutant cannot be
      waived. */
  predicate Acceptable(x: Located, waivers: set<Waiver>, sources: map<string, seq<string>>)
    requires WellFormed(x.1)
  {
    var (f, m) := x;
    var digest := MutantHash(SourceOf(sources, f), m.line.n, m.column.n, m.kind.s);
    || m.status.s in KILLED_STATUSES
    || (m.status.s != "SKIPPED" && digest.Some? && Waiver(f, m.kind.s, digest.value) in waivers)
  }

  method EvaluateGo(inScope: seq<Located>, waivers: set<Waiver>, sources: map<string, seq<string>>)
    returns (unwaived: seq<Located>, waived: seq<Located>)
    requires forall x :: x in inScope ==> WellFormed(x.1)
    ensures forall x :: x in unwaived <==> x in inScope && !Acceptable(x, waivers, sources)
    ensures forall x :: x in waived <==> x in inScope && Acceptable(x, waivers, sources) && x.1.status.s !in KILLED_STATUSES
  {
    unwaived, waived := [], [];
    for i := 0 to |inScope|
      invariant forall x :: x in unwaived <==> x in inScope[..i] && !Acceptable(x, waivers, sources)
      invariant forall x :: x in waived <==> x in inScope[..i] && Acceptable(x, waivers, sources) && x.1.status.s !in KILLED_STATUSES
    {
      var x := inScope[i];
      assert inScope[..i + 1] == inScope[..i] + [x];
      var (f, m) := x;
      if m.status.s in KILLED_STATUSES {
        continue;
      }
      var digest := MutantHash(SourceOf(sources, f), m.line.n, m.column.n, m.kind.s);
      var waivable := m.status.s != "SKIPPED" && digest.Some?;
      if waivable && Waiver(f, m.kind.s, digest.value) in waivers {
        waived := waived + [x];
        continue;
      }
      unwaived := unwaived + [x];
    }
    assert inScope[..|inScope|] == inScope;
  }

  // ---- the gate ----

  /** Mutant `x` was reported by the run over `dir`. */
  ghost predicate Reported(runs: map<Dir, Run>, dir: Dir, x: Located) {
    && dir in runs && runs[dir].report.Some?
    && Reanchored(runs[dir].report.value, dir).Some? && x in Reanchored(runs[dir].report.value, dir).value
  }

  predicate InScope(x: Located, lines: map<string, set<int>>) {
    x.0 in lines && x.1.line.Int? && x.1.line.n in lines[x.0]
  }

  ghost predicate RunsSound(dirs: set<Dir>, runs: map<Dir, Run>, lines: map<string, set<int>>) {
    forall d :: d in dirs ==> d in runs && RunSound(d, runs[d], lines)
  }

  ghost predicate AllWellFormed(dirs: set<Dir>, runs: map<Dir, Run>) {
    forall d, x :: d in dirs && Reported(runs, d, x) ==> WellFormed(x.1)
  }

  ghost predicate AllAcceptable(dirs: set<Dir>, runs: map<Dir, Run>, lines: map<string, set<int>>,
                                waivers: set<Waiver>, sources: map<string, seq<string>>)
  {
    forall d, x :: d in dirs && Reported(runs, d, x) && InScope(x, lines) ==>
      WellFormed(x.1) && Acceptable(x, waivers, sources)
  }

  ghost predicate Collected(ms: seq<Located>, dirs: set<Dir>, runs: map<Dir, Run>) {
    && (forall x :: x in ms ==> exists d :: d in dirs && Reported(runs, d, x))
    && (forall d, x :: d in dirs && Reported(runs, d, x) ==> x in ms)
  }

  /** Every run in turn, stopping at the first that is not sound. */
  method RunAll(dirs: set<Dir>, runs: map<Dir, Run>, lines: map<string, set<int>>) returns (r: Option<seq<Located>>)
    requires dirs <= runs.Keys
    ensures r.Some? <==> RunsSound(dirs, runs, lines)
    ensures r.Some? ==> Collected(r.value, dirs, runs)
  {
    hide RunSound, Reanchored;
    var ms: seq<Located> := [];
    var todo := dirs;
    while todo != {}
      invariant todo <= dirs
      invariant RunsSound(dirs - todo, runs, lines)
      invariant Collected(ms, dirs - todo, runs)
    {
      var d :| d in todo;
      var one := GatePackage(d, runs[d], lines);
      if one.Err? {
        return None;
      }
      CollectMore(ms, one.value, dirs - todo, d, runs);
      ms := ms + one.value;
      assert dirs - (todo - {d}) == dirs - todo + {d};
      todo := todo - {d};
    }
    assert dirs - todo == dirs;
    r := Some(ms);
  }

  lemma CollectMore(ms: seq<Located>, one: seq<Located>, dirs: set<Dir>, d: Dir, runs: map<Dir, Run>)
    requires Collected(ms, dirs, runs) && d in runs && runs[d].report.Some?
    requires Reanchored(runs[d].report.value, d) == Some(one)
    ensures Collected(ms + one, dirs + {d}, runs)
  {
    hide Reanchored;
    forall x | x in ms + one ensures exists e :: e in dirs + {d} && Reported(runs, e, x) {
      if x in one {
        assert Reported(runs, d, x);
      } else {
        var e :| e in dirs && Reported(runs, e, x);
        assert e in dirs + {d};
      }
    }
  }

  /** The exit code, given what the diff, the allowlist and the runs gave. */
  method GateGo(changed: set<string>, lines: map<string, set<int>>, waivers: Option<set<Waiver>>,
                runs: map<Dir, Run>, sources: map<string, seq<string>>) returns (code: int)
    requires lines.Keys == set f | f in changed && !Ignored(f)
    requires PackageDirs(lines.Keys) <= runs.Keys
    ensures code == 0 <==> lines == map[] || (waivers.Some? && Green(lines, runs, waivers.value, sources))
    ensures code == 2 <==>
              && lines != map[] && waivers.Some?
              && !(RunsSound(PackageDirs(lines.Keys), runs, lines) && AllWellFormed(PackageDirs(lines.Keys), runs))
    ensures code in {0, 1, 2}
  {
    if changed == {} {
      return 0;
    }
    var gatable := lines.Keys;
    if gatable == {} {
      return 0;
    }
    if waivers.None? {
      return 1;
    }
    var dirs := PackageDirs(gatable);
    hide RunsSound, PackageDirs, Ignored;
    var mutants := RunAll(dirs, runs, lines);
    if mutants.None? {
      return 2;
    }
    code := Judge(mutants.value, dirs, lines, waivers.value, runs, sources);
  }

  method Judge(ms: seq<Located>, ghost dirs: set<Dir>, lines: map<string, set<int>>, waivers: set<Waiver>,
               ghost runs: map<Dir, Run>, sources: map<string, seq<string>>) returns (code: int)
    requires Collected(ms, dirs, runs)
    ensures code == 2 <==> !AllWellFormed(dirs, runs)
    ensures code == 0 <==> AllWellFormed(dirs, runs) && AllAcceptable(dirs, runs, lines, waivers, sources)
    ensures code in {0, 1, 2}
  {
    hide Reported, WellFormed, Acceptable;
    var malformed := false;
    for i := 0 to |ms|
      invariant malformed <==> exists k :: 0 <= k < i && !WellFormed(ms[k].1)
    {
      malformed := malformed || !WellFormed(ms[i].1);
    }
    if malformed {
      ghost var k :| 0 <= k < |ms| && !WellFormed(ms[k].1);
      assert ms[k] in ms;
      ghost var d :| d in dirs && Reported(runs, d, ms[k]);
      assert !AllWellFormed(dirs, runs);
      return 2;
    }
    assert forall k :: 0 <= k < |ms| ==> WellFormed(ms[k].1);
    var inScope: seq<Located> := [];
    for i := 0 to |ms|
      invariant forall x :: x in inScope <==> x in ms[..i] && InScope(x, lines)
    {
      assert ms[..i + 1] == ms[..i] + [ms[i]];
      if InScope(ms[i], lines) {
        inScope := inScope + [ms[i]];
      }
    }
    assert ms[..|ms|] == ms;
    if inScope == [] {
      return 0;
    }
    var unwaived, waived := EvaluateGo(inScope, waivers, sources);
    if unwaived != [] {
      assert unwaived[0] in inScope && !Acceptable(unwaived[0], waivers, sources);
      return 1;
    }
    code := 0;
  }

  // ---- a waiver follows its line ----

  lemma HashIs(lines: seq<string>, line: int, column: int, kind: string, indent: string, body: string, pad: string)
    requires 1 <= line <= |lines| && CargoText.Laid(lines[line - 1], indent, body, pad)
    ensures MutantHash(lines, line, column, kind) == Some(Digest(kind, body, column - |indent|))
  {
    CargoText.StripLaid(lines[line - 1], indent, body, pad);
    hide *;
  }

  /** Two mutants have the same hash exactly if they have the same mutator, at the same place of
      the same text: moving a line or changing the white space around it leaves its hashes
      alone, and nothing else does. */
  lemma HashFollowsLine(lines: seq<string>, line: int, column: int, kind: string, indent: string, body: string, pad: string,
                        lines': seq<string>, line': int, column': int, kind': string, indent': string, body': string, pad': string)
    requires 1 <= line <= |lines| && CargoText.Laid(lines[line - 1], indent, body, pad)
    requires 1 <= line' <= |lines'| && CargoText.Laid(lines'[line' - 1], indent', body', pad')
    ensures MutantHash(lines, line, column, kind) == MutantHash(lines', line', column', kind') <==>
              kind == kind' && body == body' && column - |indent| == column' - |indent'|
  {
    hide CargoText.Laid;
    HashIs(lines, line, column, kind, indent, body, pad);
    HashIs(lines', line', column', kind', indent', body', pad');
  }

  /** There is a hash exactly if the line exists and is not blank. */
  lemma HashExists(lines: seq<string>, line: int, column: int, kind: string)
    ensures MutantHash(lines, line, column, kind).Some? <==> 1 <= line <= |lines| && !CargoText.Blank(lines[line - 1])
  {
    if 1 <= line <= |lines| {
      CargoText.StripBlank(lines[line - 1]);
      hide CargoText.Strip, CargoText.Blank, CargoText.TrimLeft;
    }
  }

  // ---- which directories are run ----

  lemma PrefixesCompare<T>(a: seq<T>, b: seq<T>, p: seq<T>)
    requires a <= p && b <= p
    ensures a <= b || b <= a
  {
    if |a| <= |b| {
      assert forall i :: 0 <= i < |a| ==> a[i] == p[i] && b[i] == p[i];
    } else {
      assert forall i :: 0 <= i < |b| ==> a[i] == p[i] && b[i] == p[i];
    }
  }

  lemma {:induction false} SomeAncestor(dirs: set<Dir>, d: Dir) returns (top: Dir)
    requires d in dirs
    ensures top in dirs && top <= d && !exists o :: o in dirs && o != top && o <= top
    decreases |d|
  {
    if exists o :: o in dirs && o != d && o <= d {
      var o :| o in dirs && o != d && o <= d;
      assert |o| < |d|;
      top := SomeAncestor(dirs, o);
      assert forall i :: 0 <= i < |top| ==> top[i] == o[i] && o[i] == d[i];
    } else {
      top := d;
    }
  }

  /** The directories run are pairwise not nested, and each changed file lies below exactly
      one of them. */
  lemma OneRunPerFile(files: set<string>, f: string) returns (dir: Dir)
    requires f in files
    ensures dir in PackageDirs(files) && dir <= Parent(f)
    ensures exists g :: g in files && Parent(g) == dir
    ensures forall d :: d in PackageDirs(files) && d <= Parent(f) ==> d == dir
    ensures forall d, e :: d in PackageDirs(files) && e in PackageDirs(files) && d <= e ==> d == e
  {
    var dirs := set g | g in files :: Parent(g);
    dir := SomeAncestor(dirs, Parent(f));
    forall d | d in PackageDirs(files) && d <= Parent(f) ensures d == dir {
      PrefixesCompare(d, dir, Parent(f));
    }
  }

  // ---- one spelling per file ----

  predicate Component(part: string) {
    part != "" && part != "." && forall i :: 0 <= i < |part| ==> part[i] != '/'
  }

  ghost predicate Normal(p: Dir) {
    forall i :: 0 <= i < |p| ==> Component(p[i])
  }

  lemma PartsCons(part: string, rest: string)
    requires Component(part)
    ensures Parts(part + "/" + rest) == [part] + Parts(rest)
  {
    var s := part + "/" + rest;
    assert s[|part|] == '/' && forall i :: 0 <= i < |part| ==> s[i] == part[i];
    assert UpToSlash(s) == |part|;
    assert s[..|part|] == part && s[|part| + 1..] == rest;
  }

  lemma PartsOne(part: string)
    requires Component(part)
    ensures Parts(part) == [part]
  {
    assert UpToSlash(part) == |part| && part[..|part|] == part;
  }

  /** A normal path is read back from its spelling. */
  lemma {:induction false} PartsShow(p: Dir)
    requires Normal(p)
    ensures Parts(Show(p)) == p
    ensures p == [] ==> Show(p) == "."
  {
    if p == [] {
      assert UpToSlash(".") == 1 && "."[..1] == ".";
    } else if |p| == 1 {
      PartsOne(p[0]);
    } else {
      hide Parts;
      PartsShow(p[1..]);
      PartsCons(p[0], Slashes(p[1..]));
      assert p == [p[0]] + p[1..];
    }
  }

  lemma SameSpellingOnce(dir: Dir, files: set<Dir>, f: string, g: string)
    requires forall r :: r in files ==> Normal(dir + r)
    requires f in Listed(dir, files) && g in Listed(dir, files) && Parts(f) == Parts(g)
    ensures f == g
  {
    hide Parts, Show;
    var p :| p in files && f == Show(dir + p);
    var q :| q in files && g == Show(dir + q);
    PartsShow(dir + p);
    PartsShow(dir + q);
  }

  lemma {:induction false} PartsNormal(s: string)
    ensures Normal(Parts(s))
    decreases |s|
  {
    var n := UpToSlash(s);
    if n < |s| {
      PartsNormal(s[n + 1..]);
    }
  }

  /** The directory of a path in its normal spelling. */
  lemma ParentIs(p: Dir)
    requires Normal(p) && p != []
    ensures Parent(Show(p)) == p[..|p| - 1]
  {
    hide Parts, Show;
    PartsShow(p);
  }

  /** The go tool skips a path with a component `testdata`, or one that begins with an
      underscore or a dot. */
  lemma IgnoredIs(p: Dir)
    requires Normal(p)
    ensures Ignored(Show(p)) <==>
              exists i :: 0 <= i < |p| && (p[i] == "testdata" || p[i][0] == '_' || p[i][0] == '.')
  {
    hide Parts, Show;
    PartsShow(p);
  }

  // ---- a green run, read off the report ----

  /** The gate exits 0 with changed, compilable files to judge. */
  ghost predicate Green(lines: map<string, set<int>>, runs: map<Dir, Run>, waivers: set<Waiver>, sources: map<string, seq<string>>) {
    var dirs := PackageDirs(lines.Keys);
    && RunsSound(dirs, runs, lines) && AllWellFormed(dirs, runs)
    && AllAcceptable(dirs, runs, lines, waivers, sources)
  }

  /** An entry with a position, a status and a mutator. */
  ghost predicate Entry(m: Mutant) {
    && m.line.Int? && m.line.n >= 1 && m.column.Int? && m.column.n >= 0
    && m.status.Text? && m.status.s != "" && m.kind.Text? && m.kind.s != ""
  }

  /** Killed, not viable, or waived for its file, mutator and content and not skipped. */
  ghost predicate Excused(m: Mutant, f: string, waivers: set<Waiver>, sources: map<string, seq<string>>)
    requires Entry(m)
  {
    || m.status.s == "KILLED" || m.status.s == "NOT VIABLE"
    || (m.status.s != "SKIPPED" && f in sources
        && var digest := MutantHash(sources[f], m.line.n, m.column.n, m.kind.s);
        digest.Some? && Waiver(f, m.kind.s, digest.value) in waivers)
  }

  ghost predicate Counts(m: Mutant) {
    m.status != Text("SKIPPED") && m.status != Text("NOT COVERED")
  }

  /** The mutants of a report that were tested, by file and position. */
  ghost function TestedAt(report: seq<FileReport>): set<(int, int)> {
    set i, j | 0 <= i < |report| && 0 <= j < |report[i].mutations| && Counts(report[i].mutations[j]) :: (i, j)
  }

  ghost function TestedIn(n: int, ms: seq<Mutant>): set<(int, int)> {
    set j | 0 <= j < |ms| && Counts(ms[j]) :: (n, j)
  }

  lemma {:induction false} TestedPlus(a: seq<Located>, b: seq<Located>)
    ensures Tested(a + b) == Tested(a) + Tested(b)
  {
    if b == [] {
      assert a + b == a;
    } else {
      assert (a + b)[..|a| + |b| - 1] == a + b[..|b| - 1];
      TestedPlus(a, b[..|b| - 1]);
    }
  }

  lemma TestedInMore(n: int, ms: seq<Mutant>)
    requires ms != []
    ensures var k := |ms| - 1; |TestedIn(n, ms)| == |TestedIn(n, ms[..k])| + if Counts(ms[k]) then 1 else 0
  {
    hide Counts;
    var k := |ms| - 1;
    assert TestedIn(n, ms) == TestedIn(n, ms[..k]) + if Counts(ms[k]) then {(n, k)} else {};
    assert (n, k) !in TestedIn(n, ms[..k]);
  }

  lemma {:induction false} TestedTag(file: string, ms: seq<Mutant>, n: int)
    ensures |Tested(Tag(file, ms))| == |TestedIn(n, ms)|
  {
    if ms == [] {
    } else {
      var k := |ms| - 1;
      var tagged := Tag(file, ms);
      assert |tagged| > 0 && tagged[..|tagged| - 1] == Tag(file, ms[..k]) && tagged[|tagged| - 1] == (file, ms[k]);
      assert WasTested(ms[k]) <==> Counts(ms[k]);
      hide TestedIn, WasTested, Counts, Tag;
      TestedTag(file, ms[..k], n);
      TestedInMore(n, ms);
    }
  }

  lemma TestedMore(report: seq<FileReport>, dir: Dir)
    requires report != [] && Reanchored(report, dir).Some?
    ensures var n := |report| - 1;
            && Reanchored(report[..n], dir).Some?
            && |Tested(Reanchored(report, dir).value)| ==
               |Tested(Reanchored(report[..n], dir).value)| + |TestedIn(n, report[n].mutations)|
  {
    hide Show, Parts, WasTested, Counts;
    var n := |report| - 1;
    var f := report[n];
    var before, tagged := Reanchored(report[..n], dir).value, Tag(Show(dir + Parts(f.name.s)), f.mutations);
    TestedPlus(before, tagged);
    TestedTag(Show(dir + Parts(f.name.s)), f.mutations, n);
  }

  lemma TestedAtMore(report: seq<FileReport>)
    requires report != []
    ensures var n := |report| - 1; |TestedAt(report)| == |TestedAt(report[..n])| + |TestedIn(n, report[n].mutations)|
  {
    hide Counts;
    var n := |report| - 1;
    assert TestedAt(report) == TestedAt(report[..n]) + TestedIn(n, report[n].mutations);
    assert TestedAt(report[..n]) !! TestedIn(n, report[n].mutations);
  }

  lemma {:induction false} TestedCount(report: seq<FileReport>, dir: Dir)
    requires Reanchored(report, dir).Some?
    ensures |Tested(Reanchored(report, dir).value)| == |TestedAt(report)|
  {
    if report == [] {
      TestedNothing();
    } else {
      hide *;
      TestedMore(report, dir);
      TestedAtMore(report);
      TestedCount(report[..|report| - 1], dir);
    }
  }

  lemma TestedNothing()
    ensures Tested([]) == [] && TestedAt([]) == {}
  {
  }

  /** Path `f` is spelled as the listing of the package spells one of its files. */
  ghost predicate IsListed(f: string, dir: Dir, files: set<Dir>) {
    exists r :: r in files && f == Show(dir + r)
  }

  ghost predicate Killed(report: seq<FileReport>) {
    exists i, m :: 0 <= i < |report| && m in report[i].mutations && m.status == Text("KILLED")
  }

  /** What a run must be: buildable, with a report of relative names that has mutants; healthy,
      with one killed if five or more were tested; every reported and every changed file below
      its directory spelled as the package's own listing. */
  ghost predicate SoundRun(dir: Dir, run: Run, lines: map<string, set<int>>) {
    && run.buildable && run.report.Some?
    && var report := run.report.value;
    && (forall i :: 0 <= i < |report| ==> RelativeName(report[i].name))
    && (exists i :: 0 <= i < |report| && report[i].mutations != [])
    && (|TestedAt(report)| < 5 || Killed(report))
    && (forall i :: 0 <= i < |report| && report[i].mutations != [] ==> IsListed(PathOf(report[i], dir), dir, run.files))
    && (forall f :: f in lines && dir <= Parts(f) ==> IsListed(f, dir, run.files))
  }

  /** A proper entry, excused if it is on a changed line of `f`. */
  ghost predicate Settles(m: Mutant, f: string, lines: map<string, set<int>>, waivers: set<Waiver>, sources: map<string, seq<string>>) {
    Entry(m) && (f in lines && m.line.n in lines[f] ==> Excused(m, f, waivers, sources))
  }

  /** And so must be every mutant it reports. */
  ghost predicate SettledRun(dir: Dir, report: seq<FileReport>, lines: map<string, set<int>>,
                             waivers: set<Waiver>, sources: map<string, seq<string>>)
  {
    forall i, m :: 0 <= i < |report| && m in report[i].mutations ==>
      Settles(m, PathOf(report[i], dir), lines, waivers, sources)
  }

  lemma HasMutants(report: seq<FileReport>, dir: Dir)
    requires Reanchored(report, dir).Some?
    ensures Reanchored(report, dir).value != [] <==> exists i :: 0 <= i < |report| && report[i].mutations != []
  {
    hide Reanchored, PathOf;
    var ms := Reanchored(report, dir).value;
    if ms != [] {
      ReportIsKept(report, dir, ms[0]);
      assert Lists(report, dir, ms[0]);
    }
    if i :| 0 <= i < |report| && report[i].mutations != [] {
      var x := (PathOf(report[i], dir), report[i].mutations[0]);
      assert InFile(report[i], dir, x);
      ReportIsKept(report, dir, x);
    }
  }

  lemma HasKilled(report: seq<FileReport>, dir: Dir)
    requires Reanchored(report, dir).Some?
    ensures var ms := Reanchored(report, dir).value;
            (exists i :: 0 <= i < |ms| && ms[i].1.status == Text("KILLED")) <==> Killed(report)
  {
    hide Reanchored, PathOf;
    var ms := Reanchored(report, dir).value;
    if k :| 0 <= k < |ms| && ms[k].1.status == Text("KILLED") {
      ReportIsKept(report, dir, ms[k]);
      assert Lists(report, dir, ms[k]);
    }
    if Killed(report) {
      var i, m :| 0 <= i < |report| && m in report[i].mutations && m.status == Text("KILLED");
      var x := (PathOf(report[i], dir), m);
      assert InFile(report[i], dir, x);
      ReportIsKept(report, dir, x);
    }
  }

  lemma SpelledLikewise(report: seq<FileReport>, dir: Dir, listed: set<string>)
    requires Reanchored(report, dir).Some?
    ensures var ms := Reanchored(report, dir).value;
            (forall k :: 0 <= k < |ms| ==> ms[k].0 in listed) <==>
            forall i :: 0 <= i < |report| && report[i].mutations != [] ==> PathOf(report[i], dir) in listed
  {
    hide Reanchored, PathOf;
    var ms := Reanchored(report, dir).value;
    if forall k :: 0 <= k < |ms| ==> ms[k].0 in listed {
      forall i | 0 <= i < |report| && report[i].mutations != [] ensures PathOf(report[i], dir) in listed {
        var x := (PathOf(report[i], dir), report[i].mutations[0]);
        assert InFile(report[i], dir, x);
        ReportIsKept(report, dir, x);
      }
    }
    if forall i :: 0 <= i < |report| && report[i].mutations != [] ==> PathOf(report[i], dir) in listed {
      forall k | 0 <= k < |ms| ensures ms[k].0 in listed {
        ReportIsKept(report, dir, ms[k]);
        assert Lists(report, dir, ms[k]);
      }
    }
  }

  lemma ListedMeans(dir: Dir, files: set<Dir>)
    ensures forall f :: f in Listed(dir, files) <==> IsListed(f, dir, files)
  {
  }

  lemma HealthyMeans(report: seq<FileReport>, dir: Dir)
    requires Reanchored(report, dir).Some?
    ensures Healthy(Reanchored(report, dir).value) <==> |TestedAt(report)| < 5 || Killed(report)
  {
    hide Reanchored, Tested, TestedAt, Killed;
    TestedCount(report, dir);
    HasKilled(report, dir);
  }

  lemma SpellingMeans(dir: Dir, run: Run, report: seq<FileReport>, lines: map<string, set<int>>)
    requires Reanchored(report, dir).Some?
    ensures SameSpelling(dir, run, Reanchored(report, dir).value, lines) <==>
              && (forall i :: 0 <= i < |report| && report[i].mutations != [] ==> IsListed(PathOf(report[i], dir), dir, run.files))
              && (forall f :: f in lines && dir <= Parts(f) ==> IsListed(f, dir, run.files))
  {
    hide Reanchored, PathOf, Listed, IsListed, Parts;
    SpelledLikewise(report, dir, Listed(dir, run.files));
    ListedMeans(dir, run.files);
  }

  /** The guards of the gate are these. */
  lemma RunSoundMeans(dir: Dir, run: Run, lines: map<string, set<int>>)
    ensures RunSound(dir, run, lines) <==> SoundRun(dir, run, lines)
  {
    hide Reanchored, Healthy, SameSpelling, TestedAt, Killed, PathOf, IsListed, RelativeName, Parts;
    if run.report.Some? {
      var report := run.report.value;
      NamesAreRelative(report, dir);
      if Reanchored(report, dir).Some? {
        HasMutants(report, dir);
        HealthyMeans(report, dir);
        SpellingMeans(dir, run, report, lines);
      }
    }
  }

  lemma MutantMeans(m: Mutant, f: string, waivers: set<Waiver>, sources: map<string, seq<string>>)
    ensures WellFormed(m) <==> Entry(m)
    ensures Entry(m) ==> (Acceptable((f, m), waivers, sources) <==> Excused(m, f, waivers, sources))
  {
    assert KILLED_STATUSES[0] == "KILLED" && KILLED_STATUSES[1] == "NOT VIABLE";
  }

  /** A mutant passes the gate. */
  ghost predicate Passing(x: Located, lines: map<string, set<int>>, waivers: set<Waiver>, sources: map<string, seq<string>>) {
    WellFormed(x.1) && (InScope(x, lines) ==> Acceptable(x, waivers, sources))
  }

  lemma PassingMeans(x: Located, lines: map<string, set<int>>, waivers: set<Waiver>, sources: map<string, seq<string>>)
    ensures Passing(x, lines, waivers, sources) <==> Settles(x.1, x.0, lines, waivers, sources)
  {
    hide Acceptable, Excused, WellFormed;
    MutantMeans(x.1, x.0, waivers, sources);
    assert x == (x.0, x.1);
  }

  /** What the gate demands of the mutants of a run, file by file. */
  lemma SettledMeans(dir: Dir, runs: map<Dir, Run>, lines: map<string, set<int>>,
                     waivers: set<Waiver>, sources: map<string, seq<string>>)
    requires dir in runs && runs[dir].report.Some? && Reanchored(runs[dir].report.value, dir).Some?
    ensures SettledRun(dir, runs[dir].report.value, lines, waivers, sources) <==>
              forall x :: Reported(runs, dir, x) ==> Passing(x, lines, waivers, sources)
  {
    var report := runs[dir].report.value;
    hide Reanchored, PathOf, Settles, Passing;
    if SettledRun(dir, report, lines, waivers, sources) {
      forall x | Reported(runs, dir, x) ensures Passing(x, lines, waivers, sources) {
        ReportIsKept(report, dir, x);
        assert Lists(report, dir, x);
        PassingMeans(x, lines, waivers, sources);
      }
    }
    if forall x :: Reported(runs, dir, x) ==> Passing(x, lines, waivers, sources) {
      forall i, m | 0 <= i < |report| && m in report[i].mutations
        ensures Settles(m, PathOf(report[i], dir), lines, waivers, sources)
      {
        var x := (PathOf(report[i], dir), m);
        assert InFile(report[i], dir, x);
        ReportIsKept(report, dir, x);
        assert Reported(runs, dir, x);
        PassingMeans(x, lines, waivers, sources);
      }
    }
  }

  /** The gate is green exactly if every run is sound and settles its mutants: nothing that a
      report says is lost on the way. */
  lemma GreenMeans(lines: map<string, set<int>>, runs: map<Dir, Run>, waivers: set<Waiver>, sources: map<string, seq<string>>)
    ensures Green(lines, runs, waivers, sources) <==>
              forall d :: d in PackageDirs(lines.Keys) ==>
                d in runs && SoundRun(d, runs[d], lines) && SettledRun(d, runs[d].report.value, lines, waivers, sources)
  {
    var dirs := PackageDirs(lines.Keys);
    hide PackageDirs, RunSound, SoundRun, SettledRun, InScope, WellFormed, Acceptable;
    forall d | d in dirs && d in runs ensures RunSound(d, runs[d], lines) <==> SoundRun(d, runs[d], lines) {
      RunSoundMeans(d, runs[d], lines);
    }
    forall d | d in dirs && d in runs && RunSound(d, runs[d], lines)
      ensures runs[d].report.Some?
      ensures SettledRun(d, runs[d].report.value, lines, waivers, sources) <==>
                forall x :: Reported(runs, d, x) ==> Passing(x, lines, waivers, sources)
    {
      SoundReports(d, runs[d], lines);
      SettledMeans(d, runs, lines, waivers, sources);
    }
  }

  lemma SoundReports(dir: Dir, run: Run, lines: map<string, set<int>>)
    requires RunSound(dir, run, lines)
    ensures run.report.Some? && Reanchored(run.report.value, dir).Some?
  {
  }

  // ---- no silent green ----

  /** On a pass, a changed file lies below exactly one run.  That run was built and its report
      lists some mutant; every mutant that it lists for the file, however it spells the name,
      and on a changed line, was killed, could not be built, or is waived for what it does. */
  lemma NoSilentGreen(lines: map<string, set<int>>, runs: map<Dir, Run>, waivers: set<Waiver>,
                      sources: map<string, seq<string>>, f: string) returns (dir: Dir)
    requires Green(lines, runs, waivers, sources) && f in lines
    requires forall d, r :: d in runs && r in runs[d].files ==> Normal(d + r)
    ensures dir in PackageDirs(lines.Keys) && dir <= Parent(f)
    ensures forall d :: d in PackageDirs(lines.Keys) && d <= Parent(f) ==> d == dir
    ensures dir in runs && runs[dir].buildable && runs[dir].report.Some?
    ensures exists i :: 0 <= i < |runs[dir].report.value| && runs[dir].report.value[i].mutations != []
    ensures var report := runs[dir].report.value;
            forall i, j :: 0 <= i < |report| && 0 <= j < |report[i].mutations| ==>
              var m := report[i].mutations[j];
              && Entry(m) && report[i].name.Text?
              && (dir + Parts(report[i].name.s) == Parts(f) && m.line.n in lines[f] ==> Excused(m, f, waivers, sources))
  {
    dir := OneRunPerFile(lines.Keys, f);
    GreenMeans(lines, runs, waivers, sources);
    var report := runs[dir].report.value;
    assert Parent(f) <= Parts(f) && dir <= Parts(f);
    hide Green, PackageDirs, Parts, Excused, Entry;
    forall i, j | 0 <= i < |report| && 0 <= j < |report[i].mutations|
      ensures var m := report[i].mutations[j];
              && Entry(m) && report[i].name.Text?
              && (dir + Parts(report[i].name.s) == Parts(f) && m.line.n in lines[f] ==> Excused(m, f, waivers, sources))
    {
      assert report[i].mutations[j] in report[i].mutations && RelativeName(report[i].name);
      assert Settles(report[i].mutations[j], PathOf(report[i], dir), lines, waivers, sources);
      if dir + Parts(report[i].name.s) == Parts(f) {
        SpelledTheSame(dir, runs[dir].files, f, report[i]);
      }
    }
  }

  lemma SpelledTheSame(dir: Dir, files: set<Dir>, f: string, r: FileReport)
    requires forall p :: p in files ==> Normal(dir + p)
    requires IsListed(f, dir, files) && IsListed(PathOf(r, dir), dir, files)
    requires r.name.Text? && dir + Parts(r.name.s) == Parts(f)
    ensures PathOf(r, dir) == f
  {
    PartsNormal(f);
    hide Parts, Show;
    PartsShow(dir + Parts(r.name.s));
    ListedMeans(dir, files);
    SameSpellingOnce(dir, files, f, PathOf(r, dir));
  }
}
