/** The Cargo.lock synchroniser: reading a crate's version and writing it back form a lens.

    The laws hold for every sound way to read and write a single line; `CargoText` has the
    tool's own, and `ToolIsSound` shows that it is one. */
module CargoLock {
  import opened CargoBlocks
  import opened CargoText
  import opened Options

  /** How the tool reads a line of the lockfile and of the manifest, and writes a version. */
  datatype Codec = Codec(see: string -> Kind, declare: string -> ManifestLine, write: string -> string)

  /** Versions that are read are fine, and fine versions are read back as written. */
  ghost predicate Sound(c: Codec) {
    && (forall v :: Fine(v) ==> c.see(c.write(v)) == Version(v))
    && (forall v :: Whole(v) ==> Whole(c.write(v)) && c.write(v) != "")
    && (forall line :: Whole(line) && c.see(line).Version? ==> Fine(c.see(line).version))
    && (forall line :: Whole(line) && c.declare(line).Declaration? ==> Fine(c.declare(line).version))
    && c.see("") == OtherLine
  }

  const TOOL := Codec(KindOf, ManifestLineOf, VersionText)

  lemma VersionTextLong(v: string)
    ensures VersionText(v) != ""
  {
  }

  lemma ToolIsSound()
    ensures Sound(TOOL)
  {
    forall v | Fine(v) ensures KindOf(VersionText(v)) == Version(v) {
      VersionTextReads(v);
    }
    forall v | Whole(v) ensures Whole(VersionText(v)) && VersionText(v) != "" {
      VersionTextWhole(v);
      VersionTextLong(v);
    }
    forall line | Whole(line)
      ensures KindOf(line).Version? ==> Fine(KindOf(line).version)
      ensures ManifestLineOf(line).Declaration? ==> Fine(ManifestLineOf(line).version)
    {
      VersionFine(line);
    }
    EmptyLine();
    hide KindOf, ManifestLineOf, VersionText, Fine, Whole;
  }

  // The clauses of `Sound`, one at a time.

  lemma ReadsBack(c: Codec, v: string)
    requires Sound(c) && Fine(v)
    ensures c.see(c.write(v)) == Version(v) && Whole(c.write(v)) && c.write(v) != ""
  {
  }

  lemma SeesFine(c: Codec, line: string)
    requires Sound(c) && Whole(line)
    ensures c.see(line).Version? ==> line != "" && Fine(c.see(line).version)
    ensures c.declare(line).Declaration? ==> Fine(c.declare(line).version)
    ensures c.see("") == OtherLine
  {
  }

  function Kinds(c: Codec, lines: seq<string>): (kinds: seq<Kind>)
    ensures |kinds| == |lines|
    ensures forall i :: 0 <= i < |lines| ==> kinds[i] == c.see(lines[i])
  {
    if lines == [] then [] else Kinds(c, lines[..|lines| - 1]) + [c.see(lines[|lines| - 1])]
  }

  /** The line that holds the version of `crate`. */
  function Place(c: Codec, text: string, crate: string): (r: Result<nat, Fault>)
    ensures r.Ok? ==> r.value < |SplitLines(text)| && c.see(SplitLines(text)[r.value]).Version?
  {
    Locate(Kinds(c, SplitLines(text)), crate)
  }

  function Get(c: Codec, text: string, crate: string): Result<string, Fault> {
    match Place(c, text, crate)
    case Err(e) => Err(e)
    case Ok(i) => Ok(c.see(SplitLines(text)[i]).version)
  }

  function Put(c: Codec, text: string, crate: string, v: string): Result<string, Fault> {
    match Place(c, text, crate)
    case Err(e) => Err(e)
    case Ok(i) => Ok(Join(SplitLines(text)[i := c.write(v)]) + Trailer(text))
  }

  method LockVersion(c: Codec, text: string, crate: string) returns (r: Result<string, Fault>)
    ensures r == Get(c, text, crate)
  {
    hide SplitLines;
    var lines := SplitLines(text);
    var found := FindEntry(Kinds(c, lines), crate);
    match found
    case Err(e) => r := Err(e);
    case Ok(i) => r := Ok(c.see(lines[i]).version);
  }

  method SyncLock(c: Codec, text: string, crate: string, v: string) returns (r: Result<string, Fault>)
    ensures r == Put(c, text, crate, v)
  {
    hide SplitLines;
    var lines := SplitLines(text);
    var found := FindEntry(Kinds(c, lines), crate);
    match found
    case Err(e) => r := Err(e);
    case Ok(i) =>
      lines := lines[i := c.write(v)];
      r := Ok(Join(lines) + Trailer(text));
  }

  // ---- what is written is found again ----

  /** The lines after a write, still in memory. */
  function Rewritten(c: Codec, text: string, crate: string, v: string): seq<string>
    requires Place(c, text, crate).Ok?
  {
    SplitLines(text)[Place(c, text, crate).value := c.write(v)]
  }

  /** A write keeps every line but one; only an empty last line whose end is no line feed
      gets lost. */
  lemma PutLines(c: Codec, text: string, crate: string, v: string)
    requires Sound(c)
    requires Place(c, text, crate).Ok? && Fine(v)
    ensures var after, lines := Put(c, text, crate, v).value, SplitLines(text);
            && SplitLines(after) == (if EndsLine(text) then Rewritten(c, text, crate, v) else Dense(Rewritten(c, text, crate, v)))
            && (SplitLines(after) == Rewritten(c, text, crate, v) <==> EndsLine(text) || lines[|lines| - 1] != "")
            && Plain(after)
            && (EndsLine(after) <==> EndsLine(text) || lines[|lines| - 1] == "")
  {
    hide SplitLines, Sound, Whole, Unquoted, Locate, Plain, Join;
    var ls, i := Rewritten(c, text, crate, v), Place(c, text, crate).value;
    ReadsBack(c, v);
    SeesFine(c, SplitLines(text)[i]);
    JoinPlain(ls);
    if EndsLine(text) {
      SplitClosed(ls);
      LineFeedPlain();
      PlainPlus(Join(ls), "\n");
    } else {
      SplitOpen(ls);
      assert Join(ls) + "" == Join(ls);
    }
  }

  lemma RewrittenLocates(c: Codec, text: string, crate: string, v: string)
    requires Sound(c)
    requires Place(c, text, crate).Ok? && Fine(v)
    ensures Locate(Kinds(c, Rewritten(c, text, crate, v)), crate) == Place(c, text, crate)
  {
    hide SplitLines, Sound, Whole, Unquoted, Locate;
    ReadsBack(c, v);
    var kinds := Kinds(c, SplitLines(text));
    assert Kinds(c, Rewritten(c, text, crate, v)) == kinds[Place(c, text, crate).value := Version(v)];
    WriteLocates(kinds, crate, v);
  }

  lemma DenseLocates(c: Codec, lines: seq<string>, crate: string)
    requires c.see("") == OtherLine
    ensures Locate(Kinds(c, Dense(lines)), crate) == Locate(Kinds(c, lines), crate)
  {
    hide Locate;
    if lines != [] && lines[|lines| - 1] == "" {
      assert Kinds(c, lines) == Kinds(c, Dense(lines)) + [OtherLine];
      LocateMore(Kinds(c, Dense(lines)), crate);
    }
  }

  lemma PlaceAfterPut(c: Codec, text: string, crate: string, v: string)
    requires Sound(c)
    requires Place(c, text, crate).Ok? && Fine(v)
    ensures Place(c, Put(c, text, crate, v).value, crate) == Place(c, text, crate)
    ensures Get(c, Put(c, text, crate, v).value, crate) == Ok(v)
  {
    hide SplitLines, Sound, Whole, Unquoted, Locate, Plain, Join, Kinds;
    var ls := Rewritten(c, text, crate, v);
    ReadsBack(c, v);
    SeesFine(c, SplitLines(text)[Place(c, text, crate).value]);
    RewrittenLocates(c, text, crate, v);
    DenseLocates(c, ls, crate);
    PutLines(c, text, crate, v);
  }

  /** A version that was read can be written. */
  lemma GetIsFine(c: Codec, text: string, crate: string)
    requires Sound(c)
    ensures Get(c, text, crate).Ok? ==> Fine(Get(c, text, crate).value)
  {
    hide Locate, Fine, Sound, Whole;
    if Place(c, text, crate).Ok? {
      SeesFine(c, SplitLines(text)[Place(c, text, crate).value]);
    }
  }

  /** Reading after writing: what is read is what was written exactly if the version has
      neither a quote nor a line break; writing works on exactly the texts that can be read. */
  lemma PutGet(c: Codec, text: string, crate: string, v: string)
    requires Sound(c)
    ensures Put(c, text, crate, v).Ok? <==> Get(c, text, crate).Ok?
    ensures Put(c, text, crate, v).Err? ==> Put(c, text, crate, v).error == Get(c, text, crate).error
    ensures Put(c, text, crate, v).Ok? ==> (Get(c, Put(c, text, crate, v).value, crate) == Ok(v) <==> Fine(v))
  {
    hide Place, Fine, Sound, SplitLines;
    if Put(c, text, crate, v).Ok? {
      if Fine(v) {
        PlaceAfterPut(c, text, crate, v);
      } else {
        GetIsFine(c, Put(c, text, crate, v).value, crate);
      }
    }
  }

  /** A second write overrides the first, so writing the same version again changes nothing. */
  lemma PutPut(c: Codec, text: string, crate: string, v: string, w: string)
    requires Sound(c)
    requires Put(c, text, crate, v).Ok? && Fine(v) && Fine(w)
    ensures Put(c, Put(c, text, crate, v).value, crate, w) == Put(c, text, crate, w)
  {
    hide SplitLines, Fine, Sound, Place, EndsLine;
    var a, b := Put(c, text, crate, v).value, Put(c, text, crate, w).value;
    PutLines(c, text, crate, v);
    PutLines(c, text, crate, w);
    PlaceAfterPut(c, text, crate, v);
    ReadsBack(c, v);
    ReadsBack(c, w);
    assert SplitLines(a)[Place(c, text, crate).value := c.write(w)] == SplitLines(b);
    JoinSplit(b);
  }

  /** On text with line feeds only, a write changes the version line and no other, and it
      leaves the text as it is exactly if that line already reads as it would be written. */
  lemma PutPlain(c: Codec, text: string, crate: string, v: string)
    requires Sound(c)
    requires Plain(text) && Put(c, text, crate, v).Ok? && Fine(v)
    ensures SplitLines(Put(c, text, crate, v).value) == Rewritten(c, text, crate, v)
    ensures Put(c, text, crate, v).value == text <==> SplitLines(text)[Place(c, text, crate).value] == c.write(v)
  {
    hide SplitLines, Fine, Sound, Locate, Plain;
    var lines, i := SplitLines(text), Place(c, text, crate).value;
    JoinSplit(text);
    SeesFine(c, lines[i]);
    PutLines(c, text, crate, v);
    if !EndsLine(text) {
      assert text == Join(lines);
      JoinPlain(lines);
    }
    if lines[i] == c.write(v) {
      assert lines[i := c.write(v)] == lines;
    }
  }

  // ---- the manifest ----

  function ManifestLines(c: Codec, lines: seq<string>): (ms: seq<ManifestLine>)
    ensures |ms| == |lines|
    ensures forall i :: 0 <= i < |lines| ==> ms[i] == c.declare(lines[i])
  {
    if lines == [] then [] else ManifestLines(c, lines[..|lines| - 1]) + [c.declare(lines[|lines| - 1])]
  }

  function ManifestVersion(c: Codec, text: string): Option<string> {
    Declared(ManifestLines(c, SplitLines(text)), 0)
  }

  method ReadManifestVersion(c: Codec, text: string) returns (v: Option<string>)
    ensures v == ManifestVersion(c, text)
  {
    v := FindDeclared(ManifestLines(c, SplitLines(text)));
  }

  /** The version of a manifest can always be written to a lockfile. */
  lemma ManifestFine(c: Codec, text: string)
    requires Sound(c)
    ensures ManifestVersion(c, text).Some? ==> Fine(ManifestVersion(c, text).value)
  {
    hide Declared, Fine, Sound, Whole;
    if ManifestVersion(c, text).Some? {
      var lines := SplitLines(text);
      DeclaredComes(ManifestLines(c, lines), 0);
      var j :| 0 <= j < |lines| && ManifestLines(c, lines)[j] == Declaration(ManifestVersion(c, text).value);
      SeesFine(c, lines[j]);
    }
  }

  // ---- the command ----

  const EXIT_OK := 0
  const EXIT_DRIFT := 1
  const EXIT_MALFORMED := 2

  /** One run of the tool on the text of its two files, absent when unreadable: the exit code,
      and the lockfile it leaves. */
  function Tool(c: Codec, manifest: Option<string>, lock: Option<string>, crate: string, check: bool): (int, Option<string>) {
    var declared := if manifest.Some? then ManifestVersion(c, manifest.value) else None;
    var recorded := if lock.Some? then Get(c, lock.value, crate) else Err(NoEntry);
    if declared.None? || recorded.Err? then (EXIT_MALFORMED, lock)
    else if recorded.value == declared.value then (EXIT_OK, lock)
    else if check then (EXIT_DRIFT, lock)
    else (EXIT_OK, Some(Put(c, lock.value, crate, declared.value).value))
  }

  method Run(c: Codec, manifest: Option<string>, lock: Option<string>, crate: string, check: bool) returns (exit: int, after: Option<string>)
    ensures (exit, after) == Tool(c, manifest, lock, crate, check)
  {
    hide ManifestVersion, Place;
    after := lock;
    if manifest.None? {
      return EXIT_MALFORMED, after;
    }
    var declared := ReadManifestVersion(c, manifest.value);
    if declared.None? || lock.None? {
      return EXIT_MALFORMED, after;
    }
    var recorded := LockVersion(c, lock.value, crate);
    if recorded.Err? {
      return EXIT_MALFORMED, after;
    }
    if recorded.value == declared.value {
      return EXIT_OK, after;
    }
    if check {
      return EXIT_DRIFT, after;
    }
    var synced := SyncLock(c, lock.value, crate, declared.value);
    return EXIT_OK, Some(synced.value);
  }

  /** After a run that does not fail, a check passes, the lockfile records the manifest's
      version, and another run changes nothing. */
  lemma CheckAfterSync(c: Codec, manifest: string, lock: string, crate: string)
    requires Sound(c)
    requires Tool(c, Some(manifest), Some(lock), crate, false).0 == EXIT_OK
    ensures var after := Tool(c, Some(manifest), Some(lock), crate, false).1;
            && after.Some? && ManifestVersion(c, manifest).Some?
            && Get(c, after.value, crate) == Ok(ManifestVersion(c, manifest).value)
            && Tool(c, Some(manifest), after, crate, true) == (EXIT_OK, after)
            && Tool(c, Some(manifest), after, crate, false) == (EXIT_OK, after)
  {
    hide ManifestVersion, Get, Put, Fine, Sound;
    ManifestFine(c, manifest);
    PutGet(c, lock, crate, ManifestVersion(c, manifest).value);
  }

  /** What the command answers.  A check changes nothing; it passes exactly if the manifest and
      the lockfile both give a version and these are equal, and reports drift exactly if they
      differ.  A run that writes never reports drift. */
  lemma CheckMeans(c: Codec, manifest: Option<string>, lock: Option<string>, crate: string)
    ensures var declared := if manifest.Some? then ManifestVersion(c, manifest.value) else None;
            var recorded := if lock.Some? then Get(c, lock.value, crate) else Err(NoEntry);
            var (exit, after) := Tool(c, manifest, lock, crate, true);
            && after == lock
            && (exit == 0 <==> declared.Some? && recorded == Ok(declared.value))
            && (exit == 1 <==> declared.Some? && recorded.Ok? && recorded.value != declared.value)
            && (exit == 2 <==> declared.None? || recorded.Err?)
            && (Tool(c, manifest, lock, crate, false).0 == if exit == 1 then 0 else exit)
            && (exit != 1 ==> Tool(c, manifest, lock, crate, false).1 == lock)
  {
  }

  // ---- an ordinary entry ----

  lemma {:induction false} NextHeader(kinds: seq<Kind>, lo: nat, n: nat) returns (hi: nat)
    requires lo < n <= |kinds| && kinds[lo].Header? && forall j :: lo < j < n ==> !kinds[j].Header?
    ensures n <= hi && Block(kinds, lo, hi)
    decreases |kinds| - n
  {
    if n == |kinds| || kinds[n].Header? {
      hi := n;
    } else {
      hi := NextHeader(kinds, lo, n + 1);
    }
  }

  /** A header, a name and a version: the version is found, if no line before names the crate. */
  lemma EntryIsFound(kinds: seq<Kind>, crate: string, n: nat)
    requires n + 2 < |kinds| && kinds[n].Header? && kinds[n + 1] == Name(crate) && kinds[n + 2].Version?
    requires forall j :: 0 <= j < n ==> kinds[j] != Name(crate)
    ensures Locate(kinds, crate) == Ok(n + 2)
  {
    var hi := NextHeader(kinds, n, n + 3);
    assert kinds[n + 1] == Name(crate) && BlockOf(kinds, crate, n, hi);
    var lo', hi' := LocateExact(kinds, crate);
    hide Locate;
    assert lo' <= n;
    var j :| lo' <= j < hi' && kinds[j] == Name(crate);
    assert j > n && lo' == n;
    assert !kinds[n + 1].Version? && hi' > n + 2;
  }

  /** The lines of a lockfile around an entry. */
  function WithEntry(before: seq<string>, header: string, name: string, version: string, after: seq<string>): seq<string> {
    before + [header, name, version] + after
  }

  /** An ordinary entry is read and written end to end: the version between its quotes is read,
      and a write replaces its line and no other. */
  lemma OrdinaryEntry(before: seq<string>, header: string, name: string, version: string, after: seq<string>,
                      crate: string, v: string, w: string)
    requires AllWhole(WithEntry(before, header, name, version, after)) && Fine(w)
    requires KindOf(header) == Header && KindOf(name) == Name(crate) && KindOf(version) == Version(v)
    requires forall l :: l in before ==> KindOf(l) != Name(crate)
    ensures var text := Join(WithEntry(before, header, name, version, after)) + "\n";
            && Get(TOOL, text, crate) == Ok(v)
            && Put(TOOL, text, crate, w) == Ok(Join(WithEntry(before, header, name, VersionText(w), after)) + "\n")
  {
    hide KindOf, Join, SplitLines, VersionText, Whole, Locate;
    var lines := WithEntry(before, header, name, version, after);
    var n := |before|;
    SplitClosed(lines);
    var kinds := Kinds(TOOL, lines);
    forall j | 0 <= j < n ensures kinds[j] != Name(crate) {
      assert lines[j] == before[j];
    }
    assert lines[n] == header && lines[n + 1] == name && lines[n + 2] == version;
    EntryIsFound(kinds, crate, n);
    assert lines[n + 2 := VersionText(w)] == WithEntry(before, header, name, VersionText(w), after);
    var text := Join(lines) + "\n";
    assert text[|text| - 1] == '\n';
  }

  /** The laws for the tool's own lines. */
  lemma ToolLaws(text: string, crate: string, v: string, w: string)
    ensures Put(TOOL, text, crate, v).Ok? <==> Get(TOOL, text, crate).Ok?
    ensures Put(TOOL, text, crate, v).Ok? ==> (Get(TOOL, Put(TOOL, text, crate, v).value, crate) == Ok(v) <==> Fine(v))
    ensures Put(TOOL, text, crate, v).Ok? && Fine(v) && Fine(w) ==>
              Put(TOOL, Put(TOOL, text, crate, v).value, crate, w) == Put(TOOL, text, crate, w)
  {
    ToolIsSound();
    hide *;
    PutGet(TOOL, text, crate, v);
    if Put(TOOL, text, crate, v).Ok? && Fine(v) && Fine(w) {
      PutPut(TOOL, text, crate, v, w);
    }
  }
}
