/** The Python mutation gate's two scoping stages, and what they can and cannot drop.

    A mutant is its name, and `show` gives the diff of a mutant as text; both are read by
    `MutmutText`.  Changed lines, source files and function spans are inputs.  Hashes are
    taken as ideal: a waiver names the reduced diff itself. */
module PyMutationScope {
  import opened CargoText
  import opened MutmutText
  import opened Options

  datatype Span = Span(name: string, first: int, last: int)

  /** Per changed file: the changed lines, the lines of its text, its functions. */
  datatype Source = Source(changed: set<int>, lines: seq<string>, spans: seq<Span>)

  type Show = string -> string

  const KILLED := "killed"

  // ---- the first stage: functions ----

  predicate Touches(span: Span, changed: set<int>) {
    exists ln :: ln in changed && span.first <= ln <= span.last
  }

  /** Some changed file has a function of this name. */
  ghost predicate Known(files: map<string, Source>, name: string) {
    exists p, s :: p in files && s in files[p].spans && s.name == name
  }

  /** Some function of this name spans a changed line of its file. */
  ghost predicate Touched(files: map<string, Source>, name: string) {
    exists p, s :: p in files && s in files[p].spans && s.name == name && Touches(s, files[p].changed)
  }

  /** One file's functions, and those of them that span a changed line. */
  method FileFunctions(f: Source) returns (all: set<string>, touched: set<string>)
    ensures forall n :: n in all <==> exists s :: s in f.spans && s.name == n
    ensures forall n :: n in touched <==> exists s :: s in f.spans && s.name == n && Touches(s, f.changed)
  {
    hide Touches;
    all, touched := {}, {};
    for i := 0 to |f.spans|
      invariant forall n :: n in all <==> exists s :: s in f.spans[..i] && s.name == n
      invariant forall n :: n in touched <==> exists s :: s in f.spans[..i] && s.name == n && Touches(s, f.changed)
    {
      var span := f.spans[i];
      assert f.spans[..i + 1] == f.spans[..i] + [span];
      assert span in f.spans[..i + 1];
      all := all + {span.name};
      if Touches(span, f.changed) {
        touched := touched + {span.name};
      }
    }
    assert f.spans[..|f.spans|] == f.spans;
  }

  /** Some changed file has a function of this name, and no changed line of any of them lies in
      one of its spans. */
  ghost predicate Untouched(files: map<string, Source>, name: string) {
    && (exists p, s :: p in files && s in files[p].spans && s.name == name)
    && forall p, s, ln :: p in files && s in files[p].spans && s.name == name && ln in files[p].changed ==>
         ln < s.first || s.last < ln
  }

  lemma UntouchedMeans(files: map<string, Source>, name: string)
    ensures Untouched(files, name) <==> Known(files, name) && !Touched(files, name)
  {
  }

  method UnchangedFunctions(files: map<string, Source>) returns (untouched: set<string>)
    ensures forall n :: n in untouched <==> Untouched(files, n)
  {
    hide Touches, Untouched;
    var all, touched := {}, {};
    var todo := files.Keys;
    while todo != {}
      invariant todo <= files.Keys
      invariant forall n :: n in all <==> exists p, s :: p in files && p !in todo && s in files[p].spans && s.name == n
      invariant forall n :: n in touched <==>
                  exists p, s :: p in files && p !in todo && s in files[p].spans && s.name == n && Touches(s, files[p].changed)
    {
      var p :| p in todo;
      var more, moreTouched := FileFunctions(files[p]);
      all, touched := all + more, touched + moreTouched;
      todo := todo - {p};
    }
    untouched := all - touched;
    assert forall n :: n in untouched <==> Known(files, n) && !Touched(files, n);
    forall n ensures Untouched(files, n) <==> Known(files, n) && !Touched(files, n) {
      UntouchedMeans(files, n);
    }
  }

  function ScopeToFunctions(statuses: map<string, string>, untouched: set<string>): map<string, string> {
    map n | n in statuses && ReadName(n).fn !in untouched :: statuses[n]
  }

  // ---- the second stage: lines ----

  /** Line `ln` lies in a function of the mutant's name and reads as the mutant's line. */
  predicate Candidate(f: Source, fn: string, text: string, ln: int) {
    && 1 <= ln <= |f.lines| && Strip(f.lines[ln - 1]) == text
    && exists i :: 0 <= i < |f.spans| && f.spans[i].name == fn && f.spans[i].first <= ln <= f.spans[i].last
  }

  function Candidates(f: Source, fn: string, text: string): set<int> {
    set ln | 1 <= ln <= |f.lines| && Candidate(f, fn, text, ln)
  }

  /** Whether the second stage keeps a surviving mutant. */
  predicate OnChangedLine(m: Mutant, files: map<string, Source>, shown: Shown) {
    if m.file !in files then true
    else
      var f := files[m.file];
      if !(exists i :: 0 <= i < |f.spans| && f.spans[i].name == m.fn) then true
      else if shown.removed.None? then true
      else
        var candidates := Candidates(f, m.fn, shown.removed.value);
        candidates == {} || candidates * f.changed != {}
  }

  function ScopeToLines(scoped: map<string, string>, files: map<string, Source>, show: Show): map<string, string> {
    map n | n in scoped && (scoped[n] == KILLED || OnChangedLine(ReadName(n), files, ReadDiff(show(n)))) :: scoped[n]
  }

  // ---- what the stages drop ----

  /** The mutant lies in a function that the change did not touch. */
  ghost predicate InUntouchedFunction(n: string, files: map<string, Source>) {
    Untouched(files, MutantFunction(n))
  }

  /** Line `ln` of a function `fn` reads as `text`. */
  ghost predicate ReadsAt(f: Source, fn: string, text: string, ln: int) {
    && 0 < ln <= |f.lines| && Strip(f.lines[ln - 1]) == text
    && exists s :: s in f.spans && s.name == fn && s.first <= ln && ln <= s.last
  }

  lemma ReadsAtMeans(f: Source, fn: string, text: string, ln: int)
    ensures Candidate(f, fn, text, ln) <==> ReadsAt(f, fn, text, ln)
  {
    hide Strip;
    if Candidate(f, fn, text, ln) {
      var i :| 0 <= i < |f.spans| && f.spans[i].name == fn && f.spans[i].first <= ln <= f.spans[i].last;
      assert f.spans[i] in f.spans;
    }
  }

  /** The first line that the mutant alters is found in its function, and no place where it
      is found was changed. */
  ghost predicate OnUnchangedLine(n: string, files: map<string, Source>, show: Show) {
    var path, fn, removed := MutantFile(n), MutantFunction(n), RemovedSourceLine(show(n));
    && path in files && removed.Some?
    && (exists ln :: ReadsAt(files[path], fn, removed.value, ln))
    && (forall ln :: ReadsAt(files[path], fn, removed.value, ln) ==> ln !in files[path].changed)
  }

  lemma CandidatesMean(f: Source, fn: string, text: string)
    ensures Candidates(f, fn, text) != {} <==> exists ln :: ReadsAt(f, fn, text, ln)
    ensures Candidates(f, fn, text) * f.changed != {} <==> exists ln :: ReadsAt(f, fn, text, ln) && ln in f.changed
    ensures (exists ln :: ReadsAt(f, fn, text, ln)) ==> exists i :: 0 <= i < |f.spans| && f.spans[i].name == fn
  {
    hide Strip;
    var cs := Candidates(f, fn, text);
    forall ln ensures ln in cs <==> ReadsAt(f, fn, text, ln) {
      ReadsAtMeans(f, fn, text, ln);
    }
    assert forall ln :: ln in cs * f.changed <==> ReadsAt(f, fn, text, ln) && ln in f.changed;
    if cs != {} {
      var ln :| ln in cs;
      assert ReadsAt(f, fn, text, ln) && Candidate(f, fn, text, ln);
    }
  }

  /** The second stage drops a surviving mutant exactly if it is on an unchanged line. */
  lemma LineStageDrops(n: string, files: map<string, Source>, show: Show)
    ensures OnChangedLine(ReadName(n), files, ReadDiff(show(n))) <==> !OnUnchangedLine(n, files, show)
  {
    hide Candidate, Candidates, ReadsAt, MutantFile, MutantFunction, MutantPrefix, RemovedSourceLine, Signature;
    var m, shown := ReadName(n), ReadDiff(show(n));
    if m.file in files && shown.removed.Some? {
      CandidatesMean(files[m.file], m.fn, shown.removed.value);
    }
  }

  /** Both stages.  A mutant stays unless its function was not touched, or it survived on
      an unchanged line; no status changes. */
  method Scope(statuses: map<string, string>, files: map<string, Source>, show: Show) returns (scoped: map<string, string>)
    ensures forall n :: n in scoped <==>
              && n in statuses && !InUntouchedFunction(n, files)
              && (statuses[n] == KILLED || !OnUnchangedLine(n, files, show))
    ensures forall n :: n in scoped ==> scoped[n] == statuses[n]
  {
    hide Untouched, OnChangedLine, OnUnchangedLine, ReadDiff, MutantFile, MutantFunction, MutantPrefix;
    var untouched := UnchangedFunctions(files);
    scoped := ScopeToFunctions(statuses, untouched);
    forall n | n in scoped
      ensures OnChangedLine(ReadName(n), files, ReadDiff(show(n))) <==> !OnUnchangedLine(n, files, show)
    {
      LineStageDrops(n, files, show);
    }
    scoped := ScopeToLines(scoped, files, show);
  }

  // ---- the verdict ----

  datatype Waiver = Waiver(prefix: string, signature: string)

  predicate Waived(n: string, waivers: set<Waiver>, show: Show) {
    Waiver(ReadName(n).prefix, ReadDiff(show(n)).signature) in waivers
  }

  method Evaluate(statuses: map<string, string>, waivers: set<Waiver>, show: Show)
    returns (unwaived: set<string>, waived: set<string>)
    ensures unwaived == set n | n in statuses && statuses[n] != KILLED && !Waived(n, waivers, show)
    ensures waived == set n | n in statuses && statuses[n] != KILLED && Waived(n, waivers, show)
  {
    hide Waived;
    unwaived, waived := {}, {};
    var todo := statuses.Keys;
    while todo != {}
      invariant todo <= statuses.Keys
      invariant unwaived == set n | n in statuses && n !in todo && statuses[n] != KILLED && !Waived(n, waivers, show)
      invariant waived == set n | n in statuses && n !in todo && statuses[n] != KILLED && Waived(n, waivers, show)
    {
      var n :| n in todo;
      todo := todo - {n};
      if statuses[n] == KILLED {
        continue;
      }
      if Waived(n, waivers, show) {
        waived := waived + {n};
      } else {
        unwaived := unwaived + {n};
      }
    }
  }

  /** The mutant asks nothing of the tests: killed, out of scope, or waived for what it does. */
  ghost predicate Settled(n: string, status: string, files: map<string, Source>, waivers: set<Waiver>, show: Show) {
    || status == "killed" || InUntouchedFunction(n, files)
    || OnUnchangedLine(n, files, show) || Waiver(MutantPrefix(n), Signature(show(n))) in waivers
  }

  /** The gate once mutmut has run; `None` is an allowlist that does not parse. */
  method Gate(statuses: map<string, string>, files: map<string, Source>, allowlist: Option<set<Waiver>>, show: Show)
    returns (exit: int)
    ensures exit == 0 || exit == 1
    ensures exit == 0 <==>
              allowlist.Some? && forall n :: n in statuses ==> Settled(n, statuses[n], files, allowlist.value, show)
  {
    hide InUntouchedFunction, OnUnchangedLine, MutantFile, MutantFunction, MutantPrefix, Signature, RemovedSourceLine;
    var scoped := Scope(statuses, files, show);
    if allowlist.None? {
      return 1;
    }
    var unwaived, _ := Evaluate(scoped, allowlist.value, show);
    if unwaived != {} {
      var n :| n in unwaived;
      assert !Settled(n, statuses[n], files, allowlist.value, show);
      return 1;
    }
    forall n | n in statuses ensures Settled(n, statuses[n], files, allowlist.value, show) {
      if n in scoped {
        assert n !in unwaived;
      }
    }
    exit := 0;
  }

  // ---- soundness ----

  /** `text` stands on a changed line of the mutant's function. */
  ghost predicate StandsOnChange(n: string, files: map<string, Source>, text: string) {
    var path := MutantFile(n);
    path in files && exists ln :: ln in files[path].changed && ReadsAt(files[path], MutantFunction(n), text, ln)
  }

  lemma ChangeTouches(n: string, files: map<string, Source>, text: string)
    requires StandsOnChange(n, files, text)
    ensures !InUntouchedFunction(n, files)
  {
    hide Strip, MutantFile, MutantFunction;
    var path, fn := MutantFile(n), MutantFunction(n);
    var ln :| ln in files[path].changed && ReadsAt(files[path], fn, text, ln);
    var s :| s in files[path].spans && s.name == fn && s.first <= ln && ln <= s.last;
  }

  /** A mutant that alters a changed line of its function is dropped by neither stage,
      provided that the first line it alters is a changed one, or is not found at all.  This
      is exact: otherwise a surviving mutant is dropped. */
  lemma ChangedLineIsKept(n: string, files: map<string, Source>, show: Show, text: string)
    requires text in RemovedLines(show(n)) && StandsOnChange(n, files, text)
    ensures var f, fn, first := files[MutantFile(n)], MutantFunction(n), RemovedLines(show(n))[0];
            !InUntouchedFunction(n, files) && !OnUnchangedLine(n, files, show) <==>
              StandsOnChange(n, files, first) || !exists ln :: ReadsAt(f, fn, first, ln)
  {
    hide SplitLines, Strip, ReadsAt, MutantFile, MutantFunction, RemovedIn, AllRemoved, InUntouchedFunction;
    ChangeTouches(n, files, text);
    RemovedInIsFirst(SplitLines(show(n)), 0);
    assert RemovedSourceLine(show(n)) == Some(RemovedLines(show(n))[0]);
  }

  /** On a pass, every mutant whose first altered line stands on a changed line of its
      function was killed, or waived for what it does. */
  lemma PassMeansPinned(statuses: map<string, string>, files: map<string, Source>, waivers: set<Waiver>, show: Show, n: string)
    requires forall k :: k in statuses ==> Settled(k, statuses[k], files, waivers, show)
    requires n in statuses && RemovedLines(show(n)) != [] && StandsOnChange(n, files, RemovedLines(show(n))[0])
    ensures statuses[n] == "killed" || Waiver(MutantPrefix(n), Signature(show(n))) in waivers
  {
    ChangedLineIsKept(n, files, show, RemovedLines(show(n))[0]);
    hide InUntouchedFunction, OnUnchangedLine, StandsOnChange;
  }

  const TWO_REMOVED := ["@@", "-a", "-b"]
  const SMALL := Source({3}, ["def f():", "  a", "  b"], [Span("f", 1, 3)])

  lemma StripWord(indent: string, word: string)
    requires Blank(indent) && Tight(word)
    ensures Strip(indent + word) == word
  {
    assert word + "" == word;
    StripLaid(indent + word, indent, word, "");
  }

  lemma PairRemoved(lines: seq<string>)
    requires |lines| == 3 && "@@" <= lines[0] && Removed(lines[1]) && Removed(lines[2])
    ensures AllRemoved(lines, 0) == [Strip(lines[1][1..]), Strip(lines[2][1..])]
  {
    hide Strip;
    assert lines[0][0] == '@' && !Removed(lines[0]);
    assert InHunk(lines, 1) && InHunk(lines, 2);
    hide Removed, InHunk;
    assert AllRemoved(lines, 3) == [];
    assert AllRemoved(lines, 2) == [Strip(lines[2][1..])];
  }

  lemma Dashed(c: char)
    requires !Space(c) && c != '-'
    ensures Removed("-" + [c]) && Strip(("-" + [c])[1..]) == [c]
  {
    hide Strip, TrimLeft, TrimRight;
    StripWord("", [c]);
    assert ("-" + [c])[1..] == [c] == "" + [c];
    assert ("-" + [c])[0] == '-' && ("-" + [c])[1] == c;
  }

  lemma TwoRemoved()
    ensures AllRemoved(TWO_REMOVED, 0) == ["a", "b"]
  {
    hide Strip, TrimLeft, TrimRight, AllRemoved, Removed;
    Dashed('a');
    Dashed('b');
    var lines := TWO_REMOVED;
    assert lines[1] == "-" + ['a'] && lines[2] == "-" + ['b'];
    PairRemoved(lines);
  }

  lemma SmallLines()
    ensures forall ln :: ReadsAt(SMALL, "f", "a", ln) <==> ln == 2
    ensures ReadsAt(SMALL, "f", "b", 3)
  {
    hide Strip, TrimLeft, TrimRight;
    var lines := SMALL.lines;
    StripWord("", "def f():");
    StripWord("  ", "a");
    StripWord("  ", "b");
    assert lines[0] == "" + "def f():" && lines[1] == "  " + "a" && lines[2] == "  " + "b";
    assert |"def f():"| == 8 && "a"[0] != "b"[0];
    assert SMALL.spans[0] == Span("f", 1, 3);
  }

  /** A mutant of a function `f` in a module `m`, shown to remove the lines `a` and `b` of
      which only the second was changed, is dropped by the line stage: the gate passes though
      it survived and nothing waives it. */
  lemma LaterLineSlips(show: Show)
    requires show("m" + "." + "x_f" + MARK + "1") == Join(TWO_REMOVED) + "\n"
    ensures var n, files := "m" + "." + "x_f" + MARK + "1", map["src/m.py" := SMALL];
            && RemovedLines(show(n)) == ["a", "b"] && StandsOnChange(n, files, "b")
            && Settled(n, "survived", files, {}, show)
  {
    hide Strip, LastOf, FirstOf, SplitLines, Join, AllRemoved, RemovedIn, ReadsAt, MutantFunction, MutantFile;
    var n, files := "m" + "." + "x_f" + MARK + "1", map["src/m.py" := SMALL];
    NameTracesBack("m", "x_f", "1");
    SplitClosed(TWO_REMOVED);
    TwoRemoved();
    RemovedInIsFirst(TWO_REMOVED, 0);
    SmallLines();
    assert "x_f"[2..] == "f" && "x_" <= "x_f";
    assert Replace("m", '.', '/') == "m";
    assert MutantFile(n) == "src/m.py" && MutantFunction(n) == "f";
    assert RemovedSourceLine(show(n)) == Some("a") && ReadsAt(SMALL, "f", "a", 2);
    assert OnUnchangedLine(n, files, show);
  }

  /** A waiver keeps its effect when the mutants of a function are renumbered. */
  lemma WaiverSurvivesRenumbering(head: string, number: string, number': string, top: string, top': string, diff: string,
                                  show: Show, waivers: set<Waiver>)
    requires MarkedFirst(head)
    requires Whole(top) && Whole(top') && "# " <= top && "# " <= top'
    requires show(head + MARK + number) == top + "\n" + diff && show(head + MARK + number') == top' + "\n" + diff
    ensures Waived(head + MARK + number, waivers, show) <==> Waived(head + MARK + number', waivers, show)
  {
    RenumberingIsInvisible(head, number, number', top, top', diff);
    hide MutantPrefix, MutantFile, MutantFunction, Signature, RemovedSourceLine, Whole, FirstOf, MarkedFirst;
  }

  /** A waiver fits one transformation of one function: the mutants that it covers share their
      prefix, and their diffs the lines that count, apart from white space around them. */
  lemma WaiverFitsOne(n: string, n': string, waiver: Waiver, show: Show)
    requires Waived(n, {waiver}, show) && Waived(n', {waiver}, show)
    ensures MutantPrefix(n) == MutantPrefix(n') && SameText(Counting(show(n)), Counting(show(n')))
  {
    hide MutantPrefix, MutantFile, MutantFunction, Signature, RemovedSourceLine, SameText, Counting;
    SignatureIsExact(show(n), show(n'));
  }
}
