/** What mutmut prints: the names of mutants, and the diff it shows for one. */
module MutmutText {
  import opened CargoText
  import opened Options

  /** A mutant by its name, and what the gate reads from the name. */
  datatype Mutant = Mutant(name: string, file: string, fn: string, prefix: string)

  /** What the gate reads from the diff of a mutant. */
  datatype Shown = Shown(removed: Option<string>, signature: string)

  // ---- names of mutants ----

  /** The last position of `sep` in `s`. */
  function LastOf(s: string, sep: string): (k: Option<nat>)
    requires sep != ""
    ensures k.Some? ==> k.value + |sep| <= |s|
  {
    if |s| < |sep| then None
    else if s[|s| - |sep|..] == sep then Some(|s| - |sep|)
    else LastOf(s[..|s| - 1], sep)
  }

  function Before(s: string, sep: string): string
    requires sep != ""
  {
    var k := LastOf(s, sep);
    if k.Some? then s[..k.value] else ""
  }

  function AfterLast(s: string, sep: string): string
    requires sep != ""
  {
    var k := LastOf(s, sep);
    if k.Some? then s[k.value + |sep|..] else s
  }

  function FirstOf(s: string, sep: string): (k: Option<nat>)
    ensures k.Some? ==> k.value <= |s|
  {
    if sep <= s then Some(0)
    else if s == "" then None
    else
      var k := FirstOf(s[1..], sep);
      if k.Some? then Some(k.value + 1) else None
  }

  function Replace(s: string, from: char, to: char): string {
    if s == "" then "" else [if s[0] == from then to else s[0]] + Replace(s[1..], from, to)
  }

  function MutantFunction(name: string): string {
    var leaf := AfterLast(Before(name, "__mutmut_"), ".");
    if "x_" <= leaf then leaf[2..] else leaf
  }

  function MutantFile(name: string): string {
    "src/" + Replace(Before(Before(name, "__mutmut_"), "."), '.', '/') + ".py"
  }

  /** What stays the same when the mutants of a function are renumbered. */
  function MutantPrefix(name: string): string {
    var k := FirstOf(name, "__mutmut_");
    if k.Some? then name[..k.value] else name
  }

  function ReadName(name: string): Mutant {
    Mutant(name, MutantFile(name), MutantFunction(name), MutantPrefix(name))
  }

  // ---- diffs ----

  /** A removed line of a diff, as opposed to a file header. */
  predicate Removed(line: string) {
    "-" <= line && !("---" <= line)
  }

  /** A hunk header comes before line `i`. */
  predicate InHunk(lines: seq<string>, i: nat)
    requires i <= |lines|
  {
    exists j :: 0 <= j < i && "@@" <= lines[j]
  }

  function RemovedIn(lines: seq<string>, i: nat): Option<string>
    requires i <= |lines|
    decreases |lines| - i
  {
    if i == |lines| then None
    else if Removed(lines[i]) && InHunk(lines, i) then Some(Strip(lines[i][1..]))
    else RemovedIn(lines, i + 1)
  }

  /** The stripped text of the first source line that a mutant alters; `None` if none is
      shown. */
  function RemovedSourceLine(show: string): Option<string> {
    RemovedIn(SplitLines(show), 0)
  }

  /** All source lines that a diff removes from line `i` on, stripped. */
  function AllRemoved(lines: seq<string>, i: nat): seq<string>
    requires i <= |lines|
    decreases |lines| - i
  {
    if i == |lines| then []
    else (if Removed(lines[i]) && InHunk(lines, i) then [Strip(lines[i][1..])] else []) + AllRemoved(lines, i + 1)
  }

  function RemovedLines(show: string): seq<string> {
    AllRemoved(SplitLines(show), 0)
  }

  lemma {:induction false} RemovedInIsFirst(lines: seq<string>, i: nat)
    requires i <= |lines|
    ensures RemovedIn(lines, i) == if AllRemoved(lines, i) == [] then None else Some(AllRemoved(lines, i)[0])
    decreases |lines| - i
  {
    if i == |lines| {
    } else {
      RemovedInIsFirst(lines, i + 1);
    }
  }

  /** Line `i` stands in a hunk and is removed by it. */
  ghost predicate RemovesAt(lines: seq<string>, i: nat) {
    && i < |lines| && lines[i] != "" && lines[i][0] == '-' && !(|lines[i]| >= 3 && lines[i][..3] == "---")
    && exists j :: 0 <= j < i && |lines[j]| >= 2 && lines[j][..2] == "@@"
  }

  lemma RemovesAtMeans(lines: seq<string>, i: nat)
    requires i < |lines|
    ensures RemovesAt(lines, i) <==> Removed(lines[i]) && InHunk(lines, i)
  {
  }

  /** The source line that is read off is the first that is removed, without the white space
      around it. */
  lemma {:induction false} RemovedInMeans(lines: seq<string>, i: nat)
    requires i <= |lines|
    ensures RemovedIn(lines, i) == None <==> forall k :: i <= k < |lines| ==> !RemovesAt(lines, k)
    ensures RemovedIn(lines, i).Some? ==>
              exists k :: i <= k < |lines| && RemovesAt(lines, k) && RemovedIn(lines, i) == Some(Strip(lines[k][1..]))
                && forall l :: i <= l < k ==> !RemovesAt(lines, l)
    decreases |lines| - i
  {
    hide Removed, InHunk, RemovesAt, Strip;
    if i < |lines| {
      RemovesAtMeans(lines, i);
      if !(Removed(lines[i]) && InHunk(lines, i)) {
        RemovedInMeans(lines, i + 1);
      }
    }
  }

  method ReadRemovedLine(show: string) returns (text: Option<string>)
    ensures text == RemovedSourceLine(show)
  {
    hide SplitLines, Strip;
    var lines := SplitLines(show);
    var inHunk := false;
    for i := 0 to |lines|
      invariant inHunk == InHunk(lines, i)
      invariant RemovedIn(lines, 0) == RemovedIn(lines, i)
    {
      var line := lines[i];
      if "@@" <= line {
        assert line[0] == '@';
        inHunk := true;
        continue;
      }
      if inHunk && "-" <= line && !("---" <= line) {
        return Some(Strip(line[1..]));
      }
    }
    text := None;
  }

  function Signature(show: string): string {
    Strip(Join(Body(SplitLines(show))))
  }

  /** A diff without the lines that carry names, paths or positions. */
  function Body(lines: seq<string>): seq<string> {
    if lines == [] then []
    else
      var line := lines[|lines| - 1];
      Body(lines[..|lines| - 1]) + if Bookkeeping(line) then [] else [line]
  }

  predicate Bookkeeping(line: string) {
    "# " <= line || "--- " <= line || "+++ " <= line || "@@" <= line
  }

  function ReadDiff(show: string): Shown {
    Shown(RemovedSourceLine(show), Signature(show))
  }

  lemma {:induction false} BodyPlus(a: seq<string>, b: seq<string>)
    ensures Body(a + b) == Body(a) + Body(b)
  {
    hide Bookkeeping;
    if b == [] {
      assert a + b == a;
    } else {
      assert (a + b)[..|a| + |b| - 1] == a + b[..|b| - 1];
      BodyPlus(a, b[..|b| - 1]);
    }
  }

  /** Every line is kept or dropped for itself, and dropped exactly if it is a comment, a file
      header or a hunk header. */
  lemma BodyMeans(a: seq<string>, b: seq<string>, line: string)
    ensures Body(a + b) == Body(a) + Body(b)
    ensures Body([line]) == if "# " <= line || "--- " <= line || "+++ " <= line || "@@" <= line then [] else [line]
  {
    BodyPlus(a, b);
    assert [line][..0] == [];
  }

  /** The lines of a diff that count, as one text. */
  function Counting(show: string): string {
    Join(Body(SplitLines(show)))
  }

  /** The same text, apart from white space before and after it. */
  ghost predicate SameText(s: string, t: string) {
    exists body, p, q, p', q' :: Padded(s, p, body, q) && Padded(t, p', body, q')
  }

  ghost predicate Padded(s: string, indent: string, body: string, pad: string) {
    s == indent + (body + pad) && Blank(indent) && Blank(pad) && (body == "" || Tight(body))
  }

  lemma PaddedStrips(s: string, indent: string, body: string, pad: string)
    requires Padded(s, indent, body, pad)
    ensures Strip(s) == body
  {
    if body == "" {
      assert body + pad == pad;
      BlankPlus(indent, pad);
      StripBlank(s);
    } else {
      StripLaid(s, indent, body, pad);
    }
  }

  /** Two diffs have one signature exactly if the lines that count are the same, apart from white
      space before the first and after the last. */
  lemma SignatureIsExact(a: string, b: string)
    ensures Signature(a) == Signature(b) <==> SameText(Counting(a), Counting(b))
  {
    hide Counting, Strip, Blank, Tight;
    var s, t := Counting(a), Counting(b);
    assert Signature(a) == Strip(s) && Signature(b) == Strip(t) by {
      SignatureStrips(a);
      SignatureStrips(b);
    }
    var p, q := StripCuts(s);
    var p', q' := StripCuts(t);
    if Strip(s) == Strip(t) {
      assert Padded(s, p, Strip(s), q) && Padded(t, p', Strip(s), q');
    }
    if SameText(s, t) {
      var body, i, j, i', j' :| Padded(s, i, body, j) && Padded(t, i', body, j');
      PaddedStrips(s, i, body, j);
      PaddedStrips(t, i', body, j');
    }
  }

  lemma SignatureStrips(show: string)
    ensures Signature(show) == Strip(Counting(show))
  {
  }

  // ---- names written and read ----

  predicate Undotted(s: string) {
    forall i :: 0 <= i < |s| ==> s[i] != '.'
  }

  lemma {:induction false} NoDotInTail(s: string, t: string)
    requires Undotted(t)
    ensures LastOf(s + "." + t, ".") == Some(|s|)
  {
    var w := s + "." + t;
    if t == "" {
      assert w[|w| - 1..] == ".";
    } else {
      assert w[|w| - 1] == t[|t| - 1];
      assert w[..|w| - 1] == s + "." + t[..|t| - 1];
      NoDotInTail(s, t[..|t| - 1]);
    }
  }

  const MARK := "__mutmut_"

  lemma {:induction false} MarkIsLast(s: string, digits: string)
    requires forall i :: 0 <= i < |digits| ==> '0' <= digits[i] <= '9'
    ensures LastOf(s + MARK + digits, MARK) == Some(|s|)
  {
    var w := s + MARK + digits;
    if digits == "" {
      assert w[|w| - |MARK|..] == MARK;
    } else {
      var d := digits[..|digits| - 1];
      assert w[|w| - 1] == digits[|digits| - 1];
      assert w[|w| - |MARK|..][|MARK| - 1] != MARK[|MARK| - 1];
      assert w[..|w| - 1] == s + MARK + d;
      MarkIsLast(s, d);
    }
  }

  /** A mutant named for function `fn` of module `dotted` is traced back to that function and
      to that module's file; so is any other leaf, as it stands. */
  lemma NameTracesBack(dotted: string, leaf: string, digits: string)
    requires Undotted(leaf) && forall i :: 0 <= i < |digits| ==> '0' <= digits[i] <= '9'
    ensures var name := dotted + "." + leaf + MARK + digits;
            && MutantFunction(name) == (if "x_" <= leaf then leaf[2..] else leaf)
            && MutantFile(name) == "src/" + Replace(dotted, '.', '/') + ".py"
  {
    var head := dotted + "." + leaf;
    MarkIsLast(head, digits);
    NoDotInTail(dotted, leaf);
    hide LastOf, Replace;
    var name := head + MARK + digits;
    assert name[..|head|] == head;
    assert head[..|dotted|] == dotted && head[|dotted| + 1..] == leaf;
  }

  /** A name without the mark, or without a module, is traced back to nothing. */
  lemma NamelessTracesNowhere(name: string, digits: string)
    ensures LastOf(name, MARK) == None ==> MutantFunction(name) == "" && MutantFile(name) == "src/.py"
    ensures Undotted(name) && (forall i :: 0 <= i < |digits| ==> '0' <= digits[i] <= '9') ==>
              MutantFile(name + MARK + digits) == "src/.py"
  {
    assert LastOf("", ".") == None;
    if Undotted(name) && forall i :: 0 <= i < |digits| ==> '0' <= digits[i] <= '9' {
      MarkIsLast(name, digits);
      NoDot(name);
      assert (name + MARK + digits)[..|name|] == name;
    }
    hide LastOf;
  }

  lemma {:induction false} NoDot(s: string)
    requires Undotted(s)
    ensures LastOf(s, ".") == None
  {
    if s == "" {
    } else {
      assert s[|s| - 1..] == [s[|s| - 1]];
      NoDot(s[..|s| - 1]);
    }
  }

  lemma {:induction false} ReplaceMeans(s: string, from: char, to: char)
    ensures |Replace(s, from, to)| == |s|
    ensures forall i :: 0 <= i < |s| ==> Replace(s, from, to)[i] == if s[i] == from then to else s[i]
  {
    if s == "" {
    } else {
      ReplaceMeans(s[1..], from, to);
    }
  }

  // ---- what renumbering leaves alone ----

  /** The first occurrence is one, and none comes before it. */
  lemma {:induction false} FirstOfMeans(s: string, sep: string)
    requires sep != ""
    ensures FirstOf(s, sep) == None <==> forall i :: 0 <= i <= |s| ==> !(sep <= s[i..])
    ensures FirstOf(s, sep).Some? ==>
              sep <= s[FirstOf(s, sep).value..] && forall i :: 0 <= i < FirstOf(s, sep).value ==> !(sep <= s[i..])
  {
    assert s[0..] == s;
    if sep <= s || s == "" {
    } else {
      FirstOfMeans(s[1..], sep);
      assert forall i :: 0 < i <= |s| ==> s[i..] == s[1..][i - 1..];
    }
  }

  /** The mark comes at the end of `head` and not before. */
  ghost predicate MarkedFirst(head: string) {
    forall i :: 0 <= i < |head| ==> !(MARK <= (head + MARK)[i..])
  }

  lemma FirstIs(s: string, sep: string, n: nat)
    requires sep != "" && n <= |s| && sep <= s[n..] && forall i :: 0 <= i < n ==> !(sep <= s[i..])
    ensures FirstOf(s, sep) == Some(n)
  {
    FirstOfMeans(s, sep);
    hide FirstOf;
  }

  lemma {:induction false} BodySkips(line: string, lines: seq<string>)
    requires Bookkeeping(line)
    ensures Body([line] + lines) == Body(lines)
  {
    hide Bookkeeping;
    var all := [line] + lines;
    if lines == [] {
      assert all[..0] == [];
    } else {
      assert all[..|all| - 1] == [line] + lines[..|lines| - 1];
      BodySkips(line, lines[..|lines| - 1]);
    }
  }

  lemma PrefixIs(head: string, number: string)
    requires MarkedFirst(head)
    ensures MutantPrefix(head + MARK + number) == head
  {
    hide FirstOf;
    var name := head + MARK + number;
    assert name[|head|..] == MARK + number;
    forall i | 0 <= i < |head| ensures !(MARK <= name[i..]) {
      assert |(head + MARK)[i..]| >= |MARK|;
      assert name[i..][..|MARK|] == (head + MARK)[i..][..|MARK|];
    }
    FirstIs(name, MARK, |head|);
    CutAfter(head, MARK, number);
  }

  lemma CutAfter(a: string, b: string, c: string)
    ensures (a + b + c)[..|a|] == a
  {
  }

  lemma TopIsSkipped(top: string, diff: string)
    requires Whole(top) && "# " <= top
    ensures Signature(top + "\n" + diff) == Signature(diff)
  {
    hide SplitLines, Body, Strip, Join;
    SplitCons(top, diff);
    BodySkips(top, SplitLines(diff));
  }

  /** The mutants of a function share their prefix, and the first line of what is shown, with
      the name and the status of a mutant, does not count: renumbering changes neither. */
  lemma RenumberingIsInvisible(head: string, number: string, number': string, top: string, top': string, diff: string)
    requires MarkedFirst(head)
    requires Whole(top) && Whole(top') && "# " <= top && "# " <= top'
    ensures MutantPrefix(head + MARK + number) == MutantPrefix(head + MARK + number')
    ensures Signature(top + "\n" + diff) == Signature(top' + "\n" + diff)
  {
    hide FirstOf, MutantPrefix, Signature, Whole;
    PrefixIs(head, number);
    PrefixIs(head, number');
    TopIsSkipped(top, diff);
    TopIsSkipped(top', diff);
  }
}
