/** Lines of text, and the two kinds of line the lockfile tool reads. */
module CargoText {
  import opened CargoBlocks
  import opened Options

  /** The characters that end a line for `str.splitlines`. */
  predicate Break(c: char) {
    || '\n' <= c <= '\r' || '\U{1C}' <= c <= '\U{1E}'
    || c == '\U{85}' || c == '\U{2028}' || c == '\U{2029}'
  }

  /** White space for `str.strip` and for `\s`. */
  predicate Space(c: char) {
    || '\t' <= c <= '\r' || '\U{1C}' <= c <= ' '
    || c == '\U{85}' || c == '\U{A0}' || c == '\U{1680}' || '\U{2000}' <= c <= '\U{200A}'
    || c == '\U{2028}' || c == '\U{2029}' || c == '\U{202F}' || c == '\U{205F}' || c == '\U{3000}'
  }

  /** The first position of a character in `s` that `p` holds of, or the length of `s`. */
  function Until(s: string, p: char -> bool): (n: nat)
    ensures n <= |s|
    ensures forall i :: 0 <= i < n ==> !p(s[i])
    ensures n < |s| ==> p(s[n])
  {
    if s == "" || p(s[0]) then 0 else 1 + Until(s[1..], p)
  }

  predicate Whole(line: string) {
    forall i :: 0 <= i < |line| ==> !Break(line[i])
  }

  /** `str.splitlines`: a carriage return and a line feed end one line together. */
  function SplitLines(s: string): (lines: seq<string>)
    ensures forall i :: 0 <= i < |lines| ==> Whole(lines[i])
    decreases |s|
  {
    if s == "" then []
    else
      var n := Until(s, Break);
      if n == |s| then [s] else [s[..n]] + SplitLines(s[n + BreakLength(s[n..])..])
  }

  function BreakLength(s: string): (n: nat)
    requires s != "" && Break(s[0])
    ensures 0 < n <= |s|
  {
    if |s| > 1 && s[0] == '\r' && s[1] == '\n' then 2 else 1
  }

  function Join(lines: seq<string>): string {
    if lines == [] then ""
    else if |lines| == 1 then lines[0]
    else lines[0] + "\n" + Join(lines[1..])
  }

  predicate EndsLine(s: string) {
    s != "" && s[|s| - 1] == '\n'
  }

  function Trailer(s: string): string {
    if EndsLine(s) then "\n" else ""
  }

  // ---- splitting what was joined ----

  lemma UntilBreak(line: string, rest: string)
    requires Whole(line)
    ensures Until(line + "\n" + rest, Break) == |line|
    ensures Until(line, Break) == |line|
  {
    var s := line + "\n" + rest;
    assert s[|line|] == '\n';
    assert forall i :: 0 <= i < |line| ==> s[i] == line[i];
  }

  lemma SplitCons(line: string, rest: string)
    requires Whole(line)
    ensures SplitLines(line + "\n" + rest) == [line] + SplitLines(rest)
  {
    UntilBreak(line, rest);
    var s := line + "\n" + rest;
    assert s[..|line|] == line && s[|line|] == '\n' && s[|line| + 1..] == rest;
  }

  /** Any line break ends a line; a carriage return takes a line feed after it along. */
  lemma SplitBreak(line: string, c: char, rest: string)
    requires Whole(line) && Break(c)
    ensures SplitLines(line + ([c] + rest)) ==
            [line] + SplitLines(if c == '\r' && "\n" <= rest then rest[1..] else rest)
  {
    var s := line + ([c] + rest);
    assert s[|line|] == c && forall i :: 0 <= i < |line| ==> s[i] == line[i];
    assert Until(s, Break) == |line| && s[..|line|] == line && s[|line|..] == [c] + rest;
    assert s[|line| + 1..] == rest;
    if c == '\r' && "\n" <= rest {
      assert s[|line| + 2..] == rest[1..] && ([c] + rest)[1] == '\n';
    } else {
      assert BreakLength([c] + rest) == 1 by {
        assert rest != "" ==> ([c] + rest)[1] == rest[0];
        assert rest != "" && rest[0] == '\n' ==> "\n" <= rest;
      }
    }
  }

  lemma SplitOne(line: string)
    requires Whole(line) && line != ""
    ensures SplitLines(line) == [line]
  {
    UntilBreak(line, "");
  }

  ghost predicate AllWhole(lines: seq<string>) {
    forall i :: 0 <= i < |lines| ==> Whole(lines[i])
  }

  lemma Regroup(a: string, b: string, c: string, d: string)
    ensures a + b + c + d == a + b + (c + d)
  {
  }

  lemma {:induction false} SplitClosed(lines: seq<string>)
    requires AllWhole(lines) && lines != []
    ensures SplitLines(Join(lines) + "\n") == lines
  {
    assert SplitLines("") == [];
    hide SplitLines, Whole;
    if |lines| == 1 {
      SplitCons(lines[0], "");
      assert lines[0] + "\n" + "" == lines[0] + "\n";
    } else {
      SplitClosed(lines[1..]);
      SplitCons(lines[0], Join(lines[1..]) + "\n");
      Regroup(lines[0], "\n", Join(lines[1..]), "\n");
    }
  }

  /** An empty last line is lost unless its end is written out. */
  function Dense(lines: seq<string>): seq<string> {
    if lines != [] && lines[|lines| - 1] == "" then lines[..|lines| - 1] else lines
  }

  lemma JoinCons(line: string, lines: seq<string>)
    requires lines != []
    ensures Join([line] + lines) == line + "\n" + Join(lines)
  {
    assert ([line] + lines)[1..] == lines;
  }

  lemma OpenStep(line: string, rest: seq<string>)
    requires Whole(line) && rest != [] && SplitLines(Join(rest)) == Dense(rest)
    ensures SplitLines(Join([line] + rest)) == Dense([line] + rest)
  {
    hide SplitLines, Whole, Join;
    JoinCons(line, rest);
    SplitCons(line, Join(rest));
    var lines := [line] + rest;
    assert lines[|lines| - 1] == rest[|rest| - 1];
    if rest[|rest| - 1] == "" {
      assert lines[..|lines| - 1] == [line] + rest[..|rest| - 1];
    }
  }

  lemma {:induction false} SplitOpen(lines: seq<string>)
    requires AllWhole(lines)
    ensures SplitLines(Join(lines)) == Dense(lines)
  {
    if |lines| <= 1 {
      if lines != [] && lines[0] != "" {
        SplitOne(lines[0]);
      }
    } else {
      hide SplitLines, Whole, Join, Dense;
      SplitOpen(lines[1..]);
      OpenStep(lines[0], lines[1..]);
      assert lines == [lines[0]] + lines[1..];
    }
  }

  /** Text whose only line breaks are line feeds. */
  ghost predicate Plain(s: string) {
    forall i :: 0 <= i < |s| && Break(s[i]) ==> s[i] == '\n'
  }

  lemma FirstLine(s: string) returns (line: string, rest: string)
    requires Plain(s) && Until(s, Break) < |s|
    ensures Whole(line) && Plain(rest) && s == line + "\n" + rest && |rest| < |s|
  {
    var n := Until(s, Break);
    line, rest := s[..n], s[n + 1..];
  }

  /** `s` is put together again from its lines. */
  ghost predicate Rejoins(s: string) {
    Join(SplitLines(s)) + Trailer(s) == s && (SplitLines(s) == [] <==> s == "")
  }

  lemma RejoinStep(line: string, rest: string)
    requires Whole(line) && Rejoins(rest)
    ensures Rejoins(line + "\n" + rest)
  {
    SplitCons(line, rest);
    var s, lines := line + "\n" + rest, SplitLines(rest);
    hide SplitLines, Whole, Until, Break;
    if rest == "" {
      assert Join([line]) == line;
    } else {
      JoinCons(line, lines);
      assert s[|s| - 1] == rest[|rest| - 1];
      hide Join, EndsLine;
      Regroup(line, "\n", Join(lines), Trailer(rest));
    }
  }

  lemma {:induction false} JoinSplit(s: string)
    requires Plain(s)
    ensures Rejoins(s)
    decreases |s|
  {
    if s == "" {
    } else if Until(s, Break) == |s| {
      assert s[|s| - 1] != '\n';
    } else {
      var line, rest := FirstLine(s);
      JoinSplit(rest);
      RejoinStep(line, rest);
    }
  }

  lemma LineFeedPlain()
    ensures Plain("\n")
  {
  }

  lemma PlainPlus(a: string, b: string)
    requires Plain(a) && Plain(b)
    ensures Plain(a + b)
  {
  }

  lemma WholeIsPlain(line: string)
    requires Whole(line)
    ensures Plain(line) && !EndsLine(line)
  {
    assert line != "" ==> !Break(line[|line| - 1]);
  }

  /** Joined lines have line feeds only, and end in one exactly if the last line of two or
      more is empty. */
  lemma {:induction false} JoinPlain(lines: seq<string>)
    requires AllWhole(lines)
    ensures Plain(Join(lines))
    ensures EndsLine(Join(lines)) <==> |lines| >= 2 && lines[|lines| - 1] == ""
  {
    if |lines| == 0 {
    } else if |lines| == 1 {
      WholeIsPlain(lines[0]);
    } else {
      var rest := lines[1..];
      JoinPlain(rest);
      WholeIsPlain(lines[0]);
      assert Plain("\n");
      hide Plain, Whole;
      PlainPlus(lines[0], "\n");
      PlainPlus(lines[0] + "\n", Join(rest));
      assert Join(rest) == "" <==> |rest| == 1 && rest[0] == "";
      var s := Join(lines);
      assert s == lines[0] + "\n" + Join(rest);
      assert Join(rest) != "" ==> s[|s| - 1] == Join(rest)[|Join(rest)| - 1];
      assert Join(rest) == "" ==> s[|s| - 1] == '\n';
    }
  }

  // ---- fields ----

  function TrimLeft(s: string): (r: string)
    ensures |r| <= |s| && r == s[|s| - |r|..]
  {
    if s != "" && Space(s[0]) then TrimLeft(s[1..]) else s
  }

  function TrimRight(s: string): string {
    if s != "" && Space(s[|s| - 1]) then TrimRight(s[..|s| - 1]) else s
  }

  function Strip(s: string): string {
    TrimRight(TrimLeft(s))
  }

  // ---- what stripping leaves ----

  ghost predicate Blank(s: string) {
    forall i :: 0 <= i < |s| ==> Space(s[i])
  }

  /** Text that neither begins nor ends with white space. */
  ghost predicate Tight(s: string) {
    s != "" && !Space(s[0]) && !Space(s[|s| - 1])
  }

  /** A line is its text with white space around it. */
  ghost predicate Laid(line: string, indent: string, body: string, pad: string) {
    line == indent + (body + pad) && Blank(indent) && Tight(body) && Blank(pad)
  }

  lemma {:induction false} TrimIndent(indent: string, body: string)
    requires Blank(indent) && body != "" && !Space(body[0])
    ensures TrimLeft(indent + body) == body
  {
    if indent == "" {
      assert indent + body == body;
    } else {
      assert (indent + body)[1..] == indent[1..] + body;
      TrimIndent(indent[1..], body);
    }
  }

  lemma {:induction false} TrimEnd(body: string, pad: string)
    requires Blank(pad) && body != "" && !Space(body[|body| - 1])
    ensures TrimRight(body + pad) == body
  {
    if pad == "" {
      assert body + pad == body;
    } else {
      var n := |pad| - 1;
      assert (body + pad)[..|body| + n] == body + pad[..n];
      TrimEnd(body, pad[..n]);
    }
  }

  lemma StripLaid(line: string, indent: string, body: string, pad: string)
    requires Laid(line, indent, body, pad)
    ensures Strip(line) == body && |TrimLeft(line)| == |line| - |indent|
  {
    assert (body + pad)[0] == body[0];
    hide TrimLeft, TrimRight, Blank;
    TrimIndent(indent, body + pad);
    TrimEnd(body, pad);
  }

  lemma {:induction false} TrimLeftCuts(s: string)
    ensures Blank(s[..|s| - |TrimLeft(s)|])
    ensures TrimLeft(s) != "" ==> !Space(TrimLeft(s)[0])
  {
    if s != "" && Space(s[0]) {
      TrimLeftCuts(s[1..]);
      var n := |s| - |TrimLeft(s)|;
      forall i | 0 <= i < n ensures Space(s[i]) {
        assert i > 0 ==> s[i] == s[1..][..n - 1][i - 1];
      }
    }
  }

  lemma {:induction false} TrimRightCuts(s: string) returns (pad: string)
    ensures s == TrimRight(s) + pad && Blank(pad)
    ensures TrimRight(s) != "" ==> !Space(TrimRight(s)[|TrimRight(s)| - 1])
    ensures s != "" && !Space(s[0]) ==> TrimRight(s) != "" && TrimRight(s)[0] == s[0]
  {
    if s != "" && Space(s[|s| - 1]) {
      var n := |s| - 1;
      var rest := TrimRightCuts(s[..n]);
      pad := rest + [s[n]];
      assert s == s[..n] + [s[n]];
    } else {
      pad := "";
    }
  }

  /** Stripping cuts white space at both ends and nothing else. */
  lemma StripCuts(s: string) returns (indent: string, pad: string)
    ensures s == indent + (Strip(s) + pad) && Blank(indent) && Blank(pad)
    ensures Strip(s) != "" ==> Tight(Strip(s)) && Laid(s, indent, Strip(s), pad)
  {
    hide TrimLeft, TrimRight, Blank, Space;
    var t := TrimLeft(s);
    indent := s[..|s| - |t|];
    TrimLeftCuts(s);
    pad := TrimRightCuts(t);
    assert s == indent + t && t == TrimRight(t) + pad;
  }

  lemma StripBlank(s: string)
    ensures Strip(s) == "" <==> Blank(s)
  {
    var indent, pad := StripCuts(s);
    if Strip(s) != "" {
      assert s[|indent|] == Strip(s)[0];
    } else {
      assert s == indent + pad;
    }
    hide Strip;
  }

  predicate Quote(c: char) {
    c == '"'
  }

  /** The value of a line `name = "value"`, white space around the equals sign being free. */
  function Field(name: string, s: string): Option<string> {
    if name <= s then Equals(TrimLeft(s[|name|..])) else None
  }

  function Equals(r: string): Option<string> {
    if r != "" && r[0] == '=' then Quoted(TrimLeft(r[1..])) else None
  }

  function Quoted(q: string): Option<string> {
    if q != "" && q[0] == '"' then Closed(q[1..]) else None
  }

  /** The text up to a closing quote that ends the line. */
  function Closed(v: string): Option<string> {
    var n := Until(v, Quote);
    if n < |v| && TrimLeft(v[n + 1..]) == "" then Some(v[..n]) else None
  }

  /** What the lockfile scan sees in a line; `OneKind` shows that its tests exclude each
      other, so their order does not matter. */
  function KindOf(line: string): Kind {
    var s := Strip(line);
    if s == "[[package]]" then Header
    else if Field("name", s).Some? then Name(Field("name", s).value)
    else if Field("version", s).Some? then Version(Field("version", s).value)
    else OtherLine
  }

  /** What the manifest scan sees in a line. */
  function ManifestLineOf(line: string): ManifestLine {
    if "[" <= TrimLeft(line) then Table(Strip(line) == "[package]")
    else
      match Field("version", Strip(line))
      case Some(v) => Declaration(v)
      case None => OtherManifestLine
  }

  function VersionText(v: string): string {
    "version" + (" =" + (" \"" + (v + "\"")))
  }

  ghost predicate Unquoted(v: string) {
    forall i :: 0 <= i < |v| ==> v[i] != '"'
  }

  /** A version that a line can carry: no quote and no line break. */
  ghost predicate Fine(v: string) {
    Whole(v) && Unquoted(v)
  }

  lemma WholeFrom(s: string, k: nat)
    requires Whole(s) && k <= |s|
    ensures Whole(s[k..])
  {
  }

  lemma WholeUpTo(s: string, k: nat)
    requires Whole(s) && k <= |s|
    ensures Whole(s[..k])
  {
  }

  lemma ClosedFine(v: string)
    requires Whole(v)
    ensures Closed(v).Some? ==> Fine(Closed(v).value)
  {
    hide Break, TrimLeft, Whole;
    var n := Until(v, Quote);
    WholeUpTo(v, n);
    assert Unquoted(v[..n]);
  }

  lemma FieldFine(name: string, s: string)
    requires Whole(s)
    ensures Field(name, s).Some? ==> Fine(Field(name, s).value)
  {
    hide Break, Space, TrimLeft, Until, Closed, Fine, Whole;
    if Field(name, s).Some? {
      var t := s[|name|..];
      WholeFrom(s, |name|);
      var r := TrimLeft(t);
      WholeFrom(t, |t| - |r|);
      var u := r[1..];
      WholeFrom(r, 1);
      var q := TrimLeft(u);
      WholeFrom(u, |u| - |q|);
      WholeFrom(q, 1);
      ClosedFine(q[1..]);
    }
  }

  lemma {:induction false} TrimRightWhole(s: string)
    requires Whole(s)
    ensures Whole(TrimRight(s))
  {
    if s != "" && Space(s[|s| - 1]) {
      TrimRightWhole(s[..|s| - 1]);
    }
  }

  /** What is read from a line can be written back. */
  lemma VersionFine(line: string)
    requires Whole(line)
    ensures KindOf(line).Version? ==> Fine(KindOf(line).version)
    ensures ManifestLineOf(line).Declaration? ==> Fine(ManifestLineOf(line).version)
  {
    TrimRightWhole(TrimLeft(line));
    FieldFine("version", Strip(line));
    hide Field, Strip, Fine;
  }

  lemma Tail(a: string, b: string)
    ensures (a + b)[|a|..] == b
  {
  }

  lemma WholePlus(a: string, b: string)
    requires Whole(a) && Whole(b)
    ensures Whole(a + b)
  {
  }

  lemma VersionTextWhole(v: string)
    requires Whole(v)
    ensures Whole(VersionText(v))
  {
    assert Whole("version") && Whole(" =") && Whole(" \"") && Whole("\"");
    hide Whole;
    WholePlus(v, "\"");
    WholePlus(" \"", v + "\"");
    WholePlus(" =", " \"" + (v + "\""));
    WholePlus("version", " =" + (" \"" + (v + "\"")));
  }

  lemma ClosedReads(v: string)
    requires Unquoted(v)
    ensures Closed(v + "\"") == Some(v)
  {
    var w := v + "\"";
    assert w[|v|] == '"' && w[|v| + 1..] == "" && w[..|v|] == v;
    assert Until(w, Quote) == |v| by {
      assert forall i :: 0 <= i < |v| ==> w[i] == v[i];
    }
  }

  /** Trimming one blank before a character that is none. */
  lemma TrimBlank(c: char, rest: string)
    requires !Space(c)
    ensures TrimLeft([' ', c] + rest) == [c] + rest
  {
    assert ([' ', c] + rest)[1..] == [c] + rest;
    assert TrimLeft([c] + rest) == [c] + rest;
  }

  lemma StripNothing(s: string)
    requires s != "" && !Space(s[0]) && !Space(s[|s| - 1])
    ensures Strip(s) == s
  {
  }

  lemma NoBlanks()
    ensures !Space('v') && !Space('=') && !Space('"')
  {
  }

  /** A written version line holds that version. */
  lemma VersionTextReads(v: string)
    requires Unquoted(v)
    ensures KindOf(VersionText(v)) == Version(v)
  {
    hide TrimLeft, Closed, Strip, Unquoted, Space;
    var close := v + "\"";
    var quoted := " \"" + close;
    var equals := " =" + quoted;
    var line := "version" + equals;
    NoBlanks();
    ClosedReads(v);
    TrimBlank('"', close);
    TrimBlank('=', quoted);
    Tail("\"", close);
    Tail("=", quoted);
    Tail("version", equals);
    assert line[0] == 'v' && line[|line| - 1] == '"';
    StripNothing(line);
  }

  lemma FieldStarts(name: string, s: string)
    requires name != "" && Field(name, s).Some?
    ensures s != "" && s[0] == name[0]
  {
  }

  /** The tests for a header, a name and a version exclude each other. */
  lemma OneKind(line: string)
    ensures KindOf(line).Header? <==> Strip(line) == "[[package]]"
    ensures KindOf(line).Name? <==> Field("name", Strip(line)).Some?
    ensures KindOf(line).Name? ==> Field("name", Strip(line)) == Some(KindOf(line).name)
    ensures KindOf(line).Version? <==> Field("version", Strip(line)).Some?
    ensures KindOf(line).Version? ==> Field("version", Strip(line)) == Some(KindOf(line).version)
  {
    hide Strip, Field;
    var s := Strip(line);
    if Field("version", s).Some? {
      FieldStarts("version", s);
    }
    if Field("name", s).Some? {
      FieldStarts("name", s);
    }
  }

  lemma EmptyLine()
    ensures KindOf("") == OtherLine
  {
    assert Strip("") == "";
  }

  // ---- what the lines of the files may look like ----

  /** A line `name = "value"` with white space `a` and `b` around the equals sign. */
  ghost predicate FieldLine(line: string, indent: string, name: string, a: string, b: string, value: string, pad: string) {
    && line == indent + (FieldText(name, a, b, value) + pad)
    && Blank(indent) && Blank(a) && Blank(b) && Blank(pad) && Unquoted(value)
  }

  function FieldText(name: string, a: string, b: string, value: string): string {
    name + (a + ("=" + (b + ("\"" + (value + "\"")))))
  }

  lemma FieldReads(name: string, a: string, b: string, value: string)
    requires Blank(a) && Blank(b) && Unquoted(value)
    ensures Field(name, FieldText(name, a, b, value)) == Some(value)
  {
    hide TrimLeft, Closed, Blank, Unquoted, Space;
    var close := value + "\"";
    var quoted := "\"" + close;
    var equals := "=" + (b + quoted);
    ClosedReads(value);
    NoBlanks();
    assert quoted[0] == '"' && equals[0] == '=';
    TrimIndent(b, quoted);
    TrimIndent(a, equals);
    Tail("\"", close);
    Tail("=", b + quoted);
    Tail(name, a + equals);
  }

  lemma FieldTight(name: string, a: string, b: string, value: string)
    requires name != "" && !Space(name[0])
    ensures Tight(FieldText(name, a, b, value))
  {
    var t := FieldText(name, a, b, value);
    assert t[0] == name[0] && t[|t| - 1] == '"';
  }

  /** A name or version line is read whatever white space it has, and the value is what stands
      between the quotes. */
  lemma FieldLineReads(line: string, indent: string, a: string, b: string, value: string, pad: string)
    ensures FieldLine(line, indent, "name", a, b, value, pad) ==> KindOf(line) == Name(value)
    ensures FieldLine(line, indent, "version", a, b, value, pad) ==>
              KindOf(line) == Version(value) && ManifestLineOf(line) == Declaration(value)
  {
    hide Strip, TrimLeft, Field, FieldText, Tight;
    if FieldLine(line, indent, "name", a, b, value, pad) {
      FieldStrips(line, indent, "name", a, b, value, pad);
      OneKind(line);
    }
    if FieldLine(line, indent, "version", a, b, value, pad) {
      FieldStrips(line, indent, "version", a, b, value, pad);
      OneKind(line);
    }
  }

  lemma FieldStrips(line: string, indent: string, name: string, a: string, b: string, value: string, pad: string)
    requires FieldLine(line, indent, name, a, b, value, pad)
    requires name != "" && !Space(name[0]) && name[0] != '['
    ensures Strip(line) == FieldText(name, a, b, value) && Field(name, Strip(line)) == Some(value)
    ensures !("[" <= TrimLeft(line))
  {
    var t := FieldText(name, a, b, value);
    FieldTight(name, a, b, value);
    assert t[0] == name[0];
    assert (t + pad)[0] == t[0];
    TrimIndent(indent, t + pad);
    hide Strip, TrimLeft, FieldText, Field;
    StripLaid(line, indent, t, pad);
    FieldReads(name, a, b, value);
  }

  lemma Around(s: string, n: nat)
    requires n < |s|
    ensures s == s[..n] + ([s[n]] + s[n + 1..])
  {
  }

  lemma BlankTrims(s: string)
    requires TrimLeft(s) == ""
    ensures Blank(s)
  {
    TrimLeftCuts(s);
    assert s[..|s|] == s;
  }

  lemma ClosedIs(w: string) returns (rest: string)
    requires Closed(w).Some?
    ensures w == Closed(w).value + ("\"" + rest) && Blank(rest) && Unquoted(Closed(w).value)
  {
    hide TrimLeft, Blank, Until;
    var n := Until(w, Quote);
    rest := w[n + 1..];
    BlankTrims(rest);
    Around(w, n);
    assert [w[n]] == "\"";
  }

  /** What stands after the trimmed white space. */
  lemma Trimmed(s: string) returns (a: string)
    ensures s == a + TrimLeft(s) && Blank(a)
  {
    TrimLeftCuts(s);
    a := s[..|s| - |TrimLeft(s)|];
    hide TrimLeft, Blank;
  }

  lemma QuotedIs(q: string) returns (rest: string)
    requires Quoted(q).Some?
    ensures q == "\"" + (Quoted(q).value + ("\"" + rest)) && Blank(rest) && Unquoted(Quoted(q).value)
  {
    hide Closed, Blank, Unquoted;
    rest := ClosedIs(q[1..]);
    assert q == [q[0]] + q[1..];
  }

  lemma EqualsIs(r: string) returns (b: string, rest: string)
    requires Equals(r).Some?
    ensures r == "=" + (b + ("\"" + (Equals(r).value + ("\"" + rest))))
    ensures Blank(b) && Blank(rest) && Unquoted(Equals(r).value)
  {
    hide Quoted, TrimLeft, Blank, Unquoted;
    b := Trimmed(r[1..]);
    rest := QuotedIs(TrimLeft(r[1..]));
    assert r == [r[0]] + r[1..];
  }

  lemma FieldIs(name: string, s: string) returns (a: string, b: string, rest: string)
    requires Field(name, s).Some?
    ensures s == FieldText(name, a, b, Field(name, s).value) + rest
    ensures Blank(a) && Blank(b) && Blank(rest) && Unquoted(Field(name, s).value)
  {
    hide Equals, TrimLeft, Blank, Unquoted;
    var t := s[|name|..];
    a := Trimmed(t);
    b, rest := EqualsIs(TrimLeft(t));
    Associates(name, a, b, Field(name, s).value, rest);
    assert s == name + t;
  }

  lemma Associates(name: string, a: string, b: string, value: string, rest: string)
    ensures FieldText(name, a, b, value) + rest == name + (a + ("=" + (b + ("\"" + (value + ("\"" + rest))))))
  {
  }

  lemma BlankPlus(a: string, b: string)
    requires Blank(a) && Blank(b)
    ensures Blank(a + b)
  {
  }

  /** And no other line is: what is read as a name or a version is written in that form. */
  lemma FieldLineIs(line: string) returns (indent: string, a: string, b: string, pad: string)
    requires KindOf(line).Name? || KindOf(line).Version?
    ensures KindOf(line).Name? ==> FieldLine(line, indent, "name", a, b, KindOf(line).name, pad)
    ensures KindOf(line).Version? ==> FieldLine(line, indent, "version", a, b, KindOf(line).version, pad)
  {
    hide Strip, Field, FieldText, Blank, Unquoted;
    OneKind(line);
    var name := if KindOf(line).Name? then "name" else "version";
    var rest, end;
    indent, end := StripCuts(line);
    a, b, rest := FieldIs(name, Strip(line));
    pad := rest + end;
    BlankPlus(rest, end);
    var t := FieldText(name, a, b, Field(name, Strip(line)).value);
    assert (t + rest) + end == t + pad;
  }

  /** A block begins at a line `[[package]]`, and the package table of a manifest at a line
      `[package]`, with white space around them; every other line that begins with a bracket
      opens another table. */
  lemma HeaderReads(line: string)
    ensures KindOf(line) == Header <==> exists indent, pad :: Laid(line, indent, "[[package]]", pad)
    ensures ManifestLineOf(line) == Table(true) <==> exists indent, pad :: Laid(line, indent, "[package]", pad)
    ensures ManifestLineOf(line).Table? <==> exists indent, rest :: BracketLine(line, indent, rest)
  {
    OneKind(line);
    StripsTo(line, "[[package]]");
    StripsTo(line, "[package]");
    BracketStarts(line);
    if Strip(line) == "[package]" {
      PackageIsBracket(line);
    }
    hide Strip, TrimLeft, Field, KindOf, Laid, BracketLine;
  }

  ghost predicate BracketLine(line: string, indent: string, rest: string) {
    Blank(indent) && line == indent + ("[" + rest)
  }

  lemma BracketStarts(line: string)
    ensures "[" <= TrimLeft(line) <==> exists indent, rest :: BracketLine(line, indent, rest)
  {
    hide TrimLeft;
    if "[" <= TrimLeft(line) {
      var indent := Trimmed(line);
      var rest := TrimLeft(line)[1..];
      assert TrimLeft(line) == "[" + rest;
      assert BracketLine(line, indent, rest);
    }
    if indent, rest :| BracketLine(line, indent, rest) {
      BracketTrims(line, indent, rest);
    }
  }

  lemma BracketTrims(line: string, indent: string, rest: string)
    requires BracketLine(line, indent, rest)
    ensures "[" <= TrimLeft(line)
  {
    hide TrimLeft;
    var t := "[" + rest;
    assert t[0] == '[' && !Space('[');
    TrimIndent(indent, t);
  }

  lemma PackageIsBracket(line: string)
    requires Strip(line) == "[package]"
    ensures "[" <= TrimLeft(line)
  {
    hide Strip, TrimLeft;
    var indent, pad := StripCuts(line);
    var rest := "package]" + pad;
    assert "[package]" + pad == "[" + rest;
    BracketTrims(line, indent, rest);
  }

  lemma StripsTo(line: string, body: string)
    requires Tight(body)
    ensures Strip(line) == body <==> exists indent, pad :: Laid(line, indent, body, pad)
  {
    var indent, pad := StripCuts(line);
    if Strip(line) == body {
      assert Laid(line, indent, body, pad);
    }
    if i, p :| Laid(line, i, body, p) {
      StripLaid(line, i, body, p);
    }
  }
}
