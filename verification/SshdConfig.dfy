/** The rewriter of sshd_config: one multi-line regular-expression replacement for each requested
    directive, modelled as a left-to-right scanner and shown to be a map over the lines. */
module SshdConfig {
  import opened Options
  import opened Sequences
  import opened Text

  // An empty or missing field leaves its directive alone.
  datatype Sshd = Sshd(permitRootLogin: string, passwordAuthentication: Option<bool>)

  const PERMIT := "PermitRootLogin"
  const PASSWORD := "PasswordAuthentication"

  // ---------------------------------------------------------------- the pattern

  predicate Blank(c: char) { c == ' ' || c == '\t' }

  function BlankRun(s: string): (n: nat)
    ensures n <= |s| && (forall k :: 0 <= k < n ==> Blank(s[k])) && (n < |s| ==> !Blank(s[n]))
  {
    if s == "" || !Blank(s[0]) then 0 else 1 + BlankRun(s[1..])
  }

  // .*$ runs to the end of the line.
  function LineRun(s: string): (n: nat)
    ensures n <= |s| && (forall k :: 0 <= k < n ==> s[k] != '\n') && (n < |s| ==> s[n] == '\n')
  {
    if s == "" || s[0] == '\n' then 0 else 1 + LineRun(s[1..])
  }

  /** Length of the match of  #?[ \t]*directive[ \t]+.*$  at the head of s, 0 for none. */
  function MatchLength(dir: string, s: string): (n: nat)
    ensures n <= |s|
  {
    var i := if s != "" && s[0] == '#' then 1 else 0;
    var j := i + BlankRun(s[i..]);
    if !(dir <= s[j..]) then 0
    else
      var k := j + |dir|;
      var b := BlankRun(s[k..]);
      if b == 0 then 0 else k + b + LineRun(s[k + b..])
  }

  /** Leftmost, non-overlapping replacement; a match can only begin where a line does. */
  function ReplaceAll(dir: string, rep: string, s: string, lineStart: bool): string
    decreases |s|
  {
    if s == "" then ""
    else if lineStart && MatchLength(dir, s) > 0 then rep + ReplaceAll(dir, rep, s[MatchLength(dir, s)..], false)
    else [s[0]] + ReplaceAll(dir, rep, s[1..], s[0] == '\n')
  }

  predicate Finds(dir: string, s: string, lineStart: bool) {
    s != "" && ((lineStart && MatchLength(dir, s) > 0) || Finds(dir, s[1..], s[0] == '\n'))
  }

  function ReplaceDirective(s: string, dir: string, value: string): string {
    if Finds(dir, s, true) then
      ReplaceAll(dir, dir + " " + value, if "\n" <= s then s else "\n" + s, true)
    else
      (if s != "" && s[|s| - 1] == '\n' then s else s + "\n") + dir + " " + value + "\n"
  }

  function RewriteSSHDConfig(text: string, s: Option<Sshd>): string
    requires s.Some? ==> Plain(s.value.permitRootLogin)
  {
    if s.None? then text
    else
      var out := if s.value.permitRootLogin != "" then ReplaceDirective(text, PERMIT, s.value.permitRootLogin) else text;
      match s.value.passwordAuthentication
      case None => out
      case Some(allowed) => ReplaceDirective(out, PASSWORD, if allowed then "yes" else "no")
  }

  // ---------------------------------------------------------------- lines that name a directive

  // A value with no newline and nothing the replacement would expand.
  predicate Plain(value: string) { '\n' !in value && '$' !in value }

  // A directive's name: letters, so nothing the rest of the pattern could take up.
  predicate Directive(dir: string) {
    dir != "" && forall k :: 0 <= k < |dir| ==> !Blank(dir[k]) && dir[k] != '#' && dir[k] != '\n'
  }

  /** The line is an optional #, blanks from index i to j, the directive, and at least one blank. */
  ghost predicate NamesAt(dir: string, line: string, i: nat, j: nat) {
    && i <= 1 && i <= j && j + |dir| < |line|
    && (i == 1 ==> line[0] == '#')
    && (forall k :: i <= k < j ==> line[k] == ' ' || line[k] == '\t')
    && line[j..j + |dir|] == dir && (line[j + |dir|] == ' ' || line[j + |dir|] == '\t')
  }

  ghost predicate Names(dir: string, line: string) { exists i: nat, j: nat :: NamesAt(dir, line, i, j) }

  ghost predicate AnyNames(dir: string, lines: seq<string>) { exists l :: l in lines && Names(dir, l) }

  function Reading(dir: string, value: string): string { dir + " " + value }

  lemma RequestedAreDirectives()
    ensures Directive(PERMIT) && Directive(PASSWORD)
    ensures Plain("yes") && Plain("no")
  {
  }

  lemma {:induction false} BlankRunEnds(s: string, n: nat)
    requires n <= |s| && (forall k :: 0 <= k < n ==> Blank(s[k])) && (n < |s| ==> !Blank(s[n]))
    ensures BlankRun(s) == n
  {
    if n > 0 {
      BlankRunEnds(s[1..], n - 1);
    }
  }

  lemma {:induction false} LineRunOf(line: string, t: string)
    requires '\n' !in line && (t == "" || t[0] == '\n')
    ensures LineRun(line + t) == |line|
  {
    if line == "" {
      AppendEmpty(t);
    } else {
      HeadTail(line, t);
      LineRunOf(line[1..], t);
      assert line[0] in line;
    }
  }

  lemma {:induction false} LineRunSkip(s: string, n: nat)
    requires n <= LineRun(s)
    ensures n + LineRun(s[n..]) == LineRun(s)
  {
    if n == 0 {
      assert s[0..] == s;
    } else {
      LineRunSkip(s[1..], n - 1);
      assert s[1..][n - 1..] == s[n..];
    }
  }

  lemma {:induction false} BlanksStayOnLine(s: string)
    ensures BlankRun(s) <= LineRun(s)
  {
    if s != "" && Blank(s[0]) {
      BlanksStayOnLine(s[1..]);
    }
  }

  /** At the head of a text, the scanner matches exactly the first line, if that names the directive. */
  lemma MatchIsLine(dir: string, line: string, t: string)
    requires Directive(dir) && '\n' !in line && (t == "" || t[0] == '\n')
    ensures MatchLength(dir, line + t) == if Names(dir, line) then |line| else 0
  {
    if Names(dir, line) {
      var i: nat, j: nat :| NamesAt(dir, line, i, j);
      NamedIsMatched(dir, line, t, i, j);
    }
    if MatchLength(dir, line + t) > 0 {
      MatchedIsNamed(dir, line, t);
    }
  }

  lemma MatchedIsNamed(dir: string, line: string, t: string)
    requires Directive(dir) && '\n' !in line && (t == "" || t[0] == '\n') && MatchLength(dir, line + t) > 0
    ensures Names(dir, line)
  {
    var s := line + t;
    var i: nat, j: nat := MatchedAt(dir, s);
    hide MatchLength, Directive;
    var k := j + |dir|;
    assert forall x :: 0 <= x < |line| ==> s[x] == line[x];
    assert t != "" ==> s[|line|] == '\n';
    assert k < |line|;
    assert line[j..k] == s[j..k];
    assert NamesAt(dir, line, i, j);
  }

  /** What the scanner has seen when it matches: the parts of the pattern, and no newline so far. */
  lemma MatchedAt(dir: string, s: string) returns (i: nat, j: nat)
    requires Directive(dir) && MatchLength(dir, s) > 0
    ensures NamesAt(dir, s, i, j) && forall x :: 0 <= x <= j + |dir| ==> s[x] != '\n'
  {
    i := if s[0] == '#' then 1 else 0;
    j := i + BlankRun(s[i..]);
    hide BlankRun, LineRun;
    var k := j + |dir|;
    assert dir == s[j..][..|dir|];
    SliceAt(s, j, |dir|);
    assert s[k..][0] == s[k];
    assert Blank(s[k]);
    forall x | i <= x < j ensures Blank(s[x]) {
      assert s[x] == s[i..][x - i];
    }
    forall x | j <= x < k ensures s[x] != '\n' {
      assert s[x] == s[j..k][x - j];
    }
  }

  lemma NamedIsMatched(dir: string, line: string, t: string, i: nat, j: nat)
    requires Directive(dir) && '\n' !in line && (t == "" || t[0] == '\n') && NamesAt(dir, line, i, j)
    ensures MatchLength(dir, line + t) == |line|
  {
    hide MatchLength, NamesAt, Directive, BlankRun, LineRun;
    NamedHead(dir, line, t, i, j);
    MatchRunsOn(dir, line + t, i, j);
    LineRunOf(line, t);
    BlanksRunOn(line + t, j + |dir|);
  }

  lemma MatchRunsOn(dir: string, s: string, i: nat, j: nat)
    requires i == (if s != "" && s[0] == '#' then 1 else 0) && j == i + BlankRun(s[i..])
    requires dir <= s[j..] && BlankRun(s[j + |dir|..]) > 0
    ensures var k := j + |dir|; var b := BlankRun(s[k..]); MatchLength(dir, s) == k + b + LineRun(s[k + b..])
  {
    hide BlankRun, LineRun;
  }

  lemma BlanksRunOn(s: string, k: nat)
    requires k <= LineRun(s)
    ensures var b := BlankRun(s[k..]); k + b + LineRun(s[k + b..]) == LineRun(s)
  {
    hide BlankRun, LineRun;
    LineRunSkip(s, k);
    BlanksStayOnLine(s[k..]);
    LineRunSkip(s, k + BlankRun(s[k..]));
  }

  /** The scanner reaches the directive where the line has it, and finds a blank behind it. */
  lemma NamedHead(dir: string, line: string, t: string, i: nat, j: nat)
    requires Directive(dir) && NamesAt(dir, line, i, j)
    ensures j + |dir| < |line|
    ensures var s := line + t;
      && i == (if s[0] == '#' then 1 else 0) && j == i + BlankRun(s[i..]) && dir <= s[j..] && BlankRun(s[j + |dir|..]) > 0
  {
    var s, k := line + t, j + |dir|;
    assert forall x :: 0 <= x < |line| ==> s[x] == line[x];
    assert s[j] == line[j] == line[j..k][0] == dir[0];
    var u := s[i..];
    assert forall x :: 0 <= x < j - i ==> u[x] == line[i + x];
    assert u[j - i] == dir[0];
    BlankRunEnds(u, j - i);
    assert s[j..k] == line[j..k];
    SliceAt(s, j, |dir|);
    assert s[k..][0] == s[k] == line[k];
  }

  // ---------------------------------------------------------------- the scan is a map over lines

  ghost function NewLine(dir: string, rep: string, line: string): string {
    if Names(dir, line) then rep else line
  }

  ghost function NewLines(dir: string, rep: string, lines: seq<string>): seq<string> {
    seq(|lines|, i requires 0 <= i < |lines| => NewLine(dir, rep, lines[i]))
  }

  /** Inside a line the scan copies. */
  lemma {:induction false} ScanCopies(dir: string, rep: string, x: string, t: string)
    requires '\n' !in x
    ensures ReplaceAll(dir, rep, x + t, false) == x + ReplaceAll(dir, rep, t, false)
    ensures Finds(dir, x + t, false) == Finds(dir, t, false)
  {
    if x == "" {
      AppendEmpty(t);
      AppendEmpty(ReplaceAll(dir, rep, t, false));
    } else {
      ScanCopies(dir, rep, x[1..], t);
      HeadTail(x, t);
      HeadTail(x, ReplaceAll(dir, rep, t, false));
      assert x[0] in x;
      hide MatchLength;
    }
  }

  /** A line with the scan at its start, in front of a newline or the end. */
  lemma ScanLine(dir: string, rep: string, line: string, t: string)
    requires Directive(dir) && '\n' !in line && (t == "" || t[0] == '\n')
    ensures ReplaceAll(dir, rep, line + t, true) == NewLine(dir, rep, line) + ReplaceAll(dir, rep, t, false)
    ensures Finds(dir, line + t, true) <==> Names(dir, line) || Finds(dir, t, false)
  {
    MatchIsLine(dir, line, t);
    hide MatchLength;
    if Names(dir, line) {
      DropAppend(line, t);
    } else if line == "" {
      AppendEmpty(t);
      AppendEmpty(ReplaceAll(dir, rep, t, false));
    } else {
      ScanCopies(dir, rep, line[1..], t);
      HeadTail(line, t);
      HeadTail(line, ReplaceAll(dir, rep, t, false));
      assert line[0] in line;
    }
  }

  lemma ScanNewline(dir: string, rep: string, t: string)
    ensures ReplaceAll(dir, rep, "\n" + t, false) == "\n" + ReplaceAll(dir, rep, t, true)
    ensures Finds(dir, "\n" + t, false) == Finds(dir, t, true)
  {
    assert ("\n" + t)[1..] == t;
  }

  lemma {:induction false} ScanLines(dir: string, rep: string, lines: seq<string>)
    requires Directive(dir) && lines != [] && forall i :: 0 <= i < |lines| ==> '\n' !in lines[i]
    ensures ReplaceAll(dir, rep, Join(lines, "\n"), true) == Join(NewLines(dir, rep, lines), "\n")
    ensures Finds(dir, Join(lines, "\n"), true) <==> AnyNames(dir, lines)
  {
    hide MatchLength, Names, ReplaceAll, Finds;
    if |lines| == 1 {
      AppendEmpty(lines[0]);
      AppendEmpty(NewLine(dir, rep, lines[0]));
      ScanLine(dir, rep, lines[0], "");
      NothingToScan(dir, rep);
    } else {
      var rest := lines[1..];
      ScanLines(dir, rep, rest);
      var t := Join(rest, "\n");
      ScanLine(dir, rep, lines[0], "\n" + t);
      ScanNewline(dir, rep, t);
      assert NewLines(dir, rep, lines)[1..] == NewLines(dir, rep, rest);
      Assoc(lines[0], "\n", t);
      Assoc(NewLine(dir, rep, lines[0]), "\n", Join(NewLines(dir, rep, rest), "\n"));
      AnyNamesCons(dir, lines);
    }
  }

  lemma AnyNamesCons(dir: string, lines: seq<string>)
    requires lines != []
    ensures AnyNames(dir, lines) <==> Names(dir, lines[0]) || AnyNames(dir, lines[1..])
  {
    assert forall l :: l in lines <==> l == lines[0] || l in lines[1..];
  }

  lemma NothingToScan(dir: string, rep: string)
    ensures ReplaceAll(dir, rep, "", false) == "" && !Finds(dir, "", false)
  {
  }

  /** The whole-text replacement is a line-by-line map, and it finds a match exactly when some
      line names the directive. */
  lemma ScanIsLineMap(dir: string, rep: string, s: string)
    requires Directive(dir)
    ensures ReplaceAll(dir, rep, s, true) == Join(NewLines(dir, rep, Split(s, '\n')), "\n")
    ensures Finds(dir, s, true) <==> AnyNames(dir, Split(s, '\n'))
  {
    JoinSplit(s, '\n');
    ScanLines(dir, rep, Split(s, '\n'));
  }

  // ---------------------------------------------------------------- one directive, line by line

  // The text begins, or ends, with a newline.
  predicate BlankFirst(lines: seq<string>) { |lines| > 1 && lines[0] == "" }
  predicate BlankLast(lines: seq<string>) { |lines| > 1 && lines[|lines| - 1] == "" }

  /** Every line naming the directive is rewritten; failing that, one is added at the end. */
  ghost function Rewritten(dir: string, rep: string, lines: seq<string>): seq<string>
    requires lines != []
  {
    if AnyNames(dir, lines) then NewLines(dir, rep, if BlankFirst(lines) then lines else [""] + lines)
    else (if BlankLast(lines) then lines[..|lines| - 1] else lines) + [rep, ""]
  }

  lemma FirstLineBlank(s: string)
    ensures "\n" <= s <==> BlankFirst(Split(s, '\n'))
  {
    if s != "" && s[0] == '\n' {
      assert s[..1] == "\n";
    }
  }

  lemma LastLineBlank(s: string)
    ensures s != "" && s[|s| - 1] == '\n' <==> BlankLast(Split(s, '\n'))
  {
    if s != "" {
      LastPartEmpty(s, '\n');
      if |Split(s, '\n')| == 1 {
        JoinSplit(s, '\n');
      }
    }
  }

  lemma AddedLine(s: string, rep: string)
    requires '\n' !in rep
    ensures var lines := Split(s, '\n');
      Split((if BlankLast(lines) then s else s + "\n") + (rep + "\n"), '\n')
      == (if BlankLast(lines) then lines[..|lines| - 1] else lines) + [rep, ""]
  {
    SplitOne(rep, '\n');
    SplitAppend(rep, "", '\n');
    AppendEmpty(rep + ['\n']);
    assert [rep] + [""] == [rep, ""];
    hide Split;
    if BlankLast(Split(s, '\n')) {
      SplitGlue(s, rep + "\n", '\n');
    } else {
      SplitAppend(s, rep + "\n", '\n');
    }
  }

  lemma ScannedLines(dir: string, rep: string, s: string)
    requires Directive(dir) && '\n' !in rep
    ensures Split(ReplaceAll(dir, rep, s, true), '\n') == NewLines(dir, rep, Split(s, '\n'))
  {
    ScanIsLineMap(dir, rep, s);
    SplitJoin(NewLines(dir, rep, Split(s, '\n')), '\n');
  }

  /** Replacing a directive, line by line. */
  lemma ReplaceDirectiveLines(s: string, dir: string, value: string)
    requires Directive(dir) && Plain(value)
    ensures Split(ReplaceDirective(s, dir, value), '\n') == Rewritten(dir, Reading(dir, value), Split(s, '\n'))
  {
    var rep, lines := Reading(dir, value), Split(s, '\n');
    ScanIsLineMap(dir, rep, s);
    ReadingIsOneLine(dir, value);
    hide Split, ReplaceAll, Finds, MatchLength, Names, NewLines, Directive, Plain;
    if AnyNames(dir, lines) {
      FirstLineBlank(s);
      SplitCons('\n', s, '\n');
      ScannedLines(dir, rep, if "\n" <= s then s else "\n" + s);
    } else {
      LastLineBlank(s);
      AddedLine(s, rep);
      var start := if BlankLast(lines) then s else s + "\n";
      Assoc(start, dir, " ");
      Assoc(start, dir + " ", value);
      Assoc(start, rep, "\n");
    }
  }

  lemma ReadingIsOneLine(dir: string, value: string)
    requires Directive(dir) && Plain(value)
    ensures '\n' !in Reading(dir, value)
  {
  }

  // ---------------------------------------------------------------- what it keeps

  lemma ReadingNames(dir: string, value: string)
    requires dir != ""
    ensures Names(dir, Reading(dir, value))
  {
    assert Reading(dir, value)[..|dir|] == dir;
    assert NamesAt(dir, Reading(dir, value), 0, 0);
  }

  /** A line names at most one directive. */
  lemma NamesOne(a: string, b: string, line: string)
    requires Directive(a) && Directive(b) && Names(a, line) && Names(b, line)
    ensures a == b
  {
    var i: nat, j: nat :| NamesAt(a, line, i, j);
    var m: nat, n: nat :| NamesAt(b, line, m, n);
    assert line[j] == line[j..j + |a|][0] == a[0];
    assert line[n] == line[n..n + |b|][0] == b[0];
    assert j == n;
    NameIsLongest(a, b, line, j);
    NameIsLongest(b, a, line, j);
  }

  lemma NameIsLongest(a: string, b: string, line: string, j: nat)
    requires Directive(b) && j + |a| < |line| && Blank(line[j + |a|])
    requires j + |b| < |line| && line[j..j + |b|] == b
    ensures |b| <= |a|
  {
    forall k | j <= k < j + |b| ensures !Blank(line[k]) {
      assert line[k] == line[j..j + |b|][k - j];
    }
  }

  ghost function Filter(lines: seq<string>, keep: string -> bool): seq<string> {
    if lines == [] then []
    else Filter(lines[..|lines| - 1], keep) + (if keep(lines[|lines| - 1]) then [lines[|lines| - 1]] else [])
  }

  lemma {:induction false} FilterAppend(a: seq<string>, b: seq<string>, keep: string -> bool)
    ensures Filter(a + b, keep) == Filter(a, keep) + Filter(b, keep)
  {
    if b == [] {
      AppendEmpty(a);
      AppendEmpty(Filter(a, keep));
    } else {
      FilterAppend(a, b[..|b| - 1], keep);
      AppendInit(a, b);
      var x := b[|b| - 1];
      Assoc(Filter(a, keep), Filter(b[..|b| - 1], keep), if keep(x) then [x] else []);
    }
  }

  lemma {:induction false} FilterHas(lines: seq<string>, keep: string -> bool, l: string)
    ensures l in Filter(lines, keep) <==> l in lines && keep(l)
  {
    if lines != [] {
      FilterHas(lines[..|lines| - 1], keep, l);
      TakeSnoc(lines);
    }
  }

  /** Kept lines do not name the directive and are not blank or the new line itself. */
  ghost predicate Untouched(dir: string, rep: string, keep: string -> bool) {
    !keep("") && !keep(rep) && forall l :: keep(l) ==> !Names(dir, l)
  }

  lemma {:induction false} NewLinesKeep(dir: string, rep: string, lines: seq<string>, keep: string -> bool)
    requires Untouched(dir, rep, keep)
    ensures Filter(NewLines(dir, rep, lines), keep) == Filter(lines, keep)
  {
    if lines != [] {
      NewLinesKeep(dir, rep, lines[..|lines| - 1], keep);
      hide Names;
      assert NewLines(dir, rep, lines)[..|lines| - 1] == NewLines(dir, rep, lines[..|lines| - 1]);
    }
  }

  lemma BlankIsDropped(lines: seq<string>, keep: string -> bool)
    requires !keep("")
    ensures Filter([""] + lines, keep) == Filter(lines, keep)
    ensures Filter(lines + [""], keep) == Filter(lines, keep)
  {
    FilterAppend([""], lines, keep);
    FilterAppend(lines, [""], keep);
    assert Filter([""], keep) == [] by { assert [""][..0] == []; }
    AppendEmpty(Filter(lines, keep));
  }

  /** Other lines survive in order. */
  lemma RewrittenKeeps(dir: string, rep: string, lines: seq<string>, keep: string -> bool)
    requires lines != [] && Untouched(dir, rep, keep)
    ensures Filter(Rewritten(dir, rep, lines), keep) == Filter(lines, keep)
  {
    BlankIsDropped(lines, keep);
    if AnyNames(dir, lines) {
      NewLinesKeep(dir, rep, if BlankFirst(lines) then lines else [""] + lines, keep);
    } else {
      var front := if BlankLast(lines) then lines[..|lines| - 1] else lines;
      if BlankLast(lines) {
        TakeSnoc(lines);
        BlankIsDropped(front, keep);
      }
      FilterAppend(front, [rep, ""], keep);
      NoneKept(rep, keep);
      AppendEmpty(Filter(front, keep));
    }
  }

  lemma NoneKept(rep: string, keep: string -> bool)
    requires !keep("") && !keep(rep)
    ensures Filter([rep, ""], keep) == []
  {
    assert [rep, ""][..1] == [rep] && [rep][..0] == [];
    assert Filter([rep], keep) == [];
  }

  /** Every line naming the directive reads exactly so, and there is one. */
  ghost predicate Exact(dir: string, rep: string, lines: seq<string>) {
    rep in lines && forall l :: l in lines && Names(dir, l) ==> l == rep
  }

  lemma BlankNamesNothing(dir: string)
    ensures !Names(dir, "")
  {
  }

  lemma RewrittenIsExact(dir: string, rep: string, lines: seq<string>)
    requires lines != []
    ensures Exact(dir, rep, Rewritten(dir, rep, lines))
  {
    BlankNamesNothing(dir);
    hide Names;
    var out := Rewritten(dir, rep, lines);
    if AnyNames(dir, lines) {
      var all := if BlankFirst(lines) then lines else [""] + lines;
      var l :| l in lines && Names(dir, l);
      assert l in all;
      var i :| 0 <= i < |all| && all[i] == l;
      assert out[i] == rep;
    } else {
      var front := if BlankLast(lines) then lines[..|lines| - 1] else lines;
      assert forall l :: l in front ==> l in lines;
      assert out[|front|] == rep;
    }
  }

  // ---------------------------------------------------------------- both directives

  function PasswordValue(allowed: bool): string { if allowed then "yes" else "no" }

  ghost predicate Requests(s: Sshd, dir: string, value: string) {
    || (dir == "PermitRootLogin" && value == s.permitRootLogin && value != "")
    || (dir == "PasswordAuthentication" && match s.passwordAuthentication
                                          case None => false
                                          case Some(allowed) => value == if allowed then "yes" else "no")
  }

  ghost predicate Requested(s: Sshd, l: string) {
    exists dir, value :: Requests(s, dir, value) && Names(dir, l)
  }

  ghost function Survivors(s: Sshd, text: string): seq<string> {
    Filter(Split(text, '\n'), l => l != "" && !Requested(s, l))
  }

  ghost function NamingLines(dir: string, text: string): seq<string> {
    Filter(Split(text, '\n'), l => Names(dir, l))
  }

  lemma SurvivorsKept(s: Sshd, text: string, dir: string, value: string)
    requires Requests(s, dir, value) && Plain(value)
    ensures Survivors(s, ReplaceDirective(text, dir, value)) == Survivors(s, text)
  {
    RequestedAreDirectives();
    ReadingNames(dir, value);
    ReplaceDirectiveLines(text, dir, value);
    hide ReplaceDirective, Split, Names, Directive, Plain, Reading, Rewritten, Filter;
    var keep := l => l != "" && !Requested(s, l);
    assert Untouched(dir, Reading(dir, value), keep);
    RewrittenKeeps(dir, Reading(dir, value), Split(text, '\n'), keep);
  }

  lemma OtherDirectiveKept(text: string, dir: string, value: string, other: string)
    requires Directive(dir) && Directive(other) && dir != other && Plain(value)
    ensures NamingLines(other, ReplaceDirective(text, dir, value)) == NamingLines(other, text)
  {
    var keep := l => Names(other, l);
    ReadingNames(dir, value);
    BlankNamesNothing(other);
    forall l | Names(other, l) ensures !Names(dir, l) {
      if Names(dir, l) {
        NamesOne(dir, other, l);
      }
    }
    ReplaceDirectiveLines(text, dir, value);
    hide ReplaceDirective, Split, Names, Directive, Plain, Reading, Rewritten, Filter;
    RewrittenKeeps(dir, Reading(dir, value), Split(text, '\n'), keep);
  }

  lemma ReplaceIsExact(text: string, dir: string, value: string)
    requires Directive(dir) && Plain(value)
    ensures Exact(dir, Reading(dir, value), Split(ReplaceDirective(text, dir, value), '\n'))
  {
    ReplaceDirectiveLines(text, dir, value);
    RewrittenIsExact(dir, Reading(dir, value), Split(text, '\n'));
  }

  lemma ExactFromNaming(dir: string, rep: string, a: string, b: string)
    requires NamingLines(dir, a) == NamingLines(dir, b) && Names(dir, rep) && Exact(dir, rep, Split(a, '\n'))
    ensures Exact(dir, rep, Split(b, '\n'))
  {
    hide Names, Split, Filter;
    forall l ensures l in Split(b, '\n') && Names(dir, l) <==> l in Split(a, '\n') && Names(dir, l) {
      FilterHas(Split(a, '\n'), l => Names(dir, l), l);
      FilterHas(Split(b, '\n'), l => Names(dir, l), l);
    }
  }

  /** After the rewrite every line naming a requested directive, commented or not, reads exactly
      "directive value", there is at least one, and all other non-blank lines survive in order. */
  lemma RewriteIsExact(text: string, s: Sshd)
    requires Plain(s.permitRootLogin)
    ensures var out := RewriteSSHDConfig(text, Some(s));
      && (forall dir, value :: Requests(s, dir, value) ==> Exact(dir, Reading(dir, value), Split(out, '\n')))
      && Survivors(s, out) == Survivors(s, text)
  {
    RequestedAreDirectives();
    var out, root := text, s.permitRootLogin;
    hide Exact, Split, ReplaceDirective, Reading, Names, Directive, Plain, NamingLines, Survivors;
    if root != "" {
      out := ReplaceDirective(text, PERMIT, root);
      ReplaceIsExact(text, PERMIT, root);
      SurvivorsKept(s, text, PERMIT, root);
    }
    if s.passwordAuthentication.Some? {
      var value := PasswordValue(s.passwordAuthentication.value);
      ReplaceIsExact(out, PASSWORD, value);
      SurvivorsKept(s, out, PASSWORD, value);
      if root != "" {
        OtherDirectiveKept(out, PASSWORD, value, PERMIT);
        ReadingNames(PERMIT, root);
        ExactFromNaming(PERMIT, Reading(PERMIT, root), out, ReplaceDirective(out, PASSWORD, value));
      }
    }
  }

  // ---------------------------------------------------------------- running it again

  lemma NothingLeftToRewrite(dir: string, rep: string, lines: seq<string>)
    requires forall l :: l in lines && Names(dir, l) ==> l == rep
    ensures NewLines(dir, rep, lines) == lines
  {
    hide Names;
    forall i | 0 <= i < |lines| ensures NewLine(dir, rep, lines[i]) == lines[i] {
      assert lines[i] in lines;
    }
  }

  function WithLeadingNewline(text: string): string { if "\n" <= text then text else "\n" + text }

  /** On a text that already reads as requested only a leading newline can be added. */
  lemma ReplaceSettles(text: string, dir: string, value: string)
    requires Directive(dir) && Plain(value) && Exact(dir, Reading(dir, value), Split(text, '\n'))
    ensures ReplaceDirective(text, dir, value) == WithLeadingNewline(text)
    ensures Exact(dir, Reading(dir, value), Split(WithLeadingNewline(text), '\n'))
  {
    var rep, full := Reading(dir, value), WithLeadingNewline(text);
    ReadingNames(dir, value);
    BlankNamesNothing(dir);
    ScanIsLineMap(dir, rep, text);
    ScanIsLineMap(dir, rep, full);
    SplitCons('\n', text, '\n');
    JoinSplit(full, '\n');
    hide Names, Split, ReplaceAll, Finds, NewLines, MatchLength, Join;
    assert AnyNames(dir, Split(text, '\n'));
    NothingLeftToRewrite(dir, rep, Split(full, '\n'));
  }

  /** The first run settles the text: a second run adds one newline in front, unless the text
      already begins with one or nothing is requested, and from then on nothing changes. */
  lemma SecondRunSettles(text: string, s: Sshd)
    requires Plain(s.permitRootLogin)
    ensures var once := RewriteSSHDConfig(text, Some(s)); var twice := RewriteSSHDConfig(once, Some(s));
      && twice == (if s.permitRootLogin == "" && s.passwordAuthentication.None? then once else WithLeadingNewline(once))
      && RewriteSSHDConfig(twice, Some(s)) == twice
  {
    var once := RewriteSSHDConfig(text, Some(s));
    RewriteIsExact(text, s);
    RerunSettles(once, s);
    var twice := RewriteSSHDConfig(once, Some(s));
    RewriteIsExact(once, s);
    RerunSettles(twice, s);
    hide RewriteSSHDConfig, Requests, Exact;
    assert "\n" <= WithLeadingNewline(once);
  }

  lemma RerunSettles(text: string, s: Sshd)
    requires Plain(s.permitRootLogin)
    requires forall dir, value :: Requests(s, dir, value) ==> Exact(dir, Reading(dir, value), Split(text, '\n'))
    ensures RewriteSSHDConfig(text, Some(s)) ==
      if s.permitRootLogin == "" && s.passwordAuthentication.None? then text else WithLeadingNewline(text)
  {
    RequestedAreDirectives();
    hide Exact, Split, ReplaceDirective, Reading, Directive, Plain;
    var out := text;
    if s.permitRootLogin != "" {
      ReplaceSettles(text, PERMIT, s.permitRootLogin);
      out := WithLeadingNewline(text);
    }
    if s.passwordAuthentication.Some? {
      var value := PasswordValue(s.passwordAuthentication.value);
      assert Requests(s, PASSWORD, value);
      ReplaceSettles(text, PASSWORD, value);
      ReplaceSettles(out, PASSWORD, value);
    }
  }

  // ---------------------------------------------------------------- the promise in the comment

  /** x is a line that is neither the first nor the last. */
  ghost predicate InnerLine(lines: seq<string>, x: string) { exists i :: 0 < i < |lines| - 1 && lines[i] == x }

  lemma SurroundedIsInner(s: string, x: string, k: nat)
    requires '\n' !in x && k <= |s| && "\n" + x + "\n" <= s[k..]
    ensures InnerLine(Split(s, '\n'), x)
  {
    var y := "\n" + x + "\n";
    var a, b := s[..k], s[k..][|y|..];
    assert s[k..] == y + b;
    Regroup(a, x, b);
    SplitAppend(a, x + ['\n'] + b, '\n');
    SplitAppend(x, b, '\n');
    SplitOne(x, '\n');
    hide Split;
    assert s == a + s[k..];
    InnerOfParts(Split(a, '\n'), x, Split(b, '\n'));
  }

  lemma Regroup(a: string, x: string, b: string)
    ensures a + ("\n" + x + "\n" + b) == a + ['\n'] + (x + ['\n'] + b)
  {
    Assoc(a, ['\n'], x + ['\n'] + b);
    Assoc("\n" + x, "\n", b);
    Assoc("\n", x, "\n" + b);
    Assoc(x, "\n", b);
  }

  lemma InnerOfParts(a: seq<string>, x: string, b: seq<string>)
    requires a != [] && b != []
    ensures InnerLine(a + ([x] + b), x)
  {
    assert (a + ([x] + b))[|a|] == x;
  }

  lemma InnerIsSurrounded(s: string, x: string)
    requires InnerLine(Split(s, '\n'), x)
    ensures Contains(s, "\n" + x + "\n")
  {
    JoinSplit(s, '\n');
    hide Split;
    var lines := Split(s, '\n');
    var i :| 0 < i < |lines| - 1 && lines[i] == x;
    var a, b := lines[..i], lines[i + 1..];
    assert lines == a + ([x] + b);
    JoinAppend(a, [x] + b, "\n");
    JoinAppend([x], b, "\n");
    assert Join([x], "\n") == x;
    hide Join;
    var front, x', back := Join(a, "\n"), "\n" + x + "\n", Join(b, "\n");
    assert s == front + (x' + back);
    DropAppend(front, x' + back);
    assert x' <= s[|front|..];
  }

  /** A line with a newline on both sides is a line that is neither first nor last. */
  lemma SurroundedIffInner(s: string, x: string)
    requires '\n' !in x
    ensures Contains(s, "\n" + x + "\n") <==> InnerLine(Split(s, '\n'), x)
  {
    hide InnerLine, Split;
    if Contains(s, "\n" + x + "\n") {
      var k :| 0 <= k <= |s| && "\n" + x + "\n" <= s[k..];
      SurroundedIsInner(s, x, k);
    }
    if InnerLine(Split(s, '\n'), x) {
      InnerIsSurrounded(s, x);
    }
  }

  /** The result is said always to hold "\ndirective value\n". It does exactly when no line named
      the directive (so that one is added) or some line other than the last did: a match on a
      last line without a newline is left without one. */
  lemma SurroundedIff(text: string, dir: string, value: string)
    requires Directive(dir) && Plain(value)
    ensures var lines := Split(text, '\n');
      Contains(ReplaceDirective(text, dir, value), "\n" + Reading(dir, value) + "\n")
      <==> !AnyNames(dir, lines) || AnyNames(dir, lines[..|lines| - 1])
  {
    var lines, rep := Split(text, '\n'), Reading(dir, value);
    ReadingIsOneLine(dir, value);
    ReadingNames(dir, value);
    ReplaceDirectiveLines(text, dir, value);
    hide ReplaceDirective, Split, Directive, Plain, Reading, Names, AnyNames, Contains, InnerLine, Rewritten;
    SurroundedIffInner(ReplaceDirective(text, dir, value), rep);
    InnerRewritten(dir, rep, lines);
  }

  lemma InnerMapped(dir: string, rep: string, lines: seq<string>)
    requires |lines| > 1 && Names(dir, rep)
    ensures InnerLine(NewLines(dir, rep, lines), rep) <==> AnyNames(dir, lines[1..|lines| - 1])
  {
    hide Names;
    var out, inner := NewLines(dir, rep, lines), lines[1..|lines| - 1];
    if InnerLine(out, rep) {
      var i :| 0 < i < |out| - 1 && out[i] == rep;
      assert inner[i - 1] == lines[i] && out[i] == NewLine(dir, rep, lines[i]);
    }
    if AnyNames(dir, inner) {
      var l :| l in inner && Names(dir, l);
      var i :| 0 <= i < |inner| && inner[i] == l;
      assert out[i + 1] == NewLine(dir, rep, lines[i + 1]);
    }
  }

  lemma InnerRewritten(dir: string, rep: string, lines: seq<string>)
    requires lines != [] && Names(dir, rep)
    ensures var out := Rewritten(dir, rep, lines);
      InnerLine(out, rep) <==> !AnyNames(dir, lines) || AnyNames(dir, lines[..|lines| - 1])
  {
    var out, front := Rewritten(dir, rep, lines), lines[..|lines| - 1];
    if AnyNames(dir, lines) {
      if BlankFirst(lines) {
        InnerMapped(dir, rep, lines);
        BlankNamesNothing(dir);
        AnyNamesCons(dir, front);
        assert front[1..] == lines[1..|lines| - 1];
      } else {
        InnerMapped(dir, rep, [""] + lines);
        assert ([""] + lines)[1..|lines|] == front;
      }
      hide Names, AnyNames, NewLines, InnerLine;
    } else {
      assert out[|out| - 2] == rep;
    }
  }

  /** A concrete case: the directive on a last line without a newline. */
  lemma LastLineStaysOpen(before: string, value: string)
    requires Plain(before) && Plain(value)
    ensures !Contains(ReplaceDirective(Reading(PERMIT, before), PERMIT, value), "\n" + Reading(PERMIT, value) + "\n")
  {
    var text := Reading(PERMIT, before);
    RequestedAreDirectives();
    ReadingIsOneLine(PERMIT, before);
    SplitOne(text, '\n');
    ReadingNames(PERMIT, before);
    SurroundedIff(text, PERMIT, value);
    hide Names, Split, Contains, ReplaceDirective, Reading, Plain;
    assert text in [text] && [text][..0] == [];
  }
}
