/** The serial-console rewriter of /etc/default/grub: two regular-expression replacements,
    modelled as left-to-right scanners. */
module GrubDefaults {
  import opened Options
  import opened Sequences
  import opened Text

  datatype Console = Console(tty: string, baud: int)

  const DEFAULT_BAUD := 115200

  // ---------------------------------------------------------------- the two patterns

  // console=ttyS\d+(,\d+)?   and   serial --speed=\d+ --unit=\d+
  datatype Pattern = ConsoleToken | SerialCommand

  const CONSOLE := "console=ttyS"
  const SPEED := "serial --speed="
  const UNIT := " --unit="

  /** Length of the leading digits: \d+ is greedy. */
  function DigitRun(s: string): (n: nat)
    ensures n <= |s| && (forall i :: 0 <= i < n ==> DecimalDigit(s[i])) && (n < |s| ==> !DecimalDigit(s[n]))
  {
    if s == "" || !DecimalDigit(s[0]) then 0 else 1 + DigitRun(s[1..])
  }

  /** Length of the match at the head of s, 0 for none. No match is empty. */
  function Match(p: Pattern, s: string): (n: nat)
    ensures n <= |s|
  {
    match p
    case ConsoleToken =>
      if !(CONSOLE <= s) then 0
      else
        var n := DigitRun(s[12..]);
        if n == 0 then 0
        else
          var k := 12 + n;
          if k < |s| && s[k] == ',' && DigitRun(s[k + 1..]) > 0 then k + 1 + DigitRun(s[k + 1..]) else k
    case SerialCommand =>
      if !(SPEED <= s) then 0
      else
        var n := DigitRun(s[15..]);
        if n == 0 || !(UNIT <= s[15 + n..]) then 0
        else
          var k := 15 + n + 8;
          if DigitRun(s[k..]) == 0 then 0 else k + DigitRun(s[k..])
  }

  /** Leftmost, non-overlapping replacement of every match. */
  function ReplaceAll(p: Pattern, rep: string, s: string): string
    decreases |s|
  {
    if s == "" then ""
    else if Match(p, s) > 0 then rep + ReplaceAll(p, rep, s[Match(p, s)..])
    else [s[0]] + ReplaceAll(p, rep, s[1..])
  }

  /** The text around the matches. */
  function Gaps(p: Pattern, s: string): (gaps: seq<string>)
    ensures gaps != []
    decreases |s|
  {
    if s == "" then [""]
    else if Match(p, s) > 0 then [""] + Gaps(p, s[Match(p, s)..])
    else
      var rest := Gaps(p, s[1..]);
      [[s[0]] + rest[0]] + rest[1..]
  }

  // ---------------------------------------------------------------- the rewriter

  // Printf's %d.
  function PrintInt(n: int): string { if n < 0 then "-" + Print(-n, 10) else Print(n, 10) }

  function TrimPrefix(s: string, prefix: string): string { if prefix <= s then s[|prefix|..] else s }

  // Scanning a number skips whitespace, but not a newline.
  function SkipBlanks(s: string): string {
    if s != "" && IsSpace(s[0]) && s[0] != '\n' then SkipBlanks(s[1..]) else s
  }

  /** The number after ttyS; 0 when there is none or it does not fit an int. */
  function TtyUnit(tty: string): int { ScanInt(SkipBlanks(TrimPrefix(tty, "ttyS"))) }

  function ScanInt(n: string): int {
    var signed := n != "" && (n[0] == '-' || n[0] == '+');
    var t := if signed then n[1..] else n;
    var digits := t[..DigitRun(t)];
    if digits == "" then 0
    else
      assert forall i :: 0 <= i < |digits| ==> DecimalDigit(t[i]) && digits[i] == t[i];
      var v := Value(digits, 10);
      if signed && n[0] == '-' then (if v > MAX_INT + 1 then 0 else 0 - v)
      else if v > MAX_INT then 0
      else v
  }

  function Baud(c: Console): int { if c.baud == 0 then DEFAULT_BAUD else c.baud }

  function Replacement(p: Pattern, c: Console): string {
    match p
    case ConsoleToken => "console=" + c.tty + "," + PrintInt(Baud(c))
    case SerialCommand => "serial --speed=" + PrintInt(Baud(c)) + " --unit=" + PrintInt(TtyUnit(c.tty))
  }

  /** A missing console or an empty TTY leaves the text alone. */
  function RewriteGrubDefaults(text: string, c: Option<Console>): string
    requires c.Some? ==> '$' !in c.value.tty
  {
    if c.None? || c.value.tty == "" then text
    else
      var tokens := ReplaceAll(ConsoleToken, Replacement(ConsoleToken, c.value), text);
      ReplaceAll(SerialCommand, Replacement(SerialCommand, c.value), tokens)
  }

  // ---------------------------------------------------------------- facts about the patterns

  // The first two characters of a match; they occur together nowhere else in one.
  function First(p: Pattern): char { if p.ConsoleToken? then 'c' else 's' }
  function Second(p: Pattern): char { if p.ConsoleToken? then 'o' else 'e' }

  /** No match of p can begin in x, whatever follows x. */
  ghost predicate Inert(p: Pattern, x: string) {
    forall i :: 0 <= i < |x| && x[i] == First(p) ==> i + 1 < |x| && x[i + 1] != Second(p)
  }

  lemma {:induction false} DigitRunOf(d: string, t: string)
    requires forall i :: 0 <= i < |d| ==> DecimalDigit(d[i])
    requires t != "" ==> !DecimalDigit(t[0])
    ensures DigitRun(d + t) == |d|
  {
    if d == "" {
      assert d + t == t;
    } else {
      DigitRunOf(d[1..], t);
      assert (d + t)[1..] == d[1..] + t;
    }
  }

  lemma MatchStarts(p: Pattern, s: string)
    requires Match(p, s) > 0
    ensures |s| > 2 && s[0] == First(p) && s[1] == Second(p)
    ensures DecimalDigit(s[Match(p, s) - 1])
  {
    var n := Match(p, s);
    if p.ConsoleToken? {
      assert s[0] == CONSOLE[0] && s[1] == CONSOLE[1];
    } else {
      assert s[0] == SPEED[0] && s[1] == SPEED[1];
    }
  }

  /** The shortest prefix that already decides that there is a match. */
  ghost function Core(p: Pattern, s: string): (w: string)
    requires Match(p, s) > 0
    ensures w <= s && w != ""
  {
    match p
    case ConsoleToken => s[..13]
    case SerialCommand => s[..15 + DigitRun(s[15..]) + 9]
  }

  lemma SerialCoreChars(s: string)
    requires Match(SerialCommand, s) > 0
    ensures var w, n := Core(SerialCommand, s), DigitRun(s[15..]);
      && n > 0 && |w| == 24 + n && w[..15] == SPEED && w[15 + n..23 + n] == UNIT && DecimalDigit(w[23 + n])
      && forall i :: 15 <= i < 15 + n ==> DecimalDigit(w[i])
  {
    var n := DigitRun(s[15..]);
    assert n > 0;
    assert forall i :: 15 <= i < 15 + n ==> s[i] == s[15..][i - 15];
    assert s[15 + n..][..8] == UNIT;
    assert s[23 + n..][0] == s[23 + n];
  }

  lemma ConsoleCoreDecides(s: string, t: string)
    requires Match(ConsoleToken, s) > 0 && Core(ConsoleToken, s) <= t
    ensures Match(ConsoleToken, t) > 0
  {
    assert s[..13] == t[..13];
    assert t[..12] == s[..12] == CONSOLE;
    assert s[12..][0] == s[12] && t[12..][0] == t[12] == s[12];
  }

  lemma SerialCoreDecides(s: string, t: string)
    requires Match(SerialCommand, s) > 0 && Core(SerialCommand, s) <= t
    ensures Match(SerialCommand, t) > 0
  {
    var w, n := Core(SerialCommand, s), DigitRun(s[15..]);
    SerialCoreChars(s);
    hide Match, Core;
    var d, tail := w[15..15 + n], t[23 + n..];
    ThreeParts(w, 15, 15 + n, 23 + n);
    PrefixAt(w, t, 23 + n);
    assert tail[0] == t[23 + n] == w[23 + n];
    var e, rest := tail[..DigitRun(tail)], tail[DigitRun(tail)..];
    assert forall k :: 0 <= k < |d| ==> d[k] == w[15 + k];
    assert tail == e + rest;
    Assoc(w[..23 + n], e, rest);
    hide DecimalDigit;
    SerialMatchOf(d, e, rest);
  }

  lemma CoreDecides(p: Pattern, s: string, t: string)
    requires Match(p, s) > 0 && Core(p, s) <= t
    ensures Match(p, t) > 0
  {
    match p {
      case ConsoleToken => ConsoleCoreDecides(s, t);
      case SerialCommand => SerialCoreDecides(s, t);
    }
  }

  /** Past its first character, the core of one pattern holds no start of either. */
  lemma CoreIsInert(p: Pattern, q: Pattern, s: string)
    requires Match(p, s) > 0
    ensures Inert(q, Core(p, s)[1..])
  {
    CoreHoldsNoStart(p, s);
    hide Core, Match;
    var w := Core(p, s);
    assert forall k :: 0 <= k < |w[1..]| ==> w[1..][k] == w[k + 1];
  }

  /** Past the first character, "c" does not occur and "s" is not followed by "e". */
  ghost predicate HoldsNoStart(w: string) {
    forall i :: 1 <= i < |w| ==> w[i] != 'c' && (w[i] == 's' ==> i + 1 < |w| && w[i + 1] != 'e')
  }

  lemma ConstantsHoldNoStart()
    ensures |CONSOLE| == 12 && |SPEED| == 15 && |UNIT| == 8
    ensures HoldsNoStart(CONSOLE) && HoldsNoStart(SPEED)
    ensures forall k :: 0 <= k < 8 ==> UNIT[k] != 'c' && UNIT[k] != 's'
  {
  }

  lemma ConsoleHoldsNoStart(w: string)
    requires |w| >= 13 && CONSOLE == w[..12] && forall k :: 12 <= k < |w| ==> DecimalDigit(w[k]) || w[k] == ','
    ensures HoldsNoStart(w)
  {
    ConstantsHoldNoStart();
    var head := w[..12];
    assert forall k :: 0 <= k < 12 ==> w[k] == head[k];
  }

  lemma SerialHoldsNoStart(w: string, n: nat)
    requires |w| >= 24 + n && SPEED == w[..15] && UNIT == w[15 + n..23 + n]
    requires n > 0 && forall k :: 15 <= k < |w| && !(15 + n <= k < 23 + n) ==> DecimalDigit(w[k])
    ensures HoldsNoStart(w)
  {
    ConstantsHoldNoStart();
    var head, unit := w[..15], w[15 + n..23 + n];
    assert forall k :: 0 <= k < 15 ==> w[k] == head[k];
    assert forall k :: 15 + n <= k < 23 + n ==> w[k] == unit[k - 15 - n];
  }

  lemma CoreHoldsNoStart(p: Pattern, s: string)
    requires Match(p, s) > 0
    ensures HoldsNoStart(Core(p, s))
  {
    var w := Core(p, s);
    match p {
      case ConsoleToken =>
        assert CONSOLE == w[..12];
        assert DecimalDigit(w[12]) by { assert s[12..][0] == s[12]; }
        ConsoleHoldsNoStart(w);
      case SerialCommand =>
        SerialCoreChars(s);
        SerialHoldsNoStart(w, DigitRun(s[15..]));
    }
  }

  // ---------------------------------------------------------------- text around a match

  predicate DigitFirst(t: string) { t != "" && DecimalDigit(t[0]) }
  predicate CommaDigit(t: string) { |t| > 1 && t[0] == ',' && DecimalDigit(t[1]) }

  lemma MatchIsGreedy(p: Pattern, s: string)
    requires Match(p, s) > 0
    ensures !DigitFirst(s[Match(p, s)..])
  {
  }

  lemma ConsoleMatchOf(d: string, t: string)
    requires d != "" && (forall i :: 0 <= i < |d| ==> DecimalDigit(d[i])) && !DigitFirst(t)
    ensures Match(ConsoleToken, CONSOLE + d + t) == 12 + |d| + (if CommaDigit(t) then 1 + DigitRun(t[1..]) else 0)
  {
    var s := CONSOLE + d + t;
    assert s[12..] == d + t;
    DigitRunOf(d, t);
    assert s[12 + |d|..] == t;
    if t != "" {
      assert s[12 + |d|] == t[0] && s[12 + |d| + 1..] == t[1..];
    }
  }

  lemma SerialMatchOf(d: string, e: string, t: string)
    requires d != "" && (forall i :: 0 <= i < |d| ==> DecimalDigit(d[i]))
    requires e != "" && (forall i :: 0 <= i < |e| ==> DecimalDigit(e[i])) && !DigitFirst(t)
    ensures Match(SerialCommand, SPEED + d + UNIT + e + t) == 23 + |d| + |e|
  {
    var s := SPEED + d + UNIT + e + t;
    assert s[15..] == d + (UNIT + e + t);
    DigitRunOf(d, UNIT + e + t);
    assert s[15 + |d|..] == UNIT + e + t;
    assert s[23 + |d|..] == e + t;
    DigitRunOf(e, t);
  }

  /** The parts of a match. */
  lemma ConsoleParts(s: string) returns (d: string, comma: string)
    requires Match(ConsoleToken, s) > 0
    ensures d != "" && forall i :: 0 <= i < |d| ==> DecimalDigit(d[i])
    ensures comma == "" || (CommaDigit(comma) && DigitRun(comma[1..]) == |comma| - 1)
    ensures s[..Match(ConsoleToken, s)] == CONSOLE + d + comma
    ensures comma == "" ==> !CommaDigit(s[Match(ConsoleToken, s)..])
  {
    var n, m := DigitRun(s[12..]), Match(ConsoleToken, s);
    d, comma := s[12..12 + n], s[12 + n..m];
    assert CONSOLE == s[..12];
    ThreeParts(s, 12, 12 + n, m);
    CommaPart(s, 12 + n);
    hide DigitRun;
    forall i | 0 <= i < n ensures DecimalDigit(d[i]) {
      assert d[i] == s[12..][i];
    }
  }

  /** The optional part after index k of a token: a comma and a digit run, or no such pair. */
  lemma CommaPart(s: string, k: nat)
    requires k <= |s|
    ensures if k < |s| && s[k] == ',' && DigitRun(s[k + 1..]) > 0 then
        var comma := s[k..k + 1 + DigitRun(s[k + 1..])];
        CommaDigit(comma) && DigitRun(comma[1..]) == |comma| - 1
      else !CommaDigit(s[k..])
  {
    if k < |s| {
      var tail := s[k + 1..];
      var run := tail[..DigitRun(tail)];
      DigitRunOf(run, "");
      AppendEmpty(run);
      assert s[k..k + 1 + |run|][1..] == run;
    }
  }

  lemma SerialParts(s: string) returns (d: string, e: string)
    requires Match(SerialCommand, s) > 0
    ensures d != "" && forall i :: 0 <= i < |d| ==> DecimalDigit(d[i])
    ensures e != "" && forall i :: 0 <= i < |e| ==> DecimalDigit(e[i])
    ensures s[..Match(SerialCommand, s)] == SPEED + d + UNIT + e
  {
    var n, m := DigitRun(s[15..]), Match(SerialCommand, s);
    ThreeParts(s, 15, 15 + n, 23 + n);
    ThreeParts(s, 0, 23 + n, m);
    AppendEmpty(s[..23 + n]);
    d, e := s[15..15 + n], s[23 + n..m];
    assert |SPEED| == 15 && |UNIT| == 8;
    assert SPEED == s[..15] && UNIT == s[15 + n..][..8];
    SliceAt(s, 15 + n, 8);
    forall i | 0 <= i < n ensures DecimalDigit(d[i]) {
      assert d[i] == s[15..][i];
    }
    forall i | 0 <= i < |e| ensures DecimalDigit(e[i]) {
      assert e[i] == s[23 + n..][i];
    }
  }

  /** A match stays the same match when what follows it changes harmlessly. */
  lemma MatchInContext(p: Pattern, s: string, t: string)
    requires Match(p, s) > 0 && !DigitFirst(t)
    requires CommaDigit(t) ==> CommaDigit(s[Match(p, s)..])
    ensures Match(p, s[..Match(p, s)] + t) == Match(p, s)
  {
    hide Match, DigitRun;
    if p.ConsoleToken? {
      var d, comma := ConsoleParts(s);
      assert CONSOLE + d + comma + t == CONSOLE + d + (comma + t);
      ConsoleMatchOf(d, comma + t);
      if comma != "" {
        assert (comma + t)[1..] == comma[1..] + t;
        DigitRunPrefix(comma[1..]);
        DigitRunOf(comma[1..], t);
      } else {
        assert comma + t == t;
      }
    } else {
      var d, e := SerialParts(s);
      SerialMatchOf(d, e, t);
    }
  }

  lemma DigitRunPrefix(d: string)
    requires DigitRun(d) == |d|
    ensures forall i :: 0 <= i < |d| ==> DecimalDigit(d[i])
  {
  }

  // ---------------------------------------------------------------- what the patterns mean

  ghost predicate Digitful(d: string) { d != "" && forall i :: 0 <= i < |d| ==> '0' <= d[i] <= '9' }

  // console=ttyS, digits, and perhaps a comma and more digits
  ghost predicate TokenOf(w: string, d: string, more: string) {
    w == "console=ttyS" + d + more && Digitful(d) && (more == "" || (more[0] == ',' && Digitful(more[1..])))
  }

  // serial --speed=, digits, --unit=, digits
  ghost predicate CommandOf(w: string, d: string, e: string) {
    w == "serial --speed=" + d + " --unit=" + e && Digitful(d) && Digitful(e)
  }

  /** The word belongs to the pattern's language. */
  ghost predicate Generates(p: Pattern, w: string) {
    match p
    case ConsoleToken => exists d, more :: TokenOf(w, d, more)
    case SerialCommand => exists d, e :: CommandOf(w, d, e)
  }

  lemma {:induction false} DigitRunAtLeast(d: string, t: string)
    requires forall i :: 0 <= i < |d| ==> DecimalDigit(d[i])
    ensures DigitRun(d + t) >= |d|
  {
    if d != "" {
      HeadTail(d, t);
      DigitRunAtLeast(d[1..], t);
    }
  }

  /** Digits taken up as far as they go. */
  lemma TakeUpDigits(d: string, t: string) returns (e: string, rest: string)
    requires d != "" && forall i :: 0 <= i < |d| ==> DecimalDigit(d[i])
    ensures d + t == e + rest && |d| <= |e| && (forall i :: 0 <= i < |e| ==> DecimalDigit(e[i])) && !DigitFirst(rest)
  {
    var n := DigitRun(t);
    e, rest := d + t[..n], t[n..];
    Assoc(d, t[..n], rest);
    assert t == t[..n] + rest;
    hide DecimalDigit;
  }

  lemma ConsoleIsLongest(s: string, n: nat, d: string, more: string)
    requires n <= |s| && TokenOf(s[..n], d, more)
    ensures n <= Match(ConsoleToken, s)
  {
    hide Match, DigitRun;
    var t := s[n..];
    assert s == CONSOLE + d + more + t && |CONSOLE| == 12 by { PrefixAt(s, s, n); }
    Assoc(CONSOLE + d, more, t);
    if more == "" {
      var e, rest := TakeUpDigits(d, t);
      Assoc(CONSOLE, d, t);
      Assoc(CONSOLE, e, rest);
      ConsoleMatchOf(e, rest);
    } else {
      HeadTail(more, t);
      DigitRunAtLeast(more[1..], t);
      assert CommaDigit(more + t);
      ConsoleMatchOf(d, more + t);
    }
  }

  lemma SerialIsLongest(s: string, n: nat, d: string, e: string)
    requires n <= |s| && CommandOf(s[..n], d, e)
    ensures n <= Match(SerialCommand, s)
  {
    hide Match, DigitRun;
    var t := s[n..];
    PrefixAt(s, s, n);
    var f, rest := TakeUpDigits(e, t);
    Assoc(SPEED + d + UNIT, e, t);
    Assoc(SPEED + d + UNIT, f, rest);
    SerialMatchOf(d, f, rest);
  }

  /** The scanner's match is a word of the pattern, and the longest one at the head of the text. */
  lemma MatchIsLongest(p: Pattern, s: string, n: nat)
    requires n <= |s|
    ensures Match(p, s) > 0 ==> Generates(p, s[..Match(p, s)])
    ensures Generates(p, s[..n]) ==> 0 < n <= Match(p, s)
  {
    hide Match, DigitRun;
    match p {
      case ConsoleToken =>
        if Match(p, s) > 0 {
          var d, comma := ConsoleParts(s);
          DigitRunPrefix(if comma == "" then "" else comma[1..]);
          assert TokenOf(s[..Match(p, s)], d, comma);
        }
        if d, more :| TokenOf(s[..n], d, more) {
          ConsoleIsLongest(s, n, d, more);
        }
      case SerialCommand =>
        if Match(p, s) > 0 {
          var d, e := SerialParts(s);
          assert CommandOf(s[..Match(p, s)], d, e);
        }
        if d, e :| CommandOf(s[..n], d, e) {
          SerialIsLongest(s, n, d, e);
        }
    }
  }

  // ---------------------------------------------------------------- valid replacements

  /** A replacement that is itself one whole match, with its optional part spelled out. */
  ghost predicate ValidRep(p: Pattern, rep: string) {
    && Match(p, rep) == |rep| > 0
    && (forall t :: !DigitFirst(t) ==> Match(p, rep + t) == |rep|)
    && Inert(ConsoleToken, rep[1..]) && Inert(SerialCommand, rep[1..])
  }

  /** A replacement that begins as a match does and in which the other pattern cannot begin. */
  ghost predicate WordLike(p: Pattern, rep: string) {
    |rep| > 1 && rep[0] == First(p) && rep[1] == Second(p) && Inert(Other(p), rep)
  }

  lemma ValidIsWordLike(p: Pattern, rep: string)
    requires ValidRep(p, rep)
    ensures WordLike(p, rep)
  {
    MatchStarts(p, rep);
    MatchIsInertForOther(p, rep);
    assert rep[..|rep|] == rep;
    hide Match, Inert;
  }

  /** A TTY ttyS<number> and a baud rate that is not negative. */
  ghost predicate GoodConsole(c: Console) {
    && "ttyS" <= c.tty && |c.tty| > 4 && (forall i :: 4 <= i < |c.tty| ==> DecimalDigit(c.tty[i]))
    && c.baud >= 0
  }

  lemma PrintedDigits(n: nat)
    ensures var d := Print(n, 10); d != "" && forall i :: 0 <= i < |d| ==> DecimalDigit(d[i])
  {
    var d := Print(n, 10);
    forall i | 0 <= i < |d| ensures DecimalDigit(d[i]) {
      assert IsDigit(d[i], 10);
    }
  }

  /** Neither pattern can begin inside x. */
  ghost predicate InertForBoth(x: string) {
    forall i :: 0 <= i < |x| ==> x[i] != 'c' && (x[i] == 's' ==> i + 1 < |x| && x[i + 1] != 'e')
  }

  lemma ConsoleRepIsInert(d: string, e: string)
    requires (forall i :: 0 <= i < |d| ==> DecimalDigit(d[i])) && (forall i :: 0 <= i < |e| ==> DecimalDigit(e[i]))
    ensures InertForBoth((CONSOLE + d + ("," + e))[1..])
  {
    var rep := CONSOLE + d + ("," + e);
    forall i | 0 <= i < |rep| - 1
      ensures rep[1..][i] != 'c' && (rep[1..][i] == 's' ==> i + 1 < |rep| - 1 && rep[1..][i + 1] != 'e')
    {
      assert i + 1 < 12 ==> rep[i + 1] == CONSOLE[i + 1];
      assert i + 2 < 12 ==> rep[i + 2] == CONSOLE[i + 2];
    }
  }

  lemma SerialRepIsInert(d: string, e: string)
    requires (forall i :: 0 <= i < |d| ==> DecimalDigit(d[i])) && (forall i :: 0 <= i < |e| ==> DecimalDigit(e[i]))
    ensures InertForBoth((SPEED + d + UNIT + e)[1..])
  {
    var rep := SPEED + d + UNIT + e;
    forall i | 0 <= i < |rep| - 1
      ensures rep[1..][i] != 'c' && (rep[1..][i] == 's' ==> i + 1 < |rep| - 1 && rep[1..][i + 1] != 'e')
    {
      assert i + 1 < 15 ==> rep[i + 1] == SPEED[i + 1];
      assert i + 2 < 15 ==> rep[i + 2] == SPEED[i + 2];
      assert 15 + |d| <= i + 1 < 23 + |d| ==> rep[i + 1] == UNIT[i + 1 - 15 - |d|];
    }
  }

  lemma ConsoleRepIsValid(d: string, e: string)
    requires d != "" && forall i :: 0 <= i < |d| ==> DecimalDigit(d[i])
    requires e != "" && forall i :: 0 <= i < |e| ==> DecimalDigit(e[i])
    ensures ValidRep(ConsoleToken, CONSOLE + d + ("," + e))
  {
    hide Match, DigitRun;
    var rep := CONSOLE + d + ("," + e);
    forall t | !DigitFirst(t) ensures Match(ConsoleToken, rep + t) == |rep| {
      var tail := "," + e + t;
      assert rep + t == CONSOLE + d + tail;
      ConsoleMatchOf(d, tail);
      assert tail[1..] == e + t;
      DigitRunOf(e, t);
    }
    assert rep + "" == rep;
    assert Match(ConsoleToken, rep + "") == |rep|;
    ConsoleRepIsInert(d, e);
  }

  lemma SerialRepIsValid(d: string, e: string)
    requires d != "" && forall i :: 0 <= i < |d| ==> DecimalDigit(d[i])
    requires e != "" && forall i :: 0 <= i < |e| ==> DecimalDigit(e[i])
    ensures ValidRep(SerialCommand, SPEED + d + UNIT + e)
  {
    hide Match, DigitRun;
    var rep := SPEED + d + UNIT + e;
    forall t | !DigitFirst(t) ensures Match(SerialCommand, rep + t) == |rep| {
      SerialMatchOf(d, e, t);
    }
    assert rep + "" == rep;
    assert Match(SerialCommand, rep + "") == |rep|;
    SerialRepIsInert(d, e);
  }

  lemma ConsoleOfTty(tty: string)
    requires "ttyS" <= tty
    ensures "console=" + tty == CONSOLE + tty[4..]
  {
    Assoc("console=", "ttyS", tty[4..]);
    assert "console=" + "ttyS" == CONSOLE;
    assert "ttyS" + tty[4..] == tty;
  }

  lemma ReplacementIsValid(p: Pattern, c: Console)
    requires GoodConsole(c)
    ensures ValidRep(p, Replacement(p, c))
  {
    hide ValidRep;
    var d := c.tty[4..];
    PrintedDigits(Baud(c));
    if p.ConsoleToken? {
      ConsoleRepIsValid(d, Print(Baud(c), 10));
      ConsoleOfTty(c.tty);
      Assoc(CONSOLE + d, ",", Print(Baud(c), 10));
    } else {
      assert TtyUnit(c.tty) >= 0;
      PrintedDigits(TtyUnit(c.tty));
      SerialRepIsValid(Print(Baud(c), 10), Print(TtyUnit(c.tty), 10));
    }
  }

  // ---------------------------------------------------------------- what a replacement keeps

  lemma ReplaceHead(p: Pattern, rep: string, s: string)
    requires s != ""
    ensures Match(p, s) > 0 ==> ReplaceAll(p, rep, s) == rep + ReplaceAll(p, rep, s[Match(p, s)..])
    ensures Match(p, s) == 0 ==> ReplaceAll(p, rep, s) == [s[0]] + ReplaceAll(p, rep, s[1..])
  {
  }

  lemma FirstKept(p: Pattern, rep: string, s: string)
    requires WordLike(p, rep)
    ensures s == "" <==> ReplaceAll(p, rep, s) == ""
    ensures s != "" ==> ReplaceAll(p, rep, s)[0] == s[0]
  {
    if s != "" {
      ReplaceHead(p, rep, s);
      if Match(p, s) > 0 {
        MatchStarts(p, s);
      }
      hide Match, ReplaceAll;
    }
  }

  /** The first character, and whether a comma-digit pair leads, survive a replacement. */
  lemma HeadKept(p: Pattern, rep: string, s: string)
    requires WordLike(p, rep)
    ensures (s == "" <==> ReplaceAll(p, rep, s) == "") && (s != "" ==> ReplaceAll(p, rep, s)[0] == s[0])
    ensures DigitFirst(ReplaceAll(p, rep, s)) <==> DigitFirst(s)
    ensures CommaDigit(ReplaceAll(p, rep, s)) <==> CommaDigit(s)
  {
    FirstKept(p, rep, s);
    if s != "" && s[0] == ',' {
      if Match(p, s) > 0 {
        MatchStarts(p, s);
      }
      ReplaceHead(p, rep, s);
      FirstKept(p, rep, s[1..]);
      hide Match, ReplaceAll;
    }
  }

  lemma TokenIsNotInert(q: Pattern, rep: string, tail: string, w: string)
    requires WordLike(q, rep) && w != ""
    ensures w <= rep + tail ==> !Inert(q, w)
  {
    if w <= rep + tail {
      assert w[0] == (rep + tail)[0] == First(q);
      assert |w| > 1 ==> w[1] == (rep + tail)[1] == Second(q);
    }
  }

  /** A stretch of output in which no replacement can begin was there before. */
  lemma {:induction false} PrefixSurvives(q: Pattern, rep: string, s: string, w: string)
    requires WordLike(q, rep) && w <= ReplaceAll(q, rep, s) && Inert(q, w)
    ensures w <= s
    decreases |s|
  {
    if w != "" && s != "" {
      ReplaceHead(q, rep, s);
      TokenIsNotInert(q, rep, ReplaceAll(q, rep, s[Match(q, s)..]), w);
      if Match(q, s) == 0 {
        var out := ReplaceAll(q, rep, s[1..]);
        assert ([s[0]] + out)[1..] == out && w[1..] <= out;
        forall i | 0 <= i < |w[1..]| && w[1..][i] == First(q) ensures i + 1 < |w[1..]| && w[1..][i + 1] != Second(q) {
          assert w[i + 1] == First(q);
        }
        PrefixSurvives(q, rep, s[1..], w[1..]);
      }
    }
  }

  /** Where p did not match, it does not match after either pattern is replaced further on. */
  lemma NoNewMatch(p: Pattern, q: Pattern, rep: string, s: string)
    requires s != "" && Match(p, s) == 0 && WordLike(q, rep)
    ensures Match(p, [s[0]] + ReplaceAll(q, rep, s[1..])) == 0
  {
    hide Match, DigitRun, Core, ReplaceAll, Inert, WordLike;
    var out := [s[0]] + ReplaceAll(q, rep, s[1..]);
    if Match(p, out) > 0 {
      var w := Core(p, out);
      CoreIsInert(p, q, out);
      DropAppend([s[0]], ReplaceAll(q, rep, s[1..]));
      assert w[1..] <= out[1..];
      PrefixSurvives(q, rep, s[1..], w[1..]);
      assert w[0] == s[0];
      HeadTail(w, "");
      HeadTail(s, "");
      CoreDecides(p, out, s);
    }
  }

  /** Replacing leaves the text around the tokens exactly as it was. */
  lemma {:induction false} GapsKept(p: Pattern, rep: string, s: string)
    requires ValidRep(p, rep)
    ensures Gaps(p, ReplaceAll(p, rep, s)) == Gaps(p, s)
    decreases |s|
  {
    ValidIsWordLike(p, rep);
    hide Match, DigitRun;
    if s != "" {
      var m := Match(p, s);
      if m > 0 {
        GapsKept(p, rep, s[m..]);
        MatchIsGreedy(p, s);
        HeadKept(p, rep, s[m..]);
        var tail := ReplaceAll(p, rep, s[m..]);
        assert Match(p, rep + tail) == |rep|;
        assert (rep + tail)[|rep|..] == tail;
      } else {
        GapsKept(p, rep, s[1..]);
        NoNewMatch(p, p, rep, s);
        var tail := ReplaceAll(p, rep, s[1..]);
        assert ([s[0]] + tail)[1..] == tail;
      }
    }
  }

  /** The output is the old gaps with the replacement between them. */
  lemma {:induction false} ReplaceIsJoin(p: Pattern, rep: string, s: string)
    ensures ReplaceAll(p, rep, s) == Join(Gaps(p, s), rep)
    decreases |s|
  {
    if s != "" {
      ReplaceHead(p, rep, s);
      if Match(p, s) > 0 {
        ReplaceIsJoin(p, rep, s[Match(p, s)..]);
        JoinCons("", Gaps(p, s[Match(p, s)..]), rep);
        AppendEmpty(rep);
      } else {
        ReplaceIsJoin(p, rep, s[1..]);
        JoinInFirst(s[0], Gaps(p, s[1..]), rep);
      }
      hide Match, ReplaceAll, Join;
    }
  }

  lemma JoinInFirst(c: char, parts: seq<string>, sep: string)
    requires parts != []
    ensures Join([[c] + parts[0]] + parts[1..], sep) == [c] + Join(parts, sep)
  {
    assert ([[c] + parts[0]] + parts[1..])[1..] == parts[1..];
  }

  lemma LastReplacementWins(p: Pattern, first: string, second: string, s: string)
    requires ValidRep(p, first)
    ensures ReplaceAll(p, second, ReplaceAll(p, first, s)) == ReplaceAll(p, second, s)
  {
    GapsKept(p, first, s);
    ReplaceIsJoin(p, second, ReplaceAll(p, first, s));
    ReplaceIsJoin(p, second, s);
  }

  lemma InertSkipped(p: Pattern, x: string, t: string)
    requires x != "" && Inert(p, x)
    ensures Match(p, x + t) == 0
  {
    if Match(p, x + t) > 0 {
      MatchStarts(p, x + t);
    }
  }

  lemma {:induction false} SkipInert(p: Pattern, rep: string, x: string, t: string)
    requires Inert(p, x)
    ensures ReplaceAll(p, rep, x + t) == x + ReplaceAll(p, rep, t)
  {
    hide Match;
    if x == "" {
      assert x + t == t;
    } else {
      InertSkipped(p, x, t);
      ReplaceHead(p, rep, x + t);
      InertTail(p, x);
      hide ReplaceAll, Inert;
      SkipInert(p, rep, x[1..], t);
      HeadTail(x, t);
      HeadTail(x, ReplaceAll(p, rep, t));
    }
  }

  lemma InertTail(p: Pattern, x: string)
    requires x != "" && Inert(p, x)
    ensures Inert(p, x[1..])
  {
    forall i | 0 <= i < |x[1..]| && x[1..][i] == First(p) ensures i + 1 < |x[1..]| && x[1..][i + 1] != Second(p) {
      assert x[i + 1] == First(p);
    }
  }

  // ---------------------------------------------------------------- every token, everywhere

  /** Wherever the pattern occurs in the text, the occurrence reads rep. */
  ghost predicate EveryMatchReads(p: Pattern, rep: string, s: string) {
    forall i :: 0 <= i < |s| && Match(p, s[i..]) > 0 ==> s[i..i + Match(p, s[i..])] == rep
  }

  lemma InertAt(p: Pattern, x: string, t: string, i: nat)
    requires i < |x|
    ensures Match(p, (x + t)[i..]) > 0 ==> !Inert(p, x)
  {
    if Match(p, (x + t)[i..]) > 0 {
      MatchStarts(p, (x + t)[i..]);
      assert (x + t)[i..][0] == x[i];
      assert i + 1 < |x| ==> (x + t)[i..][1] == x[i + 1];
    }
  }

  /** Reading survives putting an inert stretch, or one token, in front. */
  lemma ReadsBehind(p: Pattern, rep: string, head: string, tail: string)
    requires EveryMatchReads(p, rep, tail) && head != "" && Inert(p, head[1..])
    requires Match(p, head + tail) > 0 ==> Match(p, head + tail) == |head| && head == rep
    ensures EveryMatchReads(p, rep, head + tail)
  {
    hide Match, Inert;
    var out := head + tail;
    forall i | 0 <= i < |out| && Match(p, out[i..]) > 0 ensures out[i..i + Match(p, out[i..])] == rep {
      if i == 0 {
        assert out[0..] == out;
        assert out[..|head|] == head;
      } else if i < |head| {
        InertAt(p, head[1..], tail, i - 1);
        DropInside(head, tail, i);
      } else {
        var k := i - |head|;
        DropBehind(head, tail, k, 0);
        DropBehind(head, tail, k, Match(p, tail[k..]));
        assert tail[k..k + Match(p, tail[k..])] == rep;
      }
    }
  }

  lemma DropInside(head: string, tail: string, i: nat)
    requires 0 < i < |head|
    ensures (head + tail)[i..] == (head[1..] + tail)[i - 1..]
  {
  }

  lemma DropBehind(head: string, tail: string, k: nat, n: nat)
    requires k + n <= |tail|
    ensures (head + tail)[|head| + k..] == tail[k..]
    ensures (head + tail)[|head| + k..|head| + k + n] == tail[k..k + n]
  {
  }

  /** After a replacement every occurrence, at any position at all, is the requested token. */
  lemma {:induction false} EveryMatchReplaced(p: Pattern, rep: string, s: string)
    requires ValidRep(p, rep)
    ensures EveryMatchReads(p, rep, ReplaceAll(p, rep, s))
    decreases |s|
  {
    ValidIsWordLike(p, rep);
    if s != "" {
      hide Match, DigitRun, EveryMatchReads;
      var m := Match(p, s);
      ReplaceHead(p, rep, s);
      if m > 0 {
        var tail := ReplaceAll(p, rep, s[m..]);
        EveryMatchReplaced(p, rep, s[m..]);
        MatchIsGreedy(p, s);
        HeadKept(p, rep, s[m..]);
        assert Match(p, rep + tail) == |rep|;
        ReadsBehind(p, rep, rep, tail);
      } else {
        EveryMatchReplaced(p, rep, s[1..]);
        NoNewMatch(p, p, rep, s);
        assert Inert(p, [s[0]][1..]);
        ReadsBehind(p, rep, [s[0]], ReplaceAll(p, rep, s[1..]));
      }
    }
  }

  // ---------------------------------------------------------------- the two scans commute

  function Other(p: Pattern): Pattern { if p.ConsoleToken? then SerialCommand else ConsoleToken }

  /** Both replacements in one left-to-right scan. */
  function ReplaceBoth(a: string, b: string, s: string): string
    decreases |s|
  {
    if s == "" then ""
    else if Match(ConsoleToken, s) > 0 then a + ReplaceBoth(a, b, s[Match(ConsoleToken, s)..])
    else if Match(SerialCommand, s) > 0 then b + ReplaceBoth(a, b, s[Match(SerialCommand, s)..])
    else [s[0]] + ReplaceBoth(a, b, s[1..])
  }

  function RepOf(p: Pattern, a: string, b: string): string { if p.ConsoleToken? then a else b }

  /** No match of the other pattern begins inside a match. */
  lemma MatchIsInertForOther(p: Pattern, s: string)
    requires Match(p, s) > 0
    ensures Inert(Other(p), s[..Match(p, s)])
  {
    hide Match, DigitRun;
    var x := s[..Match(p, s)];
    if p.ConsoleToken? {
      var d, comma := ConsoleParts(s);
      assert forall k :: 0 <= k < 12 ==> x[k] == CONSOLE[k];
      assert forall k :: 12 <= k < 12 + |d| ==> x[k] == d[k - 12];
      DigitRunPrefix(if comma == "" then "" else comma[1..]);
      forall k | 12 + |d| <= k < |x| ensures x[k] == ',' || DecimalDigit(x[k]) {
        assert x[k] == comma[k - 12 - |d|];
        assert k > 12 + |d| ==> x[k] == comma[1..][k - 13 - |d|];
      }
      forall i | 0 <= i < |x| && x[i] == 's' ensures i + 1 < |x| && x[i + 1] != 'e' {
      }
    } else {
      var d, e := SerialParts(s);
      forall i | 0 <= i < |x| ensures x[i] != 'c' {
        assert i < 15 ==> x[i] == SPEED[i];
        assert 15 <= i < 15 + |d| ==> x[i] == d[i - 15];
        assert 15 + |d| <= i < 23 + |d| ==> x[i] == UNIT[i - 15 - |d|];
        assert 23 + |d| <= i ==> x[i] == e[i - 23 - |d|];
      }
    }
  }

  lemma NotBoth(s: string)
    ensures Match(ConsoleToken, s) == 0 || Match(SerialCommand, s) == 0
  {
    if Match(ConsoleToken, s) > 0 {
      MatchStarts(ConsoleToken, s);
      if Match(SerialCommand, s) > 0 {
        MatchStarts(SerialCommand, s);
      }
    }
  }

  lemma {:induction false} EitherOrderIsBoth(p: Pattern, a: string, b: string, s: string)
    requires WordLike(ConsoleToken, a) && WordLike(SerialCommand, b)
    ensures var q := Other(p);
      ReplaceAll(p, RepOf(p, a, b), ReplaceAll(q, RepOf(q, a, b), s)) == ReplaceBoth(a, b, s)
    decreases |s|
  {
    hide Match, DigitRun;
    var q := Other(p);
    var rp, rq := RepOf(p, a, b), RepOf(q, a, b);
    NotBoth(s);
    if s == "" {
    } else if Match(p, s) > 0 {
      var m := Match(p, s);
      EitherOrderIsBoth(p, a, b, s[m..]);
      var tail := ReplaceAll(q, rq, s[m..]);
      MatchIsInertForOther(p, s);
      SkipInert(q, rq, s[..m], s[m..]);
      PrefixAt(s, s, m);
      HeadKept(q, rq, s[m..]);
      MatchIsGreedy(p, s);
      MatchInContext(p, s, tail);
      ReplaceHead(p, rp, s[..m] + tail);
      DropAppend(s[..m], tail);
    } else if Match(q, s) > 0 {
      var m := Match(q, s);
      EitherOrderIsBoth(p, a, b, s[m..]);
      SkipInert(p, rp, rq, ReplaceAll(q, rq, s[m..]));
    } else {
      EitherOrderIsBoth(p, a, b, s[1..]);
      NoNewMatch(p, q, rq, s);
      var tail := ReplaceAll(q, rq, s[1..]);
      ReplaceHead(p, rp, [s[0]] + tail);
      DropAppend([s[0]], tail);
    }
  }

  /** The order of the two replacements does not matter. */
  lemma ScansCommute(a: string, b: string, s: string)
    requires WordLike(ConsoleToken, a) && WordLike(SerialCommand, b)
    ensures ReplaceAll(SerialCommand, b, ReplaceAll(ConsoleToken, a, s))
         == ReplaceAll(ConsoleToken, a, ReplaceAll(SerialCommand, b, s))
  {
    EitherOrderIsBoth(SerialCommand, a, b, s);
    EitherOrderIsBoth(ConsoleToken, a, b, s);
  }

  // ---------------------------------------------------------------- the rewriter

  lemma NoDollar(c: Console)
    requires GoodConsole(c)
    ensures '$' !in c.tty
  {
    assert forall i :: 0 <= i < |c.tty| && i < 4 ==> c.tty[i] == "ttyS"[i];
  }

  lemma RewriteIsTwoScans(text: string, c: Console)
    requires GoodConsole(c)
    ensures '$' !in c.tty
    ensures RewriteGrubDefaults(text, Some(c)) ==
      ReplaceAll(SerialCommand, Replacement(SerialCommand, c),
                 ReplaceAll(ConsoleToken, Replacement(ConsoleToken, c), text))
    ensures ValidRep(ConsoleToken, Replacement(ConsoleToken, c)) && ValidRep(SerialCommand, Replacement(SerialCommand, c))
  {
    NoDollar(c);
    hide Match, ReplaceAll, Replacement, ValidRep;
    ReplacementIsValid(ConsoleToken, c);
    ReplacementIsValid(SerialCommand, c);
  }

  /** A console whose TTY, written into the text, begins no serial command and expands nothing; any
      baud rate. */
  ghost predicate PlainConsole(c: Console) {
    c.tty != "" && '$' !in c.tty && !Contains(c.tty, "se")
  }

  lemma PlainTty(tty: string, i: nat)
    requires !Contains(tty, "se") && i + 1 < |tty| && tty[i] == 's'
    ensures tty[i + 1] != 'e'
  {
    assert "se" <= tty[i..] <==> tty[i] == 's' && tty[i + 1] == 'e';
  }

  lemma IntHasNoLetters(n: int)
    ensures forall i :: 0 <= i < |PrintInt(n)| ==> DecimalDigit(PrintInt(n)[i]) || PrintInt(n)[i] == '-'
    ensures PrintInt(n) != ""
  {
    PrintedDigits(if n < 0 then -n else n);
  }

  /** The console token written for a plain console begins no serial command. */
  lemma PlainTokenIsWordLike(c: Console)
    requires PlainConsole(c)
    ensures WordLike(ConsoleToken, Replacement(ConsoleToken, c))
  {
    var number := PrintInt(Baud(c));
    IntHasNoLetters(Baud(c));
    var rep, n := Replacement(ConsoleToken, c), |c.tty|;
    hide PrintInt, Baud;
    assert |"console="| == 8 && rep == "console=" + c.tty + "," + number;
    assert forall i :: 0 <= i < 8 ==> rep[i] == "console="[i];
    assert forall i :: 8 <= i < 8 + n ==> rep[i] == c.tty[i - 8];
    assert rep[8 + n] == ',';
    assert forall i :: 9 + n <= i < |rep| ==> rep[i] == number[i - 9 - n];
    forall i | 0 <= i < |rep| && rep[i] == 's' ensures i + 1 < |rep| && rep[i + 1] != 'e' {
      if 8 <= i < 7 + n {
        PlainTty(c.tty, i - 8);
      }
    }
  }

  lemma SerialIsWordLike(c: Console)
    requires GoodConsole(c)
    ensures WordLike(SerialCommand, Replacement(SerialCommand, c))
  {
    ReplacementIsValid(SerialCommand, c);
    ValidIsWordLike(SerialCommand, Replacement(SerialCommand, c));
  }

  /** Last write wins: rewriting for a ttyS console and then for another one is rewriting for the
      other one, which may have any TTY that begins no serial command, and any baud rate. */
  lemma LastConsoleWins(text: string, c1: Console, c2: Console)
    requires GoodConsole(c1) && PlainConsole(c2)
    ensures '$' !in c1.tty
    ensures RewriteGrubDefaults(RewriteGrubDefaults(text, Some(c1)), Some(c2)) == RewriteGrubDefaults(text, Some(c2))
  {
    var a1, b1 := Replacement(ConsoleToken, c1), Replacement(SerialCommand, c1);
    var a2, b2 := Replacement(ConsoleToken, c2), Replacement(SerialCommand, c2);
    RewriteIsTwoScans(text, c1);
    var once := ReplaceAll(ConsoleToken, a1, text);
    PlainTokenIsWordLike(c2);
    SerialIsWordLike(c1);
    hide Replacement, WordLike, ValidRep, ReplaceAll, GoodConsole;
    ScansCommute(a2, b1, once);
    LastReplacementWins(ConsoleToken, a1, a2, text);
    LastReplacementWins(SerialCommand, b1, b2, ReplaceAll(ConsoleToken, a2, text));
  }

  lemma SerialKeepsTokens(rep: string, b: string, s: string)
    requires ValidRep(ConsoleToken, rep) && ValidRep(SerialCommand, b)
    ensures EveryMatchReads(ConsoleToken, rep, ReplaceAll(SerialCommand, b, ReplaceAll(ConsoleToken, rep, s)))
  {
    ValidIsWordLike(ConsoleToken, rep);
    ValidIsWordLike(SerialCommand, b);
    ScansCommute(rep, b, s);
    EveryMatchReplaced(ConsoleToken, rep, ReplaceAll(SerialCommand, b, s));
  }

  /** The number, or 0 when no int holds it. */
  ghost function Held(sign: string, d: string): int
    requires Digits(d, 10)
  {
    var n: int := if sign == "-" then 0 - Value(d, 10) else Value(d, 10);
    if -0x8000_0000_0000_0000 <= n <= 0x7fff_ffff_ffff_ffff then n else 0
  }

  /** The number after ttyS: blanks are skipped, a sign is taken, and digits are read as far as they
      go; a number that no int holds is 0. */
  lemma UnitInGeneral(pad: string, sign: string, d: string, rest: string)
    requires (forall i :: 0 <= i < |pad| ==> IsSpace(pad[i]) && pad[i] != '\n') && sign in {"", "+", "-"}
    requires Digits(d, 10) && !DigitFirst(rest)
    ensures TtyUnit("ttyS" + (pad + (sign + (d + rest)))) == Held(sign, d)
  {
    var number := sign + (d + rest);
    assert IsDigit(d[0], 10) && number[0] == if sign == "" then d[0] else sign[0];
    DropAppend("ttyS", pad + number);
    BlanksSkipped(pad, number);
    ScannedNumber(sign, d, rest);
    hide SkipBlanks, ScanInt, Held;
  }

  lemma {:induction false} BlanksSkipped(pad: string, t: string)
    requires forall i :: 0 <= i < |pad| ==> IsSpace(pad[i]) && pad[i] != '\n'
    requires t == "" || !IsSpace(t[0]) || t[0] == '\n'
    ensures SkipBlanks(pad + t) == t
  {
    if pad == "" {
      AppendEmpty(t);
    } else {
      HeadTail(pad, t);
      BlanksSkipped(pad[1..], t);
    }
  }

  lemma ScannedNumber(sign: string, d: string, rest: string)
    requires sign in {"", "+", "-"} && Digits(d, 10) && !DigitFirst(rest)
    ensures ScanInt(sign + (d + rest)) == Held(sign, d)
  {
    var n := sign + (d + rest);
    assert forall i :: 0 <= i < |d| ==> DecimalDigit(d[i]);
    DigitRunOf(d, rest);
    DropAppend(d, rest);
    hide DigitRun, Value;
    assert IsDigit(d[0], 10);
    if sign == "" {
      AppendEmpty(d + rest);
      assert n[0] == d[0];
    } else {
      DropAppend(sign, d + rest);
      assert |sign| == 1 && n[0] == sign[0];
    }
  }

  /** Where blanks are not followed by digits, with a sign or none in front, the unit is 0. */
  lemma NoNumberIsZero(pad: string, other: string)
    requires forall i :: 0 <= i < |pad| ==> IsSpace(pad[i]) && pad[i] != '\n'
    requires other == "" || !IsSpace(other[0]) || other[0] == '\n'
    requires var t := if other != "" && other[0] in {'-', '+'} then other[1..] else other; !DigitFirst(t)
    ensures TtyUnit("ttyS" + (pad + other)) == 0
    ensures !("ttyS" <= pad + other) ==> TtyUnit(pad + other) == 0
  {
    DropAppend("ttyS", pad + other);
    BlanksSkipped(pad, other);
    assert ScanInt(other) == 0;
    hide SkipBlanks, ScanInt;
  }

  /** The unit of ttyS followed by digits is their number, or 0 when no int holds it; for digits as
      printed it is the number that was printed. */
  lemma UnitIsTheNumber(d: string, n: nat)
    requires Digits(d, 10)
    ensures TtyUnit("ttyS" + d) == if Value(d, 10) <= MAX_INT then Value(d, 10) else 0
    ensures n <= MAX_INT ==> TtyUnit("ttyS" + Print(n, 10)) == n
  {
    UnitOfDigits(d);
    UnitOfDigits(Print(n, 10));
    ValueOfPrint(n, 10);
    hide TtyUnit, Value, Print;
  }

  lemma UnitOfDigits(d: string)
    requires Digits(d, 10)
    ensures TtyUnit("ttyS" + d) == if Value(d, 10) <= MAX_INT then Value(d, 10) else 0
  {
    UnitInGeneral("", "", d, "");
    AppendEmpty(d);
    hide TtyUnit, Value;
  }

  /** A text is its characters outside all tokens and commands, and the words of those. */
  datatype Piece = Plain(c: char) | Word(p: Pattern, word: string)

  function Pieces(s: string): seq<Piece>
    decreases |s|
  {
    if s == "" then []
    else if Match(ConsoleToken, s) > 0 then
      [Word(ConsoleToken, s[..Match(ConsoleToken, s)])] + Pieces(s[Match(ConsoleToken, s)..])
    else if Match(SerialCommand, s) > 0 then
      [Word(SerialCommand, s[..Match(SerialCommand, s)])] + Pieces(s[Match(SerialCommand, s)..])
    else [Plain(s[0])] + Pieces(s[1..])
  }

  function TextOf(x: Piece): string {
    match x
    case Plain(c) => [c]
    case Word(_, word) => word
  }

  function Glue(pieces: seq<Piece>): string {
    if pieces == [] then "" else TextOf(pieces[0]) + Glue(pieces[1..])
  }

  lemma GlueCons(x: Piece, pieces: seq<Piece>)
    ensures Glue([x] + pieces) == TextOf(x) + Glue(pieces)
  {
    assert ([x] + pieces)[1..] == pieces;
  }

  lemma PiecesHead(s: string)
    requires s != ""
    ensures var p := if Match(ConsoleToken, s) > 0 then ConsoleToken else SerialCommand; var m := Match(p, s);
      Pieces(s) == if m > 0 then [Word(p, s[..m])] + Pieces(s[m..]) else [Plain(s[0])] + Pieces(s[1..])
  {
  }

  /** The pieces put together are the text. */
  lemma {:induction false} PiecesAreTheText(s: string)
    ensures Glue(Pieces(s)) == s
    decreases |s|
  {
    if s != "" {
      PiecesHead(s);
      hide Match, Glue, Pieces;
      var p := if Match(ConsoleToken, s) > 0 then ConsoleToken else SerialCommand;
      var m := Match(p, s);
      if m > 0 {
        PiecesAreTheText(s[m..]);
        GlueCons(Word(p, s[..m]), Pieces(s[m..]));
        PrefixAt(s, s, m);
      } else {
        PiecesAreTheText(s[1..]);
        GlueCons(Plain(s[0]), Pieces(s[1..]));
        HeadTail(s, "");
      }
    } else {
      assert Glue([]) == "";
    }
  }

  /** The same pieces with every console token reading a and every serial command reading b. */
  function Reworded(pieces: seq<Piece>, a: string, b: string): seq<Piece> {
    seq(|pieces|, i requires 0 <= i < |pieces| =>
      match pieces[i]
      case Plain(c) => Plain(c)
      case Word(p, _) => Word(p, RepOf(p, a, b)))
  }

  lemma RewordedCons(x: Piece, pieces: seq<Piece>, a: string, b: string)
    ensures Reworded([x] + pieces, a, b) == Reworded([x], a, b) + Reworded(pieces, a, b)
  {
  }

  /** What a replacement keeps of the text it is put in front of, for both at once. */
  lemma BothHeadKept(a: string, b: string, s: string)
    requires WordLike(ConsoleToken, a) && WordLike(SerialCommand, b)
    ensures DigitFirst(ReplaceBoth(a, b, s)) <==> DigitFirst(s)
  {
    EitherOrderIsBoth(ConsoleToken, a, b, s);
    hide ReplaceAll, ReplaceBoth, WordLike;
    HeadKept(SerialCommand, b, s);
    HeadKept(ConsoleToken, a, ReplaceAll(SerialCommand, b, s));
  }

  lemma NoNewMatchOfEither(p: Pattern, a: string, b: string, s: string)
    requires WordLike(ConsoleToken, a) && WordLike(SerialCommand, b) && s != "" && Match(p, s) == 0
    ensures Match(p, [s[0]] + ReplaceBoth(a, b, s[1..])) == 0
  {
    EitherOrderIsBoth(ConsoleToken, a, b, s[1..]);
    hide ReplaceAll, ReplaceBoth, WordLike, Match;
    NoNewMatch(p, SerialCommand, b, s);
    var mid := [s[0]] + ReplaceAll(SerialCommand, b, s[1..]);
    assert mid[1..] == ReplaceAll(SerialCommand, b, s[1..]);
    NoNewMatch(p, ConsoleToken, a, mid);
  }

  lemma PiecesOfWord(p: Pattern, rep: string, t: string)
    requires ValidRep(p, rep) && !DigitFirst(t)
    ensures Pieces(rep + t) == [Word(p, rep)] + Pieces(t)
  {
    ValidIsWordLike(p, rep);
    InertSkipped(Other(p), rep, t);
    DropAppend(rep, t);
    assert Match(p, rep + t) == |rep|;
    hide Match;
  }

  lemma PiecesOfPlain(c: char, t: string)
    requires Match(ConsoleToken, [c] + t) == 0 && Match(SerialCommand, [c] + t) == 0
    ensures Pieces([c] + t) == [Plain(c)] + Pieces(t)
  {
    hide Match;
    assert ([c] + t)[1..] == t;
  }

  /** The rewritten text has the pieces of the text, reworded. */
  lemma {:induction false} OnlyWordsChange(a: string, b: string, s: string)
    requires ValidRep(ConsoleToken, a) && ValidRep(SerialCommand, b)
    ensures Pieces(ReplaceBoth(a, b, s)) == Reworded(Pieces(s), a, b)
    decreases |s|
  {
    ValidIsWordLike(ConsoleToken, a);
    ValidIsWordLike(SerialCommand, b);
    hide Match, ValidRep, WordLike, Reworded;
    if s == "" {
      assert Reworded([], a, b) == [] by { NothingReworded(a, b); }
    } else {
      var p := if Match(ConsoleToken, s) > 0 then ConsoleToken else SerialCommand;
      var m := Match(p, s);
      if m > 0 {
        OnlyWordsChange(a, b, s[m..]);
        MatchIsGreedy(p, s);
        BothHeadKept(a, b, s[m..]);
        PiecesOfWord(p, RepOf(p, a, b), ReplaceBoth(a, b, s[m..]));
        RewordedCons(Word(p, s[..m]), Pieces(s[m..]), a, b);
        RewordedWord(p, s[..m], a, b);
      } else {
        OnlyWordsChange(a, b, s[1..]);
        NoNewMatchOfEither(ConsoleToken, a, b, s);
        NoNewMatchOfEither(SerialCommand, a, b, s);
        PiecesOfPlain(s[0], ReplaceBoth(a, b, s[1..]));
        RewordedCons(Plain(s[0]), Pieces(s[1..]), a, b);
        RewordedPlain(s[0], a, b);
      }
    }
  }

  lemma NothingReworded(a: string, b: string)
    ensures Reworded([], a, b) == []
  {
  }

  lemma RewordedWord(p: Pattern, word: string, a: string, b: string)
    ensures Reworded([Word(p, word)], a, b) == [Word(p, RepOf(p, a, b))]
  {
  }

  lemma RewordedPlain(c: char, a: string, b: string)
    ensures Reworded([Plain(c)], a, b) == [Plain(c)]
  {
  }

  /** The word names the console's TTY and its baud rate, which is 115200 when none is given. */
  ghost predicate CarriesConsole(w: string, c: Console)
    requires c.baud >= 0
  {
    exists f :: w == "console=" + c.tty + "," + f && Spells(f, if c.baud == 0 then 115200 else c.baud, 10)
  }

  /** The word gives the baud rate as speed and the number of the TTY's digits as unit, or 0 when no
      int holds that. */
  ghost predicate CarriesSerial(w: string, c: Console)
    requires GoodConsole(c)
  {
    TtyDigits(c);
    var n := Value(c.tty[4..], 10);
    exists d, e :: w == "serial --speed=" + d + " --unit=" + e
                   && Spells(d, if c.baud == 0 then 115200 else c.baud, 10)
                   && Spells(e, if n <= 0x7fff_ffff_ffff_ffff then n else 0, 10)
  }

  lemma TtyDigits(c: Console)
    requires GoodConsole(c)
    ensures Digits(c.tty[4..], 10) && c.tty == "ttyS" + c.tty[4..]
  {
    var d := c.tty[4..];
    forall i | 0 <= i < |d| ensures IsDigit(d[i], 10) {
      assert DecimalDigit(c.tty[i + 4]);
    }
  }

  lemma ReplacementCarries(c: Console)
    requires GoodConsole(c)
    ensures CarriesConsole(Replacement(ConsoleToken, c), c) && CarriesSerial(Replacement(SerialCommand, c), c)
  {
    var baud, digits := if c.baud == 0 then 115200 else c.baud, c.tty[4..];
    TtyDigits(c);
    UnitOfDigits(digits);
    var n := Value(digits, 10);
    var unit := if n <= 0x7fff_ffff_ffff_ffff then n else 0;
    assert TtyUnit(c.tty) == unit;
    ValueOfPrint(baud, 10);
    ValueOfPrint(unit, 10);
    hide Print, Value, TtyUnit;
    assert Spells(Print(baud, 10), baud, 10) && Spells(Print(unit, 10), unit, 10);
    assert Replacement(ConsoleToken, c) == "console=" + c.tty + "," + Print(baud, 10);
    assert Replacement(SerialCommand, c) == "serial --speed=" + Print(baud, 10) + " --unit=" + Print(unit, 10);
  }

  /** Afterwards every console token reads a and every serial command reads b, wherever it occurs, and
      these carry the requested tty, baud and unit. The text itself, cut into its tokens, its commands
      and the characters outside them, is otherwise what it was: the same pieces in the same order,
      the tokens and commands reworded. */
  lemma EveryTokenCarriesTheConsole(text: string, c: Console) returns (a: string, b: string)
    requires GoodConsole(c)
    ensures '$' !in c.tty && CarriesConsole(a, c) && CarriesSerial(b, c)
    ensures var out := RewriteGrubDefaults(text, Some(c));
      && EveryMatchReads(ConsoleToken, a, out) && EveryMatchReads(SerialCommand, b, out)
      && Glue(Pieces(text)) == text && Glue(Pieces(out)) == out
      && Pieces(out) == Reworded(Pieces(text), a, b)
  {
    a, b := Replacement(ConsoleToken, c), Replacement(SerialCommand, c);
    ReplacementCarries(c);
    RewriteIsTwoScans(text, c);
    SerialKeepsTokens(a, b, text);
    EveryMatchReplaced(SerialCommand, b, ReplaceAll(ConsoleToken, a, text));
    ValidIsWordLike(ConsoleToken, a);
    ValidIsWordLike(SerialCommand, b);
    EitherOrderIsBoth(SerialCommand, a, b, text);
    OnlyWordsChange(a, b, text);
    PiecesAreTheText(text);
    PiecesAreTheText(RewriteGrubDefaults(text, Some(c)));
    hide Pieces, Glue, Reworded, ReplaceAll, ReplaceBoth, EveryMatchReads, RewriteGrubDefaults, CarriesConsole, CarriesSerial;
  }

  // ---------------------------------------------------------------- the limit on baud

  lemma NothingToReplace(p: Pattern, rep: string, s: string)
    requires Inert(p, s)
    ensures ReplaceAll(p, rep, s) == s
  {
    SkipInert(p, rep, s, "");
    assert s + "" == s;
  }

  /** A console that was printed with a negative baud does not settle: the minus sign ends the
      token, and what follows it stays behind. So the last write wins over a ttyS console, on every
      text, if and only if that console's baud rate is not negative. */
  lemma LastConsoleWinsIff(c1: Console, c2: Console)
    requires GoodConsole(c1.(baud := 0)) && PlainConsole(c2)
    ensures '$' !in c1.tty
    ensures (forall s :: RewriteGrubDefaults(RewriteGrubDefaults(s, Some(c1)), Some(c2)) == RewriteGrubDefaults(s, Some(c2)))
            <==> c1.baud >= 0
  {
    NoDollar(c1.(baud := 0));
    if c1.baud >= 0 {
      assert GoodConsole(c1);
      hide *;
      forall s ensures RewriteGrubDefaults(RewriteGrubDefaults(s, Some(c1)), Some(c2)) == RewriteGrubDefaults(s, Some(c2)) {
        LastConsoleWins(s, c1, c2);
      }
    } else {
      NegativeBaudStays(c1, c2);
      hide RewriteGrubDefaults, GoodConsole;
    }
  }

  lemma TtyIsPlain(c: Console)
    requires GoodConsole(c.(baud := 0))
    ensures PlainConsole(c)
  {
    NoDollar(c.(baud := 0));
    assert forall i :: 0 <= i < |c.tty| && i < 4 ==> c.tty[i] == "ttyS"[i];
    assert forall i :: 0 <= i < |c.tty| ==> c.tty[i] != 's';
    forall i | 0 <= i <= |c.tty| ensures !("se" <= c.tty[i..]) {
      assert i < |c.tty| ==> c.tty[i..][0] != "se"[0];
    }
  }

  /** In particular, rewriting for one ttyS console is idempotent on every text if and only if its
      baud rate is not negative. */
  lemma IdempotentIffBaudNotNegative(c: Console)
    requires GoodConsole(c.(baud := 0))
    ensures '$' !in c.tty
    ensures (forall s :: RewriteGrubDefaults(RewriteGrubDefaults(s, Some(c)), Some(c)) == RewriteGrubDefaults(s, Some(c)))
            <==> c.baud >= 0
  {
    TtyIsPlain(c);
    hide *;
    LastConsoleWinsIff(c, c);
  }

  /** The text "console=ttyS0", rewritten for a console with a negative baud, keeps its minus sign and
      digits through the next rewrite. */
  lemma NegativeBaudStays(c1: Console, c2: Console)
    requires GoodConsole(c1.(baud := 0)) && c1.baud < 0 && '$' !in c1.tty && PlainConsole(c2)
    ensures var s := CONSOLE + "0";
      && RewriteGrubDefaults(s, Some(c2)) == Replacement(ConsoleToken, c2)
      && RewriteGrubDefaults(RewriteGrubDefaults(s, Some(c1)), Some(c2))
         == Replacement(ConsoleToken, c2) + ",-" + Print(-c1.baud, 10)
      && RewriteGrubDefaults(RewriteGrubDefaults(s, Some(c1)), Some(c2)) != RewriteGrubDefaults(s, Some(c2))
  {
    var d, tail := c1.tty[4..], ",-" + Print(-c1.baud, 10);
    PrintedDigits(-c1.baud);
    NegativeRep(c1, d, tail);
    TtyIsPlain(c1);
    TokenRewritten(c1, "0", "");
    TokenRewritten(c2, "0", "");
    TokenRewritten(c2, d, tail);
    hide Match, DigitRun, ReplaceAll, RewriteGrubDefaults, Replacement, Print;
    AppendEmpty(CONSOLE + "0");
    AppendEmpty(Replacement(ConsoleToken, c1));
    AppendEmpty(Replacement(ConsoleToken, c2));
    Assoc(Replacement(ConsoleToken, c2), ",-", Print(-c1.baud, 10));
  }

  lemma NegativeRep(c: Console, d: string, tail: string)
    requires |c.tty| > 4 && "ttyS" <= c.tty && d == c.tty[4..] && c.baud < 0 && tail == ",-" + Print(-c.baud, 10)
    ensures Replacement(ConsoleToken, c) == CONSOLE + d + tail
  {
    ConsoleOfTty(c.tty);
    var digits := Print(-c.baud, 10);
    assert "," + ("-" + digits) == tail;
    Assoc(CONSOLE + d, ",", "-" + digits);
  }

  /** A token followed by nothing, or by a comma and a minus sign, is replaced up to its unit number
      and what follows stays. */
  lemma TokenRewritten(c: Console, e: string, rest: string)
    requires PlainConsole(c) && e != "" && forall i :: 0 <= i < |e| ==> DecimalDigit(e[i])
    requires rest == "" || (|rest| > 2 && rest[0] == ',' && rest[1] == '-' && forall i :: 2 <= i < |rest| ==> DecimalDigit(rest[i]))
    ensures RewriteGrubDefaults(CONSOLE + e + rest, Some(c)) == Replacement(ConsoleToken, c) + rest
  {
    var rep := Replacement(ConsoleToken, c);
    BareTokenReplaced(rep, e, rest);
    PlainTokenIsWordLike(c);
    hide Replacement, Match, ReplaceAll;
    assert Inert(SerialCommand, rep + rest);
    hide Inert;
    NothingToReplace(SerialCommand, Replacement(SerialCommand, c), rep + rest);
  }

  /** Only the part up to the unit number is a token when no digits follow the comma. */
  lemma BareTokenReplaced(rep: string, e: string, rest: string)
    requires e != "" && forall i :: 0 <= i < |e| ==> DecimalDigit(e[i])
    requires !DigitFirst(rest) && !CommaDigit(rest) && Inert(ConsoleToken, rest)
    ensures ReplaceAll(ConsoleToken, rep, CONSOLE + e + rest) == rep + rest
  {
    ConsoleMatchOf(e, rest);
    ReplaceHead(ConsoleToken, rep, CONSOLE + e + rest);
    hide Match, ReplaceAll;
    DropAppend(CONSOLE + e, rest);
    NothingToReplace(ConsoleToken, rep, rest);
  }
}
