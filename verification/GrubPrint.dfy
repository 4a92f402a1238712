/** Configurations printed as a grub.cfg, and read back. */
module GrubPrint {
  import opened Sequences
  import opened Text
  import opened GrubConfig
  import opened GrubRoundTrip

  // ---------------------------------------------------------------- escaping

  /** Every $ becomes \$. */
  function Escape(s: string): string {
    if s == "" then "" else EscapeChar(s[0]) + Escape(s[1..])
  }

  function EscapeChar(c: char): string { if c == '$' then "\\$" else [c] }

  lemma EscapeCons(c: char, s: string)
    ensures Escape([c] + s) == EscapeChar(c) + Escape(s)
  {
    assert ([c] + s)[1..] == s;
  }

  lemma {:induction false} UnescapeEscape(s: string)
    ensures Unescape(Escape(s)) == s
  {
    if s != "" {
      UnescapeEscape(s[1..]);
      var rest := Escape(s[1..]);
      assert s == [s[0]] + s[1..];
      if s[0] == '$' {
        assert ("\\$" + rest)[2..] == rest;
      } else {
        assert ([s[0]] + rest)[1..] == rest;
        assert rest != "" ==> rest[0] != '$';
      }
    }
  }

  lemma {:induction false} EscapeAppend(a: string, b: string)
    ensures Escape(a + b) == Escape(a) + Escape(b)
  {
    if a == "" {
      AppendEmpty(b);
    } else {
      hide Escape;
      EscapeAppend(a[1..], b);
      HeadTail(a, b);
      EscapeCons(a[0], a[1..]);
      EscapeCons(a[0], a[1..] + b);
      Assoc(EscapeChar(a[0]), Escape(a[1..]), Escape(b));
    }
  }

  lemma {:induction false} EscapeToken(t: string)
    requires forall i :: 0 <= i < |t| ==> !IsSpace(t[i])
    ensures forall i :: 0 <= i < |Escape(t)| ==> !IsSpace(Escape(t)[i])
    ensures t != "" ==> Escape(t) != ""
  {
    if t != "" {
      EscapeToken(t[1..]);
    }
  }

  function EscapeAll(tokens: seq<string>): seq<string> {
    seq(|tokens|, i requires 0 <= i < |tokens| => Escape(tokens[i]))
  }

  lemma {:induction false} EscapeJoin(tokens: seq<string>)
    ensures Join(EscapeAll(tokens), " ") == Escape(Join(tokens, " "))
  {
    if |tokens| > 1 {
      EscapeJoin(tokens[1..]);
      assert EscapeAll(tokens)[1..] == EscapeAll(tokens[1..]);
      EscapeAppend(tokens[0] + " ", Join(tokens[1..], " "));
      EscapeAppend(tokens[0], " ");
      assert Escape(" ") == " ";
    }
  }

  /** Words separated by single spaces, nothing around them. */
  ghost predicate Spaced(s: string) { Join(Fields(s), " ") == s }

  lemma WordsReadBack(line: Line, from: nat, s: string)
    requires from <= |line| && line[from..] == EscapeAll(Fields(s)) && Spaced(s)
    ensures Words(line, from) == s
  {
    EscapeJoin(Fields(s));
    UnescapeEscape(s);
  }

  // ---------------------------------------------------------------- printing

  /** How the printed file spells each directive, and whether it quotes the default. */
  datatype Spelling = Spelling(linux: string, initrd: string, multiboot: string, mod: string, quoted: bool)
  type Style = st: Spelling | Known(st) witness Spelling("linux", "initrd", "multiboot", "module", false)

  predicate Known(st: Spelling) {
    && st.linux in {"linux", "linux16", "linuxefi"}
    && st.initrd in {"initrd", "initrd16", "initrdefi"}
    && st.multiboot in {"multiboot", "multiboot2"}
    && st.mod in {"module", "module2"}
  }

  function LinuxLine(st: Style, c: Config): Line { [st.linux, c.kernel] + EscapeAll(Fields(c.kernelArgs)) }
  function InitrdLine(st: Style, c: Config): Line { [st.initrd, c.initramfs] }
  function MultibootLine(st: Style, c: Config): Line { [st.multiboot, c.multiboot] + EscapeAll(Fields(c.multibootArgs)) }

  function ModuleLine(st: Style, m: string): Line {
    var f := Fields(m);
    if f == [] then [st.mod] else [st.mod, f[0]] + EscapeAll(f[1..])
  }

  function ModuleLines(st: Style, modules: seq<string>): seq<Line> {
    seq(|modules|, i requires 0 <= i < |modules| => ModuleLine(st, modules[i]))
  }

  function Header(c: Config): Line { ["menuentry"] + EscapeAll(Fields(c.name)) }

  function BootLines(st: Style, c: Config): seq<Line> {
    [LinuxLine(st, c), InitrdLine(st, c)] + (if c.multiboot == "" then [] else [MultibootLine(st, c)])
  }

  function Body(st: Style, c: Config): seq<Line> { BootLines(st, c) + ModuleLines(st, c.modules) + [["}"]] }

  function Blocks(st: Style, configs: seq<Config>): seq<Line> {
    if configs == [] then []
    else Blocks(st, configs[..|configs| - 1]) + ([Header(configs[|configs| - 1])] + Body(st, configs[|configs| - 1]))
  }

  function DefaultLine(st: Style, default: nat): Line {
    ["set", "default=" + (if st.quoted then "\"" + Print(default, 8) + "\"" else Print(default, 8))]
  }

  function File(st: Style, configs: seq<Config>, default: nat): seq<Line> {
    [DefaultLine(st, default)] + Blocks(st, configs)
  }

  function LineTexts(lines: seq<Line>): seq<string> {
    seq(|lines|, i requires 0 <= i < |lines| => Join(lines[i], " "))
  }

  /** The file, in any spelling the reader knows: `set default` in octal, quoted or not, then a
      menuentry block for each configuration. */
  function PrintGrubCfg(st: Style, configs: seq<Config>, default: nat): string {
    Join(LineTexts(File(st, configs, default)), "\n")
  }

  /** A bootable configuration whose words are single-spaced. */
  ghost predicate Printable(c: Config) {
    && Spaced(c.name)
    && Token(c.kernel) && Token(c.initramfs) && Spaced(c.kernelArgs)
    && (if c.multiboot == "" then c.multibootArgs == "" else Token(c.multiboot) && Spaced(c.multibootArgs))
    && forall m :: m in c.modules ==> m != "" && Spaced(m)
  }

  // ---------------------------------------------------------------- reading a block

  lemma ModuleReadsBack(st: Style, m: string)
    requires m != "" && Spaced(m)
    ensures KindOf(ModuleLine(st, m)) == Module && ModuleText(ModuleLine(st, m)) == m
  {
    var f, line := Fields(m), ModuleLine(st, m);
    assert f != [];
    assert line[2..] == EscapeAll(f[1..]);
    EscapeJoin(f[1..]);
    UnescapeEscape(Join(f[1..], " "));
    assert Words(line, 2) == Join(f[1..], " ");
    if |f| == 1 {
      assert m == f[0];
    } else {
      assert Join(f[1..], " ") != "" by { assert Token(f[1]); }
    }
  }

  lemma {:induction false} ModulesReadBack(st: Style, h: Line, before: seq<Line>, modules: seq<string>)
    requires forall m :: m in modules ==> m != "" && Spaced(m)
    ensures Read(Segment(h, before + ModuleLines(st, modules)))
         == Read(Segment(h, before)).(modules := Read(Segment(h, before)).modules + modules)
  {
    if modules == [] {
      AppendEmpty(before);
      AppendEmpty(Read(Segment(h, before)).modules);
    } else {
      var n := |modules| - 1;
      assert modules[n] in modules && forall m :: m in modules[..n] ==> m in modules;
      ModulesReadBack(st, h, before, modules[..n]);
      ModuleReadsBack(st, modules[n]);
      TakeSnoc(modules);
      var line, mid := ModuleLine(st, modules[n]), before + ModuleLines(st, modules[..n]);
      assert ModuleLines(st, modules) == ModuleLines(st, modules[..n]) + [line];
      Assoc(before, ModuleLines(st, modules[..n]), [line]);
      ReadAbsorbs(Segment(h, mid), line);
      Assoc(Read(Segment(h, before)).modules, modules[..n], [modules[n]]);
      hide Read, ModuleLine, ModuleText, KindOf, ModuleLines;
    }
  }

  lemma HeaderReadsBack(c: Config)
    requires Spaced(c.name)
    ensures Read(Segment(Header(c), [])) == NEW_CONFIG.(name := BeforeDashes(c.name))
  {
    var h := Header(c);
    assert h[1..] == EscapeAll(Fields(c.name));
    WordsReadBack(h, 1, c.name);
    hide Fields, Words, BeforeDashes;
    assert Fields(c.name) == [] ==> c.name == "";
    assert BeforeDashes("") == "" by { NothingBeforeDashes(); }
  }

  lemma NothingBeforeDashes()
    ensures BeforeDashes("") == ""
  {
  }

  lemma LinuxAbsorbed(st: Style, c: Config, before: Config)
    requires Spaced(c.kernelArgs)
    ensures Absorb(before, LinuxLine(st, c)) == before.(kernel := c.kernel, kernelArgs := c.kernelArgs)
  {
    var line := LinuxLine(st, c);
    assert line[2..] == EscapeAll(Fields(c.kernelArgs));
    WordsReadBack(line, 2, c.kernelArgs);
    hide Words, Fields;
  }

  lemma MultibootAbsorbed(st: Style, c: Config, before: Config)
    requires Spaced(c.multibootArgs)
    ensures Absorb(before, MultibootLine(st, c)) == before.(multiboot := c.multiboot, multibootArgs := c.multibootArgs)
  {
    var line := MultibootLine(st, c);
    assert line[2..] == EscapeAll(Fields(c.multibootArgs));
    WordsReadBack(line, 2, c.multibootArgs);
    hide Words, Fields;
  }

  lemma BootReadsBack(st: Style, c: Config)
    requires Printable(c)
    ensures Read(Segment(Header(c), BootLines(st, c))) == c.(name := BeforeDashes(c.name), modules := [])
  {
    var h, linux, initrd := Header(c), LinuxLine(st, c), InitrdLine(st, c);
    HeaderReadsBack(c);
    var c0 := Read(Segment(h, []));
    ReadAbsorbs(Segment(h, []), linux);
    LinuxAbsorbed(st, c, c0);
    var c1 := Absorb(c0, linux);
    ReadAbsorbs(Segment(h, [linux]), initrd);
    assert Absorb(c1, initrd) == c1.(initramfs := c.initramfs);
    var c2 := Absorb(c1, initrd);
    ReadAbsorbs(Segment(h, [linux, initrd]), MultibootLine(st, c));
    if c.multiboot != "" {
      MultibootAbsorbed(st, c, c2);
    }
    hide Read, Absorb, LinuxLine, InitrdLine, MultibootLine, BeforeDashes, Spaced;
    AppendEmpty([linux]);
    AppendEmpty([linux, initrd]);
    assert [linux] + [initrd] == [linux, initrd];
  }

  lemma BlockReadsBack(st: Style, c: Config)
    requires Printable(c)
    ensures Read(Segment(Header(c), Body(st, c))) == c.(name := BeforeDashes(c.name))
  {
    BootReadsBack(st, c);
    ModulesReadBack(st, Header(c), BootLines(st, c), c.modules);
    ReadAbsorbs(Segment(Header(c), BootLines(st, c) + ModuleLines(st, c.modules)), ["}"]);
    hide Read, BootLines, Header;
    AppendEmpty(c.modules);
  }

  lemma {:induction false} SegmentOfBlock(h: Line, body: seq<Line>)
    requires IsHeader(h) && NoHeader(body)
    ensures Segments([h] + body) == [Segment(h, body)]
  {
    if body == [] {
      AppendEmpty([h]);
      SegmentsSnoc([], h);
      AppendEmpty([h]);
    } else {
      var front, line := body[..|body| - 1], body[|body| - 1];
      SegmentOfBlock(h, front);
      SegmentsSnoc([h] + front, line);
      AppendSnoc([h], body);
      TakeSnoc(body);
      hide Segments, IsHeader;
      assert [Segment(h, front)][..0] == [];
    }
  }

  // ---------------------------------------------------------------- reading the file

  /** No line of a block is a `set` line, and only its first is a menuentry. */
  ghost predicate Quiet(lines: seq<Line>) {
    forall i :: 0 <= i < |lines| ==> lines[i] != [] && lines[i][0] != "set"
  }

  lemma ModulesAreQuiet(st: Style, modules: seq<string>)
    ensures Quiet(ModuleLines(st, modules)) && NoHeader(ModuleLines(st, modules))
  {
    forall i | 0 <= i < |modules| ensures ModuleLines(st, modules)[i] != [] && ModuleLines(st, modules)[i][0] == st.mod {
      assert ModuleLines(st, modules)[i] == ModuleLine(st, modules[i]);
    }
  }

  lemma QuietAppend(a: seq<Line>, b: seq<Line>)
    requires Quiet(a) && NoHeader(a) && Quiet(b) && NoHeader(b)
    ensures Quiet(a + b) && NoHeader(a + b)
  {
    hide IsHeader;
  }

  lemma BodyIsQuiet(st: Style, c: Config)
    ensures Quiet(Body(st, c)) && NoHeader(Body(st, c))
  {
    BootIsQuiet(st, c);
    ModulesAreQuiet(st, c.modules);
    assert Quiet([["}"]]) && NoHeader([["}"]]);
    hide Quiet, NoHeader;
    QuietAppend(BootLines(st, c), ModuleLines(st, c.modules));
    QuietAppend(BootLines(st, c) + ModuleLines(st, c.modules), [["}"]]);
  }

  lemma BootIsQuiet(st: Style, c: Config)
    ensures Quiet(BootLines(st, c)) && NoHeader(BootLines(st, c))
  {
    assert LinuxLine(st, c)[0] == st.linux && InitrdLine(st, c)[0] == st.initrd;
    assert MultibootLine(st, c)[0] == st.multiboot;
    hide LinuxLine, InitrdLine, MultibootLine;
  }

  function AsRead(configs: seq<Config>): seq<Config> {
    seq(|configs|, i requires 0 <= i < |configs| => configs[i].(name := BeforeDashes(configs[i].name)))
  }

  lemma {:induction false} BlocksAreQuiet(st: Style, configs: seq<Config>)
    ensures Quiet(Blocks(st, configs)) && (configs != [] ==> Blocks(st, configs) != [] && IsHeader(Blocks(st, configs)[0]))
  {
    if configs != [] {
      var n := |configs| - 1;
      BlocksAreQuiet(st, configs[..n]);
      BodyIsQuiet(st, configs[n]);
      hide Body;
      assert Quiet([Header(configs[n])]);
    }
  }

  lemma AsReadSnoc(configs: seq<Config>, c: Config)
    ensures AsRead(configs + [c]) == AsRead(configs) + [c.(name := BeforeDashes(c.name))]
  {
  }

  lemma {:induction false} BlocksReadBack(st: Style, configs: seq<Config>)
    requires forall i :: 0 <= i < |configs| ==> Printable(configs[i])
    ensures BootableOf(Segments(Blocks(st, configs))) == AsRead(configs)
  {
    if configs != [] {
      var before, c := configs[..|configs| - 1], configs[|configs| - 1];
      BlocksReadBack(st, before);
      assert Printable(c);
      assert Bootable(c.(name := BeforeDashes(c.name)));
      BodyIsQuiet(st, c);
      BlockReadsBack(st, c);
      SegmentOfBlock(Header(c), Body(st, c));
      hide Segments, BootableOf, Read, Body, Printable, Bootable, AsRead;
      SegmentsAppend(Blocks(st, before), [Header(c)] + Body(st, c));
      BootableSnoc(Segments(Blocks(st, before)), Segment(Header(c), Body(st, c)));
      TakeSnoc(configs);
      AsReadSnoc(before, c);
    }
  }

  lemma QuietNeverFaults(lines: seq<Line>)
    requires Quiet(lines)
    ensures !AnyFault(lines) && !SetsAny(lines)
  {
  }

  /** The default as it may be written: a quote or none on either side, a sign or none, and octal
      digits; what follows another "=" is not looked at. A number that no int holds is 0. */
  lemma DefaultInGeneral(open: string, sign: string, d: string, close: string, tail: string)
    requires open in {"", "\""} && close in {"", "\""} && sign in {"", "+", "-"} && Digits(d, 8)
    requires tail == "" || tail[0] == '='
    ensures var line := ["set", "default=" + ((open + (sign + d) + close) + tail)];
      var n: int := if sign == "-" then 0 - Value(d, 8) else Value(d, 8);
      && SetsDefault(line) && !Faults(line) && !IsHeader(line)
      && DefaultOf(line) == if -0x8000_0000_0000_0000 <= n <= 0x7fff_ffff_ffff_ffff then n else 0
  {
    var number := sign + d;
    var text := open + number + close;
    var word := "default=" + (text + tail);
    forall i | 0 <= i < |d| ensures d[i] != '=' && d[i] != '"' {
      assert IsDigit(d[i], 8);
    }
    assert '=' !in text;
    FirstPart(text, tail, '=');
    QuotesTrimmed(open, number, close);
    OctalNumber(sign, d);
    hide Split, TrimQuote, OctalOrZero, Value, IsDigit;
    DefaultWord(text + tail);
  }

  lemma DefaultWord(value: string)
    ensures var line := ["set", "default=" + value];
      && SetsDefault(line) && !Faults(line) && !IsHeader(line)
      && DefaultOf(line) == OctalOrZero(TrimQuote(Split(value, '=')[0]))
  {
    var word := "default=" + value;
    assert word[8..] == value && |word| > |"default"|;
    DefaultPartAfter(word);
    hide Split, TrimQuote, OctalOrZero;
  }

  lemma FirstPart(a: string, tail: string, sep: char)
    requires sep !in a && (tail == "" || tail[0] == sep)
    ensures Split(a + tail, sep)[0] == a
  {
    SplitOne(a, sep);
    if tail == "" {
      AppendEmpty(a);
    } else {
      SplitAppend(a, tail[1..], sep);
      HeadTail(tail, "");
      Assoc(a, [sep], tail[1..]);
    }
  }

  lemma QuotesTrimmed(open: string, number: string, close: string)
    requires open in {"", "\""} && close in {"", "\""} && number != "" && number[0] != '"' && number[|number| - 1] != '"'
    ensures TrimQuote(open + number + close) == number
  {
    DropAppend(open, number + close);
    Assoc(open, number, close);
    DropAppend(number, close);
  }

  lemma OctalNumber(sign: string, d: string)
    requires sign in {"", "+", "-"} && Digits(d, 8)
    ensures var n: int := if sign == "-" then 0 - Value(d, 8) else Value(d, 8);
      OctalOrZero(sign + d) == if -0x8000_0000_0000_0000 <= n <= 0x7fff_ffff_ffff_ffff then n else 0
  {
    DropAppend(sign, d);
    assert IsDigit(d[0], 8);
    hide Value;
  }

  /** Anything with another character in it is 0, whatever is quoted. */
  lemma OtherDefaultIsZero(text: string, i: nat)
    requires '=' !in text && i < |text| && !('0' <= text[i] <= '7') && text[i] !in {'"', '+', '-'}
    ensures SetsDefault(["set", "default=" + text]) && DefaultOf(["set", "default=" + text]) == 0
  {
    DefaultWord(text);
    SplitOne(text, '=');
    hide DefaultOf, SetsDefault;
    var k := CharIsKept(text, i);
    NotOctal(TrimQuote(text), k);
    hide OctalOrZero, TrimQuote, Split;
  }

  lemma CharIsKept(text: string, i: nat) returns (k: nat)
    requires i < |text| && text[i] != '"'
    ensures k < |TrimQuote(text)| && TrimQuote(text)[k] == text[i]
  {
    k := if text[0] == '"' then i - 1 else i;
  }

  lemma NotOctal(t: string, k: nat)
    requires k < |t| && !IsDigit(t[k], 8) && t[k] != '+' && t[k] != '-'
    ensures OctalOrZero(t) == 0
  {
    var signed := t[0] == '-' || t[0] == '+';
    var digits, j := if signed then t[1..] else t, if signed then k - 1 else k;
    assert digits[j] == t[k] && !IsDigit(digits[j], 8);
  }

  lemma DefaultLineReadsBack(st: Style, n: nat)
    requires n <= MAX_INT
    ensures var line := DefaultLine(st, n); SetsDefault(line) && !Faults(line) && !IsHeader(line) && DefaultOf(line) == n
  {
    var quote, digits := if st.quoted then "\"" else "", Print(n, 8);
    DefaultInGeneral(quote, "", digits, quote, "");
    AppendEmpty(digits);
    AppendEmpty(quote + digits + quote);
    ValueOfPrint(n, 8);
    hide DefaultOf, SetsDefault, Faults, IsHeader, Value, Print;
  }

  lemma DefaultLineMeans(line: Line)
    requires SetsDefault(line) && !Faults(line) && !IsHeader(line)
    ensures Segments([line]) == [] && Default([line]) == DefaultOf(line) && !AnyFault([line])
  {
    assert [line][..0] == [];
    hide DefaultOf, SetsDefault, Faults, IsHeader;
    assert [line][0] == line;
  }

  lemma FileMeans(st: Style, configs: seq<Config>, default: nat)
    requires default <= MAX_INT && forall i :: 0 <= i < |configs| ==> Printable(configs[i])
    ensures MeaningOf(File(st, configs, default)) == Parsed(AsRead(configs), default)
  {
    var line, blocks := DefaultLine(st, default), Blocks(st, configs);
    DefaultLineReadsBack(st, default);
    DefaultLineMeans(line);
    BlocksReadBack(st, configs);
    BlocksAreQuiet(st, configs);
    QuietNeverFaults(blocks);
    assert configs == [] ==> blocks == [];
    hide Blocks, Segments, DefaultOf, Default, AnyFault, SetsAny, Printable, Quiet, SetsDefault, Faults, IsHeader;
    if blocks == [] {
      AppendEmpty([line]);
    } else {
      ConcatenatedLines([line], blocks);
    }
    AppendEmpty(BootableOf(Segments(blocks)));
  }

  /** Every field of every line is a word, so that printing and cutting agree. */
  ghost predicate Worded(lines: seq<Line>) {
    forall i, j :: 0 <= i < |lines| && 0 <= j < |lines[i]| ==> Token(lines[i][j])
  }

  lemma EscapedAreWords(tokens: seq<string>)
    requires forall i :: 0 <= i < |tokens| ==> Token(tokens[i])
    ensures forall i :: 0 <= i < |tokens| ==> Token(EscapeAll(tokens)[i])
  {
    forall i | 0 <= i < |tokens| ensures Token(EscapeAll(tokens)[i]) {
      EscapeToken(tokens[i]);
    }
  }

  lemma ModuleIsWorded(st: Style, m: string)
    ensures Worded([ModuleLine(st, m)])
  {
    var f := Fields(m);
    if f != [] {
      EscapedAreWords(f[1..]);
    }
  }

  lemma WordedAppend(a: seq<Line>, b: seq<Line>)
    requires Worded(a) && Worded(b)
    ensures Worded(a + b)
  {
  }

  lemma BootIsWorded(st: Style, c: Config)
    requires Printable(c)
    ensures Worded([Header(c)]) && Worded(BootLines(st, c))
  {
    EscapedAreWords(Fields(c.name));
    EscapedAreWords(Fields(c.kernelArgs));
    EscapedAreWords(Fields(c.multibootArgs));
    hide Fields, EscapeAll, Spaced, IsSpace;
    assert Worded([LinuxLine(st, c), InitrdLine(st, c)]);
    assert c.multiboot != "" ==> Worded([MultibootLine(st, c)]);
  }

  lemma ModulesAreWorded(st: Style, modules: seq<string>)
    ensures Worded(ModuleLines(st, modules))
  {
    forall i, j | 0 <= i < |modules| && 0 <= j < |ModuleLines(st, modules)[i]| ensures Token(ModuleLines(st, modules)[i][j]) {
      ModuleIsWorded(st, modules[i]);
      assert [ModuleLine(st, modules[i])][0][j] == ModuleLines(st, modules)[i][j];
    }
  }

  lemma BlockIsWorded(st: Style, c: Config)
    requires Printable(c)
    ensures Worded([Header(c)] + Body(st, c))
  {
    BootIsWorded(st, c);
    ModulesAreWorded(st, c.modules);
    assert Worded([["}"]]);
    WordedAppend(BootLines(st, c), ModuleLines(st, c.modules));
    WordedAppend(BootLines(st, c) + ModuleLines(st, c.modules), [["}"]]);
    WordedAppend([Header(c)], Body(st, c));
    hide Worded;
  }

  lemma {:induction false} BlocksAreWorded(st: Style, configs: seq<Config>)
    requires forall i :: 0 <= i < |configs| ==> Printable(configs[i])
    ensures Worded(Blocks(st, configs))
  {
    if configs != [] {
      var n := |configs| - 1;
      assert Printable(configs[n]);
      BlocksAreWorded(st, configs[..n]);
      BlockIsWorded(st, configs[n]);
      WordedAppend(Blocks(st, configs[..n]), [Header(configs[n])] + Body(st, configs[n]));
    }
  }

  lemma {:induction false} JoinHasNoNewline(tokens: seq<string>)
    requires forall i :: 0 <= i < |tokens| ==> Token(tokens[i])
    ensures '\n' !in Join(tokens, " ")
  {
    assert IsSpace('\n');
    if |tokens| > 1 {
      JoinHasNoNewline(tokens[1..]);
    }
  }

  lemma PrintedLines(lines: seq<Line>)
    requires lines != [] && Worded(lines)
    ensures LinesOf(Join(LineTexts(lines), "\n")) == lines
  {
    var texts := LineTexts(lines);
    forall i | 0 <= i < |lines| ensures '\n' !in texts[i] && Fields(texts[i]) == lines[i] {
      assert forall j :: 0 <= j < |lines[i]| ==> Token(lines[i][j]);
      JoinHasNoNewline(lines[i]);
      FieldsOfJoin(lines[i], " ");
    }
    SplitJoin(texts, '\n');
    hide Join, Fields, Split;
    assert FieldLines(texts) == lines;
  }

  /** Reading a printed file gives the configurations back, each name up to its first "--". */
  lemma PrintedFileMeans(st: Style, configs: seq<Config>, default: nat)
    requires default <= MAX_INT && forall i :: 0 <= i < |configs| ==> Printable(configs[i])
    ensures Meaning(PrintGrubCfg(st, configs, default)) == Parsed(AsRead(configs), default)
  {
    FileMeans(st, configs, default);
    FileIsWorded(st, configs, default);
    hide MeaningOf, Worded, Printable;
    PrintedLines(File(st, configs, default));
  }

  lemma FileIsWorded(st: Style, configs: seq<Config>, default: nat)
    requires forall i :: 0 <= i < |configs| ==> Printable(configs[i])
    ensures Worded(File(st, configs, default))
  {
    hide Printable, Worded, DefaultLine;
    BlocksAreWorded(st, configs);
    DefaultIsWorded(st, default);
    WordedAppend([DefaultLine(st, default)], Blocks(st, configs));
  }

  lemma DefaultIsWorded(st: Style, default: nat)
    ensures Worded([DefaultLine(st, default)])
  {
    var digits, line := Print(default, 8), DefaultLine(st, default);
    DigitsAreToken(digits, 8);
    assert !IsSpace('"');
    hide Print;
    assert Token("set") && Token("default=");
    forall i | 0 <= i < |line[1]| ensures !IsSpace(line[1][i]) {
      assert i < 8 ==> line[1][i] == "default="[i];
    }
  }

  lemma {:induction false} NoDashes(s: string)
    ensures BeforeDashes(s) == s <==> !Contains(s, "--")
  {
    if s == "" {
      assert !Contains(s, "--");
    } else if "--" <= s {
      assert s[0..] == s;
      assert Contains(s, "--");
      assert |BeforeDashes(s)| < |s|;
    } else {
      NoDashes(s[1..]);
      assert s == [s[0]] + s[1..];
      assert forall i :: 0 <= i <= |s[1..]| ==> s[1..][i..] == s[i + 1..];
      if Contains(s[1..], "--") {
        var i :| 0 <= i <= |s[1..]| && "--" <= s[1..][i..];
        assert "--" <= s[i + 1..];
      }
      if Contains(s, "--") {
        var i :| 0 <= i <= |s| && "--" <= s[i..];
        assert i > 0 by { assert s[0..] == s; }
        assert "--" <= s[1..][i - 1..];
      }
    }
  }

  lemma ReadsUnchangedIff(configs: seq<Config>)
    ensures AsRead(configs) == configs <==> forall i :: 0 <= i < |configs| ==> !Contains(configs[i].name, "--")
    ensures forall i :: 0 <= i < |configs| && !Contains(configs[i].name, "--") ==> AsRead(configs)[i] == configs[i]
  {
    forall i | 0 <= i < |configs| ensures AsRead(configs)[i] == configs[i] <==> !Contains(configs[i].name, "--") {
      NoDashes(configs[i].name);
    }
    hide Contains, BeforeDashes;
    if forall i :: 0 <= i < |configs| ==> !Contains(configs[i].name, "--") {
      assert AsRead(configs) == configs;
    }
  }

  /** The print/parse round trip: the list comes back unchanged if and only if no name contains
      "--", and then the default choice is the entry at the printed index. */
  lemma PrintParseRoundTrip(st: Style, configs: seq<Config>, default: nat)
    requires default <= MAX_INT && forall i :: 0 <= i < |configs| ==> Printable(configs[i])
    ensures Meaning(PrintGrubCfg(st, configs, default)) == Parsed(configs, default)
            <==> forall i :: 0 <= i < |configs| ==> !Contains(configs[i].name, "--")
    ensures default < |configs| && !Contains(configs[default].name, "--")
            ==> Choose(Meaning(PrintGrubCfg(st, configs, default))) == Chosen(configs[default])
    ensures default >= |configs| ==>
      Choose(Meaning(PrintGrubCfg(st, configs, default))) == if configs == [] then NoEntry else OutOfRange
  {
    hide Meaning, Printable, PrintGrubCfg, Contains;
    PrintedFileMeans(st, configs, default);
    ReadsUnchangedIff(configs);
  }

  // ---------------------------------------------------------------- a concrete failure

  lemma WordIsSpaced(t: string)
    requires t == "" || Token(t)
    ensures Spaced(t)
  {
    if t != "" {
      FieldsToken(t, "");
      AppendEmpty(t);
    }
  }

  /** A one-word name with "--" in it comes back cut. */
  lemma DashedNameIsCut(st: Style, name: string, kernel: string, initramfs: string)
    requires Token(name) && Contains(name, "--") && Token(kernel) && Token(initramfs)
    ensures var c := NEW_CONFIG.(name := name, kernel := kernel, initramfs := initramfs);
      Meaning(PrintGrubCfg(st, [c], 0)) != Parsed([c], 0)
  {
    var c := NEW_CONFIG.(name := name, kernel := kernel, initramfs := initramfs);
    WordIsSpaced(name);
    WordIsSpaced("");
    hide Spaced, Meaning, PrintGrubCfg, Contains, Token;
    assert Printable(c);
    assert [c][0].name == name;
    PrintParseRoundTrip(st, [c], 0);
  }
}
