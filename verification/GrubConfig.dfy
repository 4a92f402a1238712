/** The grub.cfg line machine of the kexec action, against a declarative reading of the file:
    cut it at the menuentry lines, take what each segment says last, keep the bootable ones. */
module GrubConfig {
  import opened Options
  import opened Text

  datatype Config = Config(name: string, kernel: string, initramfs: string, kernelArgs: string,
                           multiboot: string, multibootArgs: string, modules: seq<string>)

  const NEW_CONFIG := Config("", "", "", "", "", "", [])

  // Panicked: an index out of range ends the program.
  datatype Outcome = Panicked | Parsed(configs: seq<Config>, default: int)

  // One line, already cut into fields.
  type Line = seq<string>

  // ---------------------------------------------------------------- pieces of text

  /** Every \$ becomes $. */
  function Unescape(s: string): string {
    if s == "" then ""
    else if "\\$" <= s then "$" + Unescape(s[2..])
    else [s[0]] + Unescape(s[1..])
  }

  /** What comes before the first "--". */
  function BeforeDashes(s: string): (r: string)
    ensures r <= s && (forall i :: 0 <= i < |r| ==> !("--" <= s[i..]))
    ensures r == s || "--" <= s[|r|..]
  {
    if s == "" || "--" <= s then assert s[0..] == s; ""
    else
      var rest := BeforeDashes(s[1..]);
      assert forall i :: 1 <= i <= |rest| ==> s[i..] == s[1..][i - 1..];
      assert s[1..][|rest|..] == s[|rest| + 1..] && s[0..] == s;
      [s[0]] + rest
  }

  function TrimQuote(s: string): string {
    var t := if s != "" && s[0] == '"' then s[1..] else s;
    if t != "" && t[|t| - 1] == '"' then t[..|t| - 1] else t
  }

  /** strconv.ParseInt with base 8, and 0 for anything it rejects. */
  function OctalOrZero(s: string): int {
    var signed := s != "" && (s[0] == '-' || s[0] == '+');
    var digits := if signed then s[1..] else s;
    if !Digits(digits, 8) then 0
    else
      var v: int := if signed && s[0] == '-' then 0 - Value(digits, 8) else Value(digits, 8);
      if MIN_INT <= v <= MAX_INT then v else 0
  }

  function Words(line: Line, from: nat): string
    requires from <= |line|
  {
    Unescape(Join(line[from..], " "))
  }

  // ---------------------------------------------------------------- what a line is

  predicate IsHeader(line: Line) { line != [] && line[0] == "menuentry" }

  // set with nothing after it, or set default without "=".
  predicate Faults(line: Line) { line != [] && line[0] == "set" && (|line| == 1 || line[1] == "default") }

  predicate SetsDefault(line: Line) { |line| > 1 && line[0] == "set" && "default=" <= line[1] }

  function DefaultOf(line: Line): int
    requires SetsDefault(line)
  {
    DefaultPartAfter(line[1]);
    OctalOrZero(TrimQuote(Split(line[1], '=')[1]))
  }

  lemma DefaultPartAfter(word: string)
    requires "default=" <= word
    ensures var parts := Split(word, '='); |parts| > 1 && parts[0] == "default"
    ensures Split(word, '=') == ["default"] + Split(word[8..], '=')
  {
    SplitAppend("default", word[8..], '=');
    SplitOne("default", '=');
    assert word == "default" + ['='] + word[8..];
  }

  datatype Kind = Linux | Initrd | Multiboot | Module | Other

  function KindOf(line: Line): Kind {
    if |line| < 2 then Other
    else match line[0]
      case "linux" | "linux16" | "linuxefi" => Linux
      case "initrd" | "initrd16" | "initrdefi" => Initrd
      case "multiboot" | "multiboot2" => Multiboot
      case "module" | "module2" => Module
      case _ => Other
  }

  /** The directives, in every spelling that grub knows; anything else is passed over. */
  lemma KindsByWord(line: Line)
    requires |line| >= 2
    ensures KindOf(line) == Linux <==> line[0] in {"linux", "linux16", "linuxefi"}
    ensures KindOf(line) == Initrd <==> line[0] in {"initrd", "initrd16", "initrdefi"}
    ensures KindOf(line) == Multiboot <==> line[0] in {"multiboot", "multiboot2"}
    ensures KindOf(line) == Module <==> line[0] in {"module", "module2"}
  {
  }

  // ---------------------------------------------------------------- the declarative reading

  datatype Segment = Segment(header: Line, body: seq<Line>)

  /** The file cut at its menuentry lines; what comes before the first one is dropped. */
  function Segments(lines: seq<Line>): seq<Segment> {
    if lines == [] then []
    else
      var before, line := Segments(lines[..|lines| - 1]), lines[|lines| - 1];
      if IsHeader(line) then before + [Segment(line, [])]
      else if before == [] then []
      else
        var last := before[|before| - 1];
        before[..|before| - 1] + [last.(body := last.body + [line])]
  }

  /** The last line of a kind. */
  function LastOf(body: seq<Line>, kind: Kind): (l: Option<Line>)
    ensures l.Some? && kind != Other ==> KindOf(l.value) == kind && |l.value| >= 2
  {
    if body == [] then None
    else if KindOf(body[|body| - 1]) == kind then Some(body[|body| - 1])
    else LastOf(body[..|body| - 1], kind)
  }

  function ModuleText(line: Line): string
    requires |line| >= 2
  {
    var args := Words(line, 2);
    if args == "" then line[1] else line[1] + " " + args
  }

  function ModulesOf(body: seq<Line>): seq<string> {
    if body == [] then []
    else
      var before, line := ModulesOf(body[..|body| - 1]), body[|body| - 1];
      if KindOf(line) == Module then before + [ModuleText(line)] else before
  }

  function NameOf(header: Line): string {
    if |header| > 1 then BeforeDashes(Words(header, 1)) else ""
  }

  /** What a segment says: the last kernel, the last initrd, the last multiboot, every module. */
  function Read(s: Segment): Config {
    var linux, initrd, multi := LastOf(s.body, Linux), LastOf(s.body, Initrd), LastOf(s.body, Multiboot);
    Config(NameOf(s.header),
           if linux.Some? then linux.value[1] else "",
           if initrd.Some? then initrd.value[1] else "",
           if linux.Some? then Words(linux.value, 2) else "",
           if multi.Some? then multi.value[1] else "",
           if multi.Some? then Words(multi.value, 2) else "",
           ModulesOf(s.body))
  }

  predicate Bootable(c: Config) { c.kernel != "" && c.initramfs != "" }

  function BootableOf(segments: seq<Segment>): seq<Config> {
    if segments == [] then []
    else
      var before, c := BootableOf(segments[..|segments| - 1]), Read(segments[|segments| - 1]);
      if Bootable(c) then before + [c] else before
  }

  function Default(lines: seq<Line>): int {
    if lines == [] then 0
    else if SetsDefault(lines[|lines| - 1]) then DefaultOf(lines[|lines| - 1])
    else Default(lines[..|lines| - 1])
  }

  function FieldLines(lines: seq<string>): (f: seq<Line>)
    ensures |f| == |lines|
  {
    seq(|lines|, i requires 0 <= i < |lines| => Fields(lines[i]))
  }

  function LinesOf(text: string): (lines: seq<Line>)
    ensures |lines| == |Split(text, '\n')|
  {
    FieldLines(Split(text, '\n'))
  }

  predicate AnyFault(lines: seq<Line>) { exists i | 0 <= i < |lines| :: Faults(lines[i]) }

  function MeaningOf(lines: seq<Line>): Outcome {
    if AnyFault(lines) then Panicked else Parsed(BootableOf(Segments(lines)), Default(lines))
  }

  function Meaning(text: string): Outcome { MeaningOf(LinesOf(text)) }

  // ---------------------------------------------------------------- the machine

  lemma SegmentsSnoc(lines: seq<Line>, line: Line)
    ensures Segments(lines + [line]) ==
      var before := Segments(lines);
      if IsHeader(line) then before + [Segment(line, [])]
      else if before == [] then []
      else before[..|before| - 1] + [before[|before| - 1].(body := before[|before| - 1].body + [line])]
  {
    assert (lines + [line])[..|lines|] == lines;
  }

  /** One more body line changes the reading of a segment as the machine's switch does. */
  function Absorb(c: Config, line: Line): Config {
    match KindOf(line)
    case Linux => c.(kernel := line[1], kernelArgs := Words(line, 2))
    case Initrd => c.(initramfs := line[1])
    case Multiboot => c.(multiboot := line[1], multibootArgs := Words(line, 2))
    case Module => c.(modules := c.modules + [ModuleText(line)])
    case Other => c
  }

  lemma ReadAbsorbs(s: Segment, line: Line)
    ensures Read(s.(body := s.body + [line])) == Absorb(Read(s), line)
  {
    assert (s.body + [line])[..|s.body|] == s.body;
  }

  /** The machine's state after some lines: the saved configs, the open one, the default. */
  ghost predicate Reads(lines: seq<Line>, configs: seq<Config>, open: Option<Config>, default: int) {
    var segments := Segments(lines);
    && default == Default(lines)
    && (segments == [] ==> open == None && configs == [])
    && (segments != [] ==>
         && open == Some(Read(segments[|segments| - 1]))
         && configs == BootableOf(segments[..|segments| - 1]))
    && forall i :: 0 <= i < |lines| ==> !Faults(lines[i])
  }

  lemma DefaultSnoc(lines: seq<Line>, line: Line)
    ensures Default(lines + [line]) == if SetsDefault(line) then DefaultOf(line) else Default(lines)
  {
    assert (lines + [line])[..|lines|] == lines;
  }

  lemma HeaderStep(lines: seq<Line>, line: Line, configs: seq<Config>, open: Option<Config>, default: int)
    requires Reads(lines, configs, open, default) && IsHeader(line)
    ensures var saved := if open.Some? && Bootable(open.value) then configs + [open.value] else configs;
      Reads(lines + [line], saved, Some(NEW_CONFIG.(name := NameOf(line))), default)
  {
    SegmentsSnoc(lines, line);
    DefaultSnoc(lines, line);
    var segments := Segments(lines);
    assert (segments + [Segment(line, [])])[..|segments|] == segments;
    assert line[0] != "set";
  }

  lemma BodyStep(lines: seq<Line>, line: Line, configs: seq<Config>, open: Option<Config>, default: int)
    requires Reads(lines, configs, open, default) && !IsHeader(line) && !Faults(line)
    ensures Reads(lines + [line], configs, if open.Some? then Some(Absorb(open.value, line)) else None,
                  if SetsDefault(line) then DefaultOf(line) else default)
  {
    SegmentsSnoc(lines, line);
    DefaultSnoc(lines, line);
    hide Absorb, Read, DefaultOf, SetsDefault, Faults, IsHeader;
    var segments := Segments(lines);
    if segments != [] {
      ReadAbsorbs(segments[|segments| - 1], line);
      assert Segments(lines + [line])[..|segments| - 1] == segments[..|segments| - 1];
    }
  }

  lemma SetWord(word: string)
    ensures Split(word, '=')[0] == "default" <==> word == "default" || "default=" <= word
  {
    JoinSplit(word, '=');
    var parts := Split(word, '=');
    assert |parts| > 1 ==> word == parts[0] + "=" + Join(parts[1..], "=");
    if word == "default" {
      SplitOne("default", '=');
    } else if "default=" <= word {
      DefaultPartAfter(word);
    }
  }

  /** The part of the loop body about `set` lines. */
  method ReadSet(sline: Line, current: int) returns (panicked: bool, default: int)
    requires sline != []
    ensures panicked <==> sline == ["set"] || ["set", "default"] <= sline
    ensures panicked <==> Faults(sline)
    ensures !panicked ==> default == if SetsDefault(sline) then DefaultOf(sline) else current
  {
    panicked, default := false, current;
    if sline[0] == "set" {
      if |sline| == 1 {
        return true, current;
      }
      SetWord(sline[1]);
      if Contains(sline[1], "default") {
        var parts := Split(sline[1], '=');
        if parts[0] == "default" {
          if |parts| == 1 {
            assert sline[1] == "default" by { JoinSplit(sline[1], '='); }
            return true, current;
          }
          assert sline[1] != "default" by { SplitOne("default", '='); }
          default := OctalOrZero(TrimQuote(parts[1]));
        }
      } else {
        assert sline[1][0..] == sline[1];
        assert "default" <= "default=";
      }
    }
  }

  /** The part of the loop body inside a menu entry. */
  method ReadDirective(cfg: Config, sline: Line) returns (c: Config)
    ensures c == Absorb(cfg, sline)
  {
    c := cfg;
    if |sline| < 2 {
      return;
    }
    match sline[0] {
      case "linux" | "linux16" | "linuxefi" =>
        c := c.(kernel := sline[1], kernelArgs := Unescape(Join(sline[2..], " ")));
      case "initrd" | "initrd16" | "initrdefi" =>
        c := c.(initramfs := sline[1]);
      case "multiboot" | "multiboot2" =>
        c := c.(multiboot := sline[1], multibootArgs := Unescape(Join(sline[2..], " ")));
      case "module" | "module2" =>
        var m := sline[1];
        var cmdline := Unescape(Join(sline[2..], " "));
        if cmdline != "" {
          m := m + " " + cmdline;
        }
        c := c.(modules := c.modules + [m]);
      case _ =>
    }
  }

  lemma NothingRead()
    ensures Reads([], [], None, 0)
  {
  }

  lemma LineAt(text: string, i: nat)
    requires i < |Split(text, '\n')|
    ensures LinesOf(text)[i] == Fields(TrimLeft(Split(text, '\n')[i], ' '))
  {
    FieldsTrimmed(Split(text, '\n')[i]);
  }

  method ParseGrubCfg(text: string) returns (r: Outcome)
    ensures r == Meaning(text)
  {
    var lines := Split(text, '\n');
    var configs: seq<Config>, defaultConfig := [], 0;
    var inMenuEntry, cfg := false, NEW_CONFIG;
    ghost var all := LinesOf(text);
    NothingRead();
    hide Reads, Absorb, DefaultOf, MeaningOf, SetsDefault, LinesOf, BeforeDashes, Unescape, Fields, Join;
    for i := 0 to |lines|
      invariant Reads(all[..i], configs, if inMenuEntry then Some(cfg) else None, defaultConfig)
    {
      var sline := Fields(TrimLeft(lines[i], ' '));
      LineAt(text, i);
      assert all[..i + 1] == all[..i] + [sline];
      ghost var open := if inMenuEntry then Some(cfg) else None;
      if |sline| == 0 {
        BodyStep(all[..i], sline, configs, open, defaultConfig);
        EmptyLine(cfg, sline);
        continue;
      }
      var panicked, default := ReadSet(sline, defaultConfig);
      if panicked {
        assert AnyFault(all) by { assert Faults(all[i]); }
        assert MeaningOf(all) == Panicked by { FaultPanics(all); }
        return Panicked;
      }
      if sline[0] == "menuentry" {
        HeaderStep(all[..i], sline, configs, open, defaultConfig);
        if inMenuEntry {
          if cfg.kernel != "" && cfg.initramfs != "" {
            configs := configs + [cfg];
          }
        }
        inMenuEntry := true;
        cfg := NEW_CONFIG;
        if |sline| > 1 {
          cfg := cfg.(name := BeforeDashes(Unescape(Join(sline[1..], " "))));
        }
        continue;
      }
      BodyStep(all[..i], sline, configs, open, defaultConfig);
      defaultConfig := default;
      if inMenuEntry {
        cfg := ReadDirective(cfg, sline);
      }
    }
    assert all[..|lines|] == all;
    ghost var saved, open := configs, if inMenuEntry then Some(cfg) else None;
    if inMenuEntry && cfg.kernel != "" && cfg.initramfs != "" {
      configs := configs + [cfg];
    }
    r := Parsed(configs, defaultConfig);
    FinishedReading(all, saved, open, defaultConfig);
  }

  lemma FinishedReading(lines: seq<Line>, configs: seq<Config>, open: Option<Config>, default: int)
    requires Reads(lines, configs, open, default)
    ensures MeaningOf(lines) ==
      Parsed(if open.Some? && Bootable(open.value) then configs + [open.value] else configs, default)
  {
  }

  /** Reading ends the program exactly on a bare set line or on set default without "=". */
  lemma PanicsIff(text: string)
    ensures Meaning(text).Panicked? <==>
      exists i :: 0 <= i < |LinesOf(text)| && (LinesOf(text)[i] == ["set"] || ["set", "default"] <= LinesOf(text)[i])
  {
    var lines := LinesOf(text);
    forall i | 0 <= i < |lines| ensures Faults(lines[i]) <==> lines[i] == ["set"] || ["set", "default"] <= lines[i] {
      FaultsSpelled(lines[i]);
    }
    hide Faults, LinesOf, Segments, Default;
  }

  lemma FaultsSpelled(line: Line)
    ensures Faults(line) <==> line == ["set"] || ["set", "default"] <= line
  {
    assert |line| > 1 ==> line[..2] == [line[0], line[1]];
  }

  lemma FaultPanics(lines: seq<Line>)
    requires AnyFault(lines)
    ensures MeaningOf(lines) == Panicked
  {
  }

  lemma EmptyLine(cfg: Config, line: Line)
    requires line == []
    ensures Absorb(cfg, line) == cfg && !SetsDefault(line) && !Faults(line) && !IsHeader(line)
  {
  }

  // No entry, the default one, or an index out of range.
  datatype Choice = NoEntry | Chosen(cfg: Config) | OutOfRange

  function Choose(r: Outcome): Choice {
    match r
    case Panicked => OutOfRange
    case Parsed(configs, index) =>
      if configs == [] then NoEntry
      else if 0 <= index < |configs| then Chosen(configs[index])
      else OutOfRange
  }

  method GetDefaultConfig(text: string) returns (c: Choice)
    ensures c == Choose(Meaning(text))
  {
    var r := ParseGrubCfg(text);
    if r.Panicked? {
      return OutOfRange;
    }
    if r.configs == [] {
      return NoEntry;
    }
    if !(0 <= r.default < |r.configs|) {
      return OutOfRange;
    }
    c := Chosen(r.configs[r.default]);
  }
}
