/** The generated /etc/fstab: what it says, that it reads back, and that booting from it shows
    the same filesystems as the provisioning mount tree. */
module Fstab {
  import opened Options
  import opened Text
  import opened MountTree
  import opened Sequences

  datatype Entry = Entry(name: string, point: string, format: string, opts: string, dump: nat, pass: nat)

  // ---------------------------------------------------------------- labels and options

  function LabelFlag(format: string): string { if format == "vfat" then "-n" else "-L" }

  /** The word after the first occurrence of the flag that has one, "" when there is none. */
  ghost predicate FirstAfter(flag: string, opts: seq<string>, r: string) {
    || (exists i :: 0 <= i < |opts| - 1 && opts[i] == flag && r == opts[i + 1] && flag !in opts[..i])
    || (r == "" && forall i :: 0 <= i < |opts| - 1 ==> opts[i] != flag)
  }

  /** The label: what the options give after -n for vfat and after -L for every other format. */
  ghost predicate IsLabel(format: string, opts: seq<string>, r: string) {
    && (format == "vfat" ==> FirstAfter("-n", opts, r))
    && (format != "vfat" ==> FirstAfter("-L", opts, r))
  }

  function LabelOf(format: string, opts: seq<string>): (r: string)
    ensures IsLabel(format, opts, r)
  {
    LabelFrom(LabelFlag(format), opts, 0)
  }

  function LabelFrom(flag: string, opts: seq<string>, i: nat): (r: string)
    requires i <= |opts| && flag !in opts[..i]
    ensures FirstAfter(flag, opts, r)
    decreases |opts| - i
  {
    if i >= |opts| - 1 then
      assert forall j :: 0 <= j < |opts| - 1 ==> opts[j] == opts[..i][j];
      ""
    else if opts[i] == flag then opts[i + 1]
    else
      assert opts[..i + 1] == opts[..i] + [opts[i]];
      LabelFrom(flag, opts, i + 1)
  }

  lemma FirstAfterIsUnique(flag: string, opts: seq<string>, a: string, b: string)
    requires FirstAfter(flag, opts, a) && FirstAfter(flag, opts, b)
    ensures a == b
  {
    if (exists i :: 0 <= i < |opts| - 1 && opts[i] == flag) {
      var i :| 0 <= i < |opts| - 1 && opts[i] == flag && a == opts[i + 1] && flag !in opts[..i];
      var j :| 0 <= j < |opts| - 1 && opts[j] == flag && b == opts[j + 1] && flag !in opts[..j];
      FirstIsLeast(opts, flag, i, j);
      FirstIsLeast(opts, flag, j, i);
    }
  }

  lemma FirstIsLeast(opts: seq<string>, flag: string, i: nat, j: nat)
    requires j <= |opts| && flag !in opts[..j] && i < |opts| && opts[i] == flag
    ensures j <= i
  {
    forall k | 0 <= k < j ensures opts[k] != flag {
      assert opts[..j][k] in opts[..j];
    }
  }

  method LabelFromOptions(format: string, opts: seq<string>) returns (r: string)
    ensures r == LabelOf(format, opts) && IsLabel(format, opts, r)
  {
    var flag := "-L";
    if format == "vfat" {
      flag := "-n";
    }
    var i := 0;
    while i < |opts| - 1
      invariant 0 <= i <= |opts| && flag !in opts[..i]
    {
      if opts[i] == flag {
        FirstAfterIsUnique(flag, opts, opts[i + 1], LabelOf(format, opts));
        return opts[i + 1];
      }
      assert opts[..i + 1] == opts[..i] + [opts[i]];
      i := i + 1;
    }
    r := "";
    assert forall j :: 0 <= j < |opts| - 1 ==> opts[j] == opts[..i][j];
    FirstAfterIsUnique(flag, opts, r, LabelOf(format, opts));
  }

  function DefaultOpts(format: string): string {
    match format
    case "vfat" => "defaults,nofail"
    case _ => "defaults"
  }

  // ---------------------------------------------------------------- rendering

  function FsLabel(f: Filesystem): string { LabelOf(f.format, f.options) }

  function EntryOf(f: Filesystem): Entry {
    Entry(FsLabel(f), f.point, f.format, DefaultOpts(f.format), 0, if f.point == "/" then 1 else 2)
  }

  /** One entry per labelled filesystem, in metadata order. */
  function Entries(fs: seq<Filesystem>): seq<Entry> {
    if fs == [] then []
    else
      var before, f := Entries(fs[..|fs| - 1]), fs[|fs| - 1];
      if FsLabel(f) == "" then before else before + [EntryOf(f)]
  }

  function Columns(e: Entry): seq<string> {
    ["LABEL=" + e.name, e.point, e.format, e.opts, Print(e.dump, 10), Print(e.pass, 10)]
  }

  // LABEL=%s  %s  %s  %s  %d  %d
  function Line(e: Entry): string { Join(Columns(e), "  ") }

  function Body(entries: seq<Entry>): string {
    if entries == [] then "" else Body(entries[..|entries| - 1]) + (Line(entries[|entries| - 1]) + "\n")
  }

  lemma BodySnoc(entries: seq<Entry>, e: Entry)
    ensures Body(entries + [e]) == Body(entries) + (Line(e) + "\n")
  {
    assert (entries + [e])[..|entries|] == entries;
  }

  method Render(fs: seq<Filesystem>) returns (b: string)
    ensures b == Body(Entries(fs))
  {
    b := "";
    for i := 0 to |fs|
      invariant b == Body(Entries(fs[..i]))
    {
      var f := fs[i];
      assert fs[..i + 1][..i] == fs[..i];
      var name := LabelFromOptions(f.format, f.options);
      if name == "" {
        continue;
      }
      var opts := DefaultOpts(f.format);
      var pass := 2;
      if f.point == "/" {
        pass := 1;
      }
      var e := Entry(name, f.point, f.format, opts, 0, pass);
      b := b + (Line(e) + "\n");
      BodySnoc(Entries(fs[..i]), e);
    }
    assert fs[..|fs|] == fs;
  }

  /** What Render writes of one filesystem with the given label; nothing when that is empty. */
  ghost function LineFor(f: Filesystem, name: string): string {
    var opts := if f.format == "vfat" then "defaults,nofail" else "defaults";
    var pass := if f.point == "/" then "1" else "2";
    if name == "" then ""
    else "LABEL=" + name + "  " + (f.point + "  " + (f.format + "  " + (opts + "  " + ("0" + "  " + pass)))) + "\n"
  }

  /** The text, filesystem by filesystem. */
  lemma TextSnoc(fs: seq<Filesystem>, f: Filesystem, name: string)
    requires IsLabel(f.format, f.options, name)
    ensures Body(Entries([])) == "" && Body(Entries(fs + [f])) == Body(Entries(fs)) + LineFor(f, name)
  {
    FirstAfterIsUnique(LabelFlag(f.format), f.options, name, FsLabel(f));
    assert (fs + [f])[..|fs|] == fs;
    hide LabelOf, FirstAfter;
    if name == "" {
      AppendEmpty(Body(Entries(fs)));
    } else {
      BodySnoc(Entries(fs), EntryOf(f));
      LineWritten(f);
    }
  }

  lemma OneDigit(n: nat)
    requires n < 10
    ensures Print(n, 10) == [('0' as int + n) as char]
  {
  }

  lemma LineWritten(f: Filesystem)
    requires FsLabel(f) != ""
    ensures Line(EntryOf(f)) + "\n" == LineFor(f, FsLabel(f))
  {
    var first, opts, pass := "LABEL=" + FsLabel(f), DefaultOpts(f.format), if f.point == "/" then "1" else "2";
    OneDigit(0);
    OneDigit(1);
    OneDigit(2);
    OptsByFormat(f.format);
    hide LabelOf, Print, DefaultOpts, Join;
    JoinCons(first, [f.point, f.format, opts, "0", pass], "  ");
    JoinCons(f.point, [f.format, opts, "0", pass], "  ");
    JoinCons(f.format, [opts, "0", pass], "  ");
    JoinCons(opts, ["0", pass], "  ");
    JoinCons("0", [pass], "  ");
    JoinOne(pass, "  ");
    assert Columns(EntryOf(f)) == [first] + [f.point, f.format, opts, "0", pass];
  }

  lemma OptsByFormat(format: string)
    ensures DefaultOpts(format) == if format == "vfat" then "defaults,nofail" else "defaults"
  {
  }

  // ---------------------------------------------------------------- reading it back

  function ParseNumber(s: string): Option<nat> {
    if s != "" && forall i :: 0 <= i < |s| ==> IsDigit(s[i], 10) then Some(Value(s, 10)) else None
  }

  /** One line by fields. */
  function ParseFields(fields: seq<string>): Option<Entry> {
    if |fields| != 6 || !("LABEL=" <= fields[0]) then None
    else
      var dump, pass := ParseNumber(fields[4]), ParseNumber(fields[5]);
      if dump.None? || pass.None? then None
      else Some(Entry(fields[0][6..], fields[1], fields[2], fields[3], dump.value, pass.value))
  }

  function ParseLine(line: string): seq<Entry> {
    var e := ParseFields(Fields(line));
    if e.None? then [] else [e.value]
  }

  /** A line that does not read, blank or not, is skipped. */
  function ParseLines(lines: seq<string>): seq<Entry> {
    if lines == [] then [] else ParseLines(lines[..|lines| - 1]) + ParseLine(lines[|lines| - 1])
  }

  function Parse(text: string): seq<Entry> { ParseLines(Split(text, '\n')) }

  /** The three columns taken from the metadata are single words. */
  ghost predicate PlainEntry(e: Entry) { Token(e.name) && Token(e.point) && Token(e.format) }

  lemma OptsAreToken(format: string)
    ensures Token(DefaultOpts(format))
  {
  }

  lemma NumberReadsBack(n: nat)
    ensures ParseNumber(Print(n, 10)) == Some(n) && Token(Print(n, 10))
  {
    ValueOfPrint(n, 10);
    DigitsAreToken(Print(n, 10), 10);
  }

  lemma LineReadsBack(e: Entry)
    requires PlainEntry(e) && Token(e.opts)
    ensures Fields(Line(e)) == Columns(e) && ParseFields(Fields(Line(e))) == Some(e)
  {
    NumberReadsBack(e.dump);
    NumberReadsBack(e.pass);
    assert Token("LABEL=" + e.name);
    FieldsOfJoin(Columns(e), "  ");
    assert ("LABEL=" + e.name)[6..] == e.name;
  }

  lemma {:induction false} JoinAvoids(parts: seq<string>, gap: string, c: char)
    requires c !in gap && forall i :: 0 <= i < |parts| ==> c !in parts[i]
    ensures c !in Join(parts, gap)
  {
    if |parts| > 1 {
      JoinAvoids(parts[1..], gap, c);
    }
  }

  lemma LineIsOneLine(e: Entry)
    requires PlainEntry(e) && Token(e.opts)
    ensures '\n' !in Line(e)
  {
    NumberReadsBack(e.dump);
    NumberReadsBack(e.pass);
    assert IsSpace('\n');
    JoinAvoids(Columns(e), "  ", '\n');
  }

  lemma {:induction false} ParseLinesAppend(a: seq<string>, b: seq<string>)
    ensures ParseLines(a + b) == ParseLines(a) + ParseLines(b)
  {
    if b == [] {
      AppendEmpty(a);
      AppendEmpty(ParseLines(a));
    } else {
      hide ParseLine;
      ParseLinesAppend(a, b[..|b| - 1]);
      AppendInit(a, b);
      Assoc(ParseLines(a), ParseLines(b[..|b| - 1]), ParseLine(b[|b| - 1]));
    }
  }

  lemma ParseOneLine(line: string)
    ensures ParseLines([line]) == ParseLine(line)
  {
    assert [line][..0] == [];
    AppendEmpty(ParseLine(line));
  }

  lemma BlankReadsNothing()
    ensures ParseLine("") == []
  {
  }

  // What the file says of one entry.
  function EntryText(e: Entry): string { Line(e) + "\n" }

  /** Whatever an entry's own text reads as is what it adds to the file. */
  function ReadOf(entries: seq<Entry>): seq<Entry> {
    if entries == [] then [] else ReadOf(entries[..|entries| - 1]) + Parse(EntryText(entries[|entries| - 1]))
  }

  lemma LastLineOfBody(text: string)
    requires text == "" || text[|text| - 1] == '\n'
    ensures var lines := Split(text, '\n'); lines[|lines| - 1] == ""
  {
    if text != "" {
      LastPartEmpty(text, '\n');
    }
  }

  /** After a text that ends in a newline, more text adds what it reads as. */
  lemma ParseGlue(a: string, b: string)
    requires a == "" || a[|a| - 1] == '\n'
    ensures Parse(a + b) == Parse(a) + Parse(b)
  {
    LastLineOfBody(a);
    SplitGlue(a, b, '\n');
    var lines := Split(a, '\n');
    var front := lines[..|lines| - 1];
    TakeSnoc(lines);
    hide Split, ParseLine;
    ParseLinesAppend(front, [""]);
    ParseOneLine("");
    BlankReadsNothing();
    AppendEmpty(ParseLines(front));
    ParseLinesAppend(front, Split(b, '\n'));
  }

  lemma {:induction false} BodyReads(entries: seq<Entry>)
    ensures Parse(Body(entries)) == ReadOf(entries)
    ensures Body(entries) == "" || Body(entries)[|Body(entries)| - 1] == '\n'
  {
    if entries == [] {
      ParseOneLine("");
      BlankReadsNothing();
    } else {
      hide Parse, Line;
      var before, e := entries[..|entries| - 1], entries[|entries| - 1];
      BodyReads(before);
      ParseGlue(Body(before), EntryText(e));
    }
  }

  lemma OneLineReads(e: Entry)
    requires '\n' !in Line(e)
    ensures Parse(EntryText(e)) == ParseLine(Line(e))
  {
    hide Line;
    SplitOne(Line(e), '\n');
    SplitAppend(Line(e), "", '\n');
    AppendEmpty(Line(e) + ['\n']);
    hide Split, ParseLine;
    ParseLinesAppend([Line(e)], [""]);
    ParseOneLine(Line(e));
    ParseOneLine("");
    BlankReadsNothing();
    AppendEmpty(ParseLine(Line(e)));
  }

  lemma PlainReadsBack(e: Entry)
    requires PlainEntry(e) && Token(e.opts)
    ensures Parse(EntryText(e)) == [e]
  {
    LineReadsBack(e);
    LineIsOneLine(e);
    OneLineReads(e);
    hide Parse, Line, ParseFields, Fields;
  }

  lemma {:induction false} BodyReadsBack(entries: seq<Entry>)
    requires forall e :: e in entries ==> PlainEntry(e) && Token(e.opts)
    ensures Parse(Body(entries)) == entries
  {
    BodyReads(entries);
    if entries != [] {
      hide Parse, Line, PlainEntry, Body;
      var before, e := entries[..|entries| - 1], entries[|entries| - 1];
      BodyReadsBack(before);
      BodyReads(before);
      PlainReadsBack(e);
      TakeSnoc(entries);
    }
  }

  /** Every column that comes out of reading a file is a single word. */
  lemma {:induction false} ParsedIsPlain(lines: seq<string>)
    ensures forall e :: e in ParseLines(lines) ==> Token(e.point) && Token(e.format) && (e.name != "" ==> Token(e.name))
  {
    if lines != [] {
      ParsedIsPlain(lines[..|lines| - 1]);
      ParsedLineIsPlain(lines[|lines| - 1]);
      hide ParseLine, Token;
    }
  }

  lemma ParsedLineIsPlain(line: string)
    ensures forall e :: e in ParseLine(line) ==> Token(e.point) && Token(e.format) && (e.name != "" ==> Token(e.name))
  {
    var fields := Fields(line);
    var e := ParseFields(fields);
    hide Fields;
    if e.Some? && e.value.name != "" {
      assert Token(fields[0]);
      assert forall i :: 0 <= i < |e.value.name| ==> e.value.name[i] == fields[0][i + 6];
    }
  }

  lemma {:induction false} EntriesFrom(fs: seq<Filesystem>)
    ensures forall e :: e in Entries(fs) ==> e.name != "" && Token(e.opts)
                                             && exists f :: f in fs && FsLabel(f) != "" && e == EntryOf(f)
    ensures forall f :: f in fs && FsLabel(f) != "" ==> EntryOf(f) in Entries(fs)
  {
    if fs != [] {
      var before, f := fs[..|fs| - 1], fs[|fs| - 1];
      EntriesFrom(before);
      OptsAreToken(f.format);
      assert fs == before + [f];
    }
  }

  /** The fstab round trip: reading the rendered file by fields gives back exactly the labelled
      filesystems, in order, if and only if their labels, points and formats are single words. */
  lemma RenderReadsBackIff(fs: seq<Filesystem>)
    ensures Parse(Body(Entries(fs))) == Entries(fs) <==> forall e :: e in Entries(fs) ==> PlainEntry(e)
  {
    EntriesFrom(fs);
    if forall e :: e in Entries(fs) ==> PlainEntry(e) {
      BodyReadsBack(Entries(fs));
    }
    ParsedIsPlain(Split(Body(Entries(fs)), '\n'));
    hide Body, Split, ParseLines, Token;
  }

  /** The labelled filesystems, in metadata order. */
  ghost function Labelled(fs: seq<Filesystem>): seq<Filesystem> {
    if fs == [] then []
    else Labelled(fs[..|fs| - 1]) + (if FsLabel(fs[|fs| - 1]) == "" then [] else [fs[|fs| - 1]])
  }

  /** The entry says of the filesystem what boot needs to know. */
  ghost predicate Says(e: Entry, f: Filesystem) {
    && e.name != "" && IsLabel(f.format, f.options, e.name)
    && e.point == f.point && e.format == f.format
    && e.dump == 0 && (e.pass == 1 || e.pass == 2) && (e.pass == 1 <==> f.point == "/")
    && (e.opts == "defaults,nofail" <==> f.format == "vfat") && (e.opts == "defaults" <==> f.format != "vfat")
  }

  lemma EntrySays(f: Filesystem)
    requires FsLabel(f) != ""
    ensures Says(EntryOf(f), f)
  {
    assert |"defaults"| != |"defaults,nofail"|;
  }

  lemma {:induction false} EntriesSay(fs: seq<Filesystem>)
    ensures |Entries(fs)| == |Labelled(fs)|
    ensures forall k :: 0 <= k < |Entries(fs)| ==> Says(Entries(fs)[k], Labelled(fs)[k])
  {
    if fs != [] {
      hide Says, EntryOf;
      EntriesSay(fs[..|fs| - 1]);
      if FsLabel(fs[|fs| - 1]) != "" {
        EntrySays(fs[|fs| - 1]);
      }
    }
  }

  /** Read back, the k-th line says of the k-th labelled filesystem: its first-match label, point,
      format and options, dump 0, and pass 1 precisely for the root. */
  lemma ReadBackSays(fs: seq<Filesystem>)
    requires forall f :: f in fs && FsLabel(f) != "" ==> Token(FsLabel(f)) && Token(f.point) && Token(f.format)
    ensures var read := Parse(Body(Entries(fs)));
      |read| == |Labelled(fs)| && forall k :: 0 <= k < |read| ==> Says(read[k], Labelled(fs)[k])
  {
    EntriesFrom(fs);
    EntriesSay(fs);
    RenderReadsBackIff(fs);
    hide Parse, Body, Entries, Labelled, Says, FsLabel, Token;
    assert forall e :: e in Entries(fs) ==> PlainEntry(e);
  }

  // ---------------------------------------------------------------- booting from it

  /** What boot mounts: every entry that is not swap. */
  ghost predicate Boots(e: Entry) { e.format != "swap" }

  ghost function EntryPoints(b: seq<Entry>): seq<string> {
    seq(|b|, i requires 0 <= i < |b| => b[i].point)
  }

  /** Boot mounts exactly the non-swap entries of the file, in any order with ancestors first. */
  ghost predicate BootOrder(entries: seq<Entry>, b: seq<Entry>) {
    (forall e :: e in b <==> e in entries && Boots(e)) && AncestorsFirst(EntryPoints(b))
  }

  ghost predicate Mountable(f: Filesystem) { f.format != "swap" }

  /** Every non-swap filesystem is labelled, has a mount point of its own and a label of its own,
      and the root filesystem is the primary device. */
  ghost predicate BootableLayout(fs: seq<Filesystem>, blockDev: string, fsType: string) {
    && (forall f :: f in fs && Mountable(f) ==> FsLabel(f) != "" && GoodPoint(f.point))
    && (forall f, g :: f in fs && g in fs && Mountable(f) && Mountable(g) && f.point == g.point ==> f == g)
    && (forall f, g :: f in fs && g in fs && FsLabel(f) != "" && FsLabel(f) == FsLabel(g) ==> f == g)
    && (exists f :: f in fs && Mountable(f) && f.point == "/" && f.device == blockDev && f.format == fsType)
  }

  lemma MountableIsBooted(fs: seq<Filesystem>, blockDev: string, fsType: string, b: seq<Entry>, g: Filesystem)
    requires BootableLayout(fs, blockDev, fsType) && BootOrder(Entries(fs), b) && g in fs && Mountable(g)
    ensures exists i :: 0 <= i < |b| && b[i] == EntryOf(g)
  {
    EntriesFrom(fs);
    assert EntryOf(g) in b;
  }

  lemma BootedIsMountable(fs: seq<Filesystem>, b: seq<Entry>, i: nat) returns (f: Filesystem)
    requires BootOrder(Entries(fs), b) && i < |b|
    ensures f in fs && Mountable(f) && b[i] == EntryOf(f)
  {
    EntriesFrom(fs);
    assert b[i] in b;
    f :| f in fs && FsLabel(f) != "" && b[i] == EntryOf(f);
  }

  lemma BootPointsAreGood(fs: seq<Filesystem>, blockDev: string, fsType: string, b: seq<Entry>)
    requires BootableLayout(fs, blockDev, fsType) && BootOrder(Entries(fs), b)
    ensures forall p :: p in EntryPoints(b) ==> GoodPoint(p)
  {
    hide FsLabel, DefaultOpts, GoodPoint, BootOrder;
    forall i | 0 <= i < |b| ensures GoodPoint(b[i].point) {
      var f := BootedIsMountable(fs, b, i);
    }
  }

  /** At boot, the entry whose mount shows a path is the longest-prefix filesystem. */
  lemma BootView(fs: seq<Filesystem>, blockDev: string, fsType: string, b: seq<Entry>, path: string) returns (f: Filesystem)
    requires BootableLayout(fs, blockDev, fsType) && BootOrder(Entries(fs), b) && MountTree.AbsolutePath(path)
    ensures f in fs && Mountable(f) && Covers(f.point, path)
    ensures var w := LastCover(EntryPoints(b), path); w >= 0 && b[w] == EntryOf(f)
    ensures forall g :: g in fs && Mountable(g) && Covers(g.point, path) ==> |g.point| <= |f.point|
  {
    var points, w := EntryPoints(b), LastCover(EntryPoints(b), path);
    BootPointsAreGood(fs, blockDev, fsType, b);
    LatestIsLongest(points, path);
    var root :| root in fs && Mountable(root) && root.point == "/";
    assert Covers(root.point, path);
    hide FsLabel, DefaultOpts, GoodPoint, Covers, LastCover, BootableLayout, BootOrder, AncestorsFirst;
    forall g | g in fs && Mountable(g) && Covers(g.point, path) ensures w >= 0 && |g.point| <= |points[w]| {
      MountableIsBooted(fs, blockDev, fsType, b, g);
      var i :| 0 <= i < |b| && b[i] == EntryOf(g);
      assert points[i] == g.point;
    }
    f := BootedIsMountable(fs, b, w);
  }

  /** Nothing that the entry's own text reads as is mounted at boot. */
  ghost predicate Quiet(e: Entry) { forall x :: x in Parse(EntryText(e)) ==> !Boots(x) }

  lemma SwapFields(e: Entry)
    requires Token(e.opts) && Token(e.format)
    ensures Fields(Line(e)) == Fields(Join(Columns(e)[..2], "  ")) + Columns(e)[2..]
  {
    NumberReadsBack(e.dump);
    NumberReadsBack(e.pass);
    var left, right := Columns(e)[..2], Columns(e)[2..];
    assert Columns(e) == left + right;
    hide Fields, Join;
    JoinAppend(left, right, "  ");
    FieldsOfJoin(right, "  ");
    Assoc(Join(left, "  "), "  ", Join(right, "  "));
    FieldsGap(Join(left, "  "), "  ", Join(right, "  "));
  }

  lemma SwapReadsAsSwap(e: Entry)
    requires e.format == "swap" && Token(e.opts)
    ensures forall x :: x in ParseLine(Line(e)) ==> !Boots(x)
  {
    SwapFields(e);
    hide Fields, Line, Join;
    assert |Columns(e)[2..]| == 4 && Columns(e)[2..][0] == "swap";
    assert |Fields(Line(e))| == 6 ==> Fields(Line(e))[2] == "swap";
    hide Columns;
  }

  /** A swap line without newlines in its columns mounts nothing, however many words they are. */
  lemma SwapIsQuiet(e: Entry)
    requires e.format == "swap" && Token(e.opts) && '\n' !in e.name && '\n' !in e.point
    ensures Quiet(e)
  {
    NumberReadsBack(e.dump);
    NumberReadsBack(e.pass);
    assert IsSpace('\n');
    JoinAvoids(Columns(e), "  ", '\n');
    OneLineReads(e);
    SwapReadsAsSwap(e);
    hide Line, ParseLine;
  }

  /** Plain columns for what boot mounts; the other lines need only be quiet. */
  ghost predicate ReadableForBoot(entries: seq<Entry>) {
    forall e :: e in entries ==> if Boots(e) then PlainEntry(e) else Quiet(e)
  }

  lemma {:induction false} ReadForBoot(entries: seq<Entry>)
    requires ReadableForBoot(entries) && forall e :: e in entries ==> Token(e.opts)
    ensures forall x :: x in ReadOf(entries) && Boots(x) <==> x in entries && Boots(x)
  {
    if entries != [] {
      hide Parse, EntryText, PlainEntry, Boots;
      var before, e := entries[..|entries| - 1], entries[|entries| - 1];
      ReadForBoot(before);
      TakeSnoc(entries);
      if Boots(e) {
        PlainReadsBack(e);
      }
    }
  }

  /** Provision-time view equals boot-time view: outside the mount points of vfat filesystems
      (which the mount tree leaves to others), every path belongs to the same filesystem, the
      same device under the same type, in the provisioning mount tree and after booting from the
      generated file. Only what boot mounts needs plain columns. */
  lemma BootShowsTheSame(fs: seq<Filesystem>, blockDev: string, fsType: string, b: seq<Entry>, path: string)
    requires BootableLayout(fs, blockDev, fsType) && ReadableForBoot(Entries(fs))
    requires BootOrder(Parse(Body(Entries(fs))), b)
    requires MountTree.AbsolutePath(path) && forall f :: f in fs && f.format == "vfat" ==> !Covers(f.point, path)
    ensures var tree := Tree(blockDev, fsType, fs, |Order(fs)|);
      && View(tree, path) >= 0 && LastCover(EntryPoints(b), path) >= 0
      && var m, e := tree[View(tree, path)], b[LastCover(EntryPoints(b), path)];
      && exists f :: f in fs && m.device == f.device && m.fstype == f.format && e == EntryOf(f)
                     && forall g :: g in fs && FsLabel(g) == e.name ==> g == f
  {
    EntriesFrom(fs);
    BodyReads(Entries(fs));
    ReadForBoot(Entries(fs));
    hide Parse, Body, ReadOf, ReadableForBoot;
    assert BootOrder(Entries(fs), b);
    SameViewAtBoot(fs, blockDev, fsType, b, path);
  }

  lemma SameViewAtBoot(fs: seq<Filesystem>, blockDev: string, fsType: string, b: seq<Entry>, path: string)
    requires BootableLayout(fs, blockDev, fsType) && BootOrder(Entries(fs), b)
    requires MountTree.AbsolutePath(path) && forall f :: f in fs && f.format == "vfat" ==> !Covers(f.point, path)
    ensures var tree := Tree(blockDev, fsType, fs, |Order(fs)|);
      && View(tree, path) >= 0 && LastCover(EntryPoints(b), path) >= 0
      && var m, e := tree[View(tree, path)], b[LastCover(EntryPoints(b), path)];
      && exists f :: f in fs && m.device == f.device && m.fstype == f.format && e == EntryOf(f)
                     && forall g :: g in fs && FsLabel(g) == e.name ==> g == f
  {
    var f := BootView(fs, blockDev, fsType, b, path);
    assert CleanExtras(fs);
    MountView(blockDev, fsType, fs, path);
    var tree := Tree(blockDev, fsType, fs, |Order(fs)|);
    var i := View(tree, path);
    if f.point == "/" {
      forall g | g in fs && Keeps(g) ensures !Covers(g.point, path) {
        assert CleanPoint(g.point);
      }
    } else {
      assert Keeps(f);
      var g := Order(fs)[i - 1];
      CoversNest(f.point, g.point, path);
      assert g == f;
    }
    assert tree[i].device == f.device && tree[i].fstype == f.format;
  }

  // ---------------------------------------------------------------- concrete filesystems

  /** A root filesystem and an EFI partition, each labelled with the flag of its format. */
  lemma RootAndEfi()
    ensures var root, efi := Filesystem("/dev/sda2", "ext4", "/", ["-L", "ROOT"]),
                             Filesystem("/dev/sda1", "vfat", "/boot/efi", ["-F", "32", "-n", "EFI"]);
      Entries([root, efi]) == [Entry("ROOT", "/", "ext4", "defaults", 0, 1),
                               Entry("EFI", "/boot/efi", "vfat", "defaults,nofail", 0, 2)]
  {
    var root, efi := Filesystem("/dev/sda2", "ext4", "/", ["-L", "ROOT"]),
                     Filesystem("/dev/sda1", "vfat", "/boot/efi", ["-F", "32", "-n", "EFI"]);
    assert "vfat"[0] != "ext4"[0];
    LabelAfterFlag(root.options, 0);
    LabelAfterFlag(efi.options, 2);
    FirstAfterIsUnique("-L", root.options, "ROOT", FsLabel(root));
    FirstAfterIsUnique("-n", efi.options, "EFI", FsLabel(efi));
    hide LabelOf, FirstAfter;
    assert EntryOf(root) == Entry("ROOT", "/", "ext4", "defaults", 0, 1);
    assert EntryOf(efi) == Entry("EFI", "/boot/efi", "vfat", "defaults,nofail", 0, 2);
    hide EntryOf, FsLabel;
    assert [root, efi][..1] == [root] && [root][..0] == [];
    assert Entries([root]) == [EntryOf(root)];
  }

  /** A vfat filesystem that is labelled with the flag of the others is left out. */
  lemma VfatIgnoresL(device: string, point: string, name: string)
    ensures Entries([Filesystem(device, "vfat", point, ["-L", name])]) == []
  {
    var f := Filesystem(device, "vfat", point, ["-L", name]);
    assert "-L"[1] != "-n"[1] && f.options[0] != "-n";
    assert FirstAfter("-n", f.options, "");
    FirstAfterIsUnique("-n", f.options, "", FsLabel(f));
    assert [f][..0] == [];
    hide LabelOf, FirstAfter;
  }

  lemma LabelAfterFlag(opts: seq<string>, i: nat)
    requires i + 1 < |opts| && opts[i] !in opts[..i]
    ensures FirstAfter(opts[i], opts, opts[i + 1])
  {
  }

  /** A label with whitespace in it, given once with the format's flag, does not read back. */
  lemma SpacedLabelIsLost(device: string, format: string, point: string, name: string)
    requires exists i :: 0 <= i < |name| && IsSpace(name[i])
    ensures var fs := [Filesystem(device, format, point, [if format == "vfat" then "-n" else "-L", name])];
      FsLabel(fs[0]) == name && Parse(Body(Entries(fs))) != Entries(fs)
  {
    assert !Token(name);
    var f := Filesystem(device, format, point, [LabelFlag(format), name]);
    assert LabelFlag(format) !in f.options[..0] && f.options[0] == LabelFlag(format) && name == f.options[1];
    assert FirstAfter(LabelFlag(format), f.options, name);
    FirstAfterIsUnique(LabelFlag(format), f.options, name, FsLabel(f));
    assert name != "" && FsLabel(f) == name;
    assert [f][..0] == [] && Entries([]) == [];
    AppendEmpty([EntryOf(f)]);
    assert Entries([f]) == [EntryOf(f)];
    hide LabelOf, LabelFlag, Token;
    assert EntryOf(f).name == name;
    assert !PlainEntry(EntryOf(f));
    assert EntryOf(f) in Entries([f]);
    RenderReadsBackIff([f]);
  }
}
