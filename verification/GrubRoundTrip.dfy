/** What the reading of a grub.cfg means: the segments are a cut of the file, files concatenate,
    and printed configurations read back. */
module GrubRoundTrip {
  import opened Options
  import opened Sequences
  import opened Text
  import opened GrubConfig

  // ---------------------------------------------------------------- the cut

  ghost function Flatten(segments: seq<Segment>): seq<Line> {
    if segments == [] then []
    else
      var last := segments[|segments| - 1];
      Flatten(segments[..|segments| - 1]) + ([last.header] + last.body)
  }

  ghost predicate NoHeader(lines: seq<Line>) { forall i :: 0 <= i < |lines| ==> !IsHeader(lines[i]) }

  lemma FlattenSnoc(segments: seq<Segment>, s: Segment)
    ensures Flatten(segments + [s]) == Flatten(segments) + ([s.header] + s.body)
  {
    assert (segments + [s])[..|segments|] == segments;
  }

  lemma FlattenGrows(segments: seq<Segment>, line: Line)
    requires segments != []
    ensures var last := segments[|segments| - 1];
      Flatten(segments[..|segments| - 1] + [last.(body := last.body + [line])]) == Flatten(segments) + [line]
  {
    var before, last := segments[..|segments| - 1], segments[|segments| - 1];
    FlattenSnoc(before, last.(body := last.body + [line]));
    FlattenSnoc(before, last);
    TakeSnoc(segments);
    hide Flatten;
    Assoc([last.header], last.body, [line]);
    Assoc(Flatten(before), [last.header] + last.body, [line]);
  }

  lemma CutSnoc(lines: seq<Line>, k: nat)
    requires k < |lines|
    ensures var n := |lines| - 1;
      lines[..n] + [lines[n]] == lines && lines[..n][..k] == lines[..k] && lines[k..] == lines[..n][k..] + [lines[n]]
  {
  }

  lemma {:induction false} CutPoint(lines: seq<Line>) returns (k: nat)
    ensures k <= |lines| && NoHeader(lines[..k]) && lines[k..] == Flatten(Segments(lines))
    ensures Segments(lines) == [] ==> k == |lines|
  {
    if lines == [] {
      k := 0;
    } else {
      var n := |lines| - 1;
      var before, line := Segments(lines[..n]), lines[n];
      k := CutPoint(lines[..n]);
      SegmentsSnoc(lines[..n], line);
      FlattenEmpty();
      hide Flatten, Segments;
      CutSnoc(lines, k);
      if IsHeader(line) {
        FlattenSnoc(before, Segment(line, []));
        assert [line] + [] == [line];
      } else if before == [] {
        k := |lines|;
      } else {
        FlattenGrows(before, line);
      }
    }
  }

  lemma FlattenEmpty()
    ensures Flatten([]) == []
  {
  }

  lemma {:induction false} SegmentsShape(lines: seq<Line>)
    ensures forall s :: s in Segments(lines) ==> IsHeader(s.header) && NoHeader(s.body)
  {
    if lines != [] {
      hide IsHeader;
      SegmentsShape(lines[..|lines| - 1]);
    }
  }

  /** The segments are the file from its first menuentry line on, cut exactly at those lines. */
  lemma SegmentsAreTheCut(lines: seq<Line>)
    ensures exists k :: 0 <= k <= |lines| && NoHeader(lines[..k]) && lines[k..] == Flatten(Segments(lines))
    ensures forall s :: s in Segments(lines) ==> IsHeader(s.header) && NoHeader(s.body)
  {
    var k := CutPoint(lines);
    SegmentsShape(lines);
  }

  lemma {:induction false} LastOfIsLast(body: seq<Line>, kind: Kind)
    ensures match LastOf(body, kind)
      case None => forall i :: 0 <= i < |body| ==> KindOf(body[i]) != kind
      case Some(l) => exists i :: 0 <= i < |body| && body[i] == l && KindOf(l) == kind
                                  && forall j :: i < j < |body| ==> KindOf(body[j]) != kind
  {
    if body != [] {
      var n := |body| - 1;
      hide KindOf;
      if KindOf(body[n]) == kind {
        assert body[n] == LastOf(body, kind).value;
      } else {
        LastOfIsLast(body[..n], kind);
        if LastOf(body, kind).Some? {
          var l := LastOf(body, kind).value;
          var i :| 0 <= i < n && body[..n][i] == l && KindOf(l) == kind
                   && forall j :: i < j < n ==> KindOf(body[..n][j]) != kind;
          assert forall j :: i < j < n ==> body[..n][j] == body[j];
          assert body[i] == l;
        }
      }
    }
  }

  /** The configurations are, in order, what the segments say that have a kernel and an initrd. */
  lemma {:induction false} BootableIff(segments: seq<Segment>, c: Config)
    ensures c in BootableOf(segments) <==> c.kernel != "" && c.initramfs != "" && exists s :: s in segments && Read(s) == c
  {
    if segments != [] {
      hide Read;
      var before, s := segments[..|segments| - 1], segments[|segments| - 1];
      BootableIff(before, c);
      TakeSnoc(segments);
    }
  }

  // ---------------------------------------------------------------- escapes

  lemma UnescapeCons(c: char, s: string)
    ensures !("\\$" <= [c] + s) ==> Unescape([c] + s) == [c] + Unescape(s)
    ensures Unescape("\\$" + s) == "$" + Unescape(s)
  {
    assert ([c] + s)[1..] == s && ("\\$" + s)[2..] == s;
  }

  lemma {:induction false} NothingToUnescape(s: string)
    requires !Contains(s, "\\$")
    ensures Unescape(s) == s
  {
    if s != "" {
      assert s[0..] == s;
      forall i | 0 <= i <= |s[1..]| ensures !("\\$" <= s[1..][i..]) {
        assert s[1..][i..] == s[i + 1..];
      }
      NothingToUnescape(s[1..]);
    }
  }

  /** Unescaping leaves a text without \$ alone and turns every \$ into $, wherever the text around it
      is cut. */
  lemma {:induction false} UnescapeLaws(a: string, b: string)
    ensures !Contains(a, "\\$") ==> Unescape(a) == a
    ensures Unescape(a + ("\\$" + b)) == Unescape(a) + ("$" + Unescape(b))
  {
    if !Contains(a, "\\$") {
      NothingToUnescape(a);
    }
    hide Unescape, Contains;
    if a == "" {
      AppendEmpty("\\$" + b);
      UnescapeCons('$', b);
      AppendEmpty("$" + Unescape(b));
      assert Unescape("") == "" by { NothingToUnescape(""); }
    } else if "\\$" <= a {
      var rest := a[2..];
      assert a == "\\$" + rest;
      UnescapeLaws(rest, b);
      UnescapeCons('$', rest);
      UnescapeCons('$', rest + ("\\$" + b));
      Assoc("\\$", rest, "\\$" + b);
      Assoc("$", Unescape(rest), "$" + Unescape(b));
    } else {
      var rest := a[1..];
      UnescapeLaws(rest, b);
      HeadTail(a, "\\$" + b);
      HeadTail(a, "");
      UnescapeCons(a[0], rest);
      UnescapeCons(a[0], rest + ("\\$" + b));
      Assoc([a[0]], Unescape(rest), "$" + Unescape(b));
      assert rest != "" ==> a[1] == rest[0];
    }
  }

  // ---------------------------------------------------------------- concatenation

  lemma {:induction false} SegmentsAppend(a: seq<Line>, b: seq<Line>)
    requires b != [] && IsHeader(b[0])
    ensures Segments(a + b) == Segments(a) + Segments(b)
    ensures Segments(b) != []
  {
    var front, line := b[..|b| - 1], b[|b| - 1];
    AppendSnoc(a, b);
    TakeSnoc(b);
    SegmentsSnoc(a + front, line);
    SegmentsSnoc(front, line);
    if front == [] {
      AppendEmpty(a);
      assert Segments(front) == [];
    } else {
      SegmentsAppend(a, front);
      hide Segments, IsHeader;
      var left, right := Segments(a), Segments(front);
      AppendInit(left, right);
      Assoc(left, right, [Segment(line, [])]);
      var last := right[|right| - 1];
      Assoc(left, right[..|right| - 1], [last.(body := last.body + [line])]);
    }
  }

  lemma BootableSnoc(a: seq<Segment>, s: Segment)
    ensures BootableOf(a + [s]) == BootableOf(a) + (if Bootable(Read(s)) then [Read(s)] else [])
  {
    assert (a + [s])[..|a|] == a;
  }

  lemma {:induction false} BootableAppend(a: seq<Segment>, b: seq<Segment>)
    ensures BootableOf(a + b) == BootableOf(a) + BootableOf(b)
  {
    if b == [] {
      AppendEmpty(a);
    } else {
      hide BootableOf, Read, Bootable;
      var front, s := b[..|b| - 1], b[|b| - 1];
      BootableAppend(a, front);
      BootableSnoc(a + front, s);
      BootableSnoc(front, s);
      AppendSnoc(a, b);
      TakeSnoc(b);
      Assoc(BootableOf(a), BootableOf(front), if Bootable(Read(s)) then [Read(s)] else []);
    }
  }

  lemma {:induction false} DefaultAppend(a: seq<Line>, b: seq<Line>)
    ensures Default(a + b) == if exists i :: 0 <= i < |b| && SetsDefault(b[i]) then Default(b) else Default(a)
  {
    if b == [] {
      assert a + b == a;
    } else {
      var n := |b| - 1;
      DefaultAppend(a, b[..n]);
      assert (a + b)[..|a + b| - 1] == a + b[..n];
      if !SetsDefault(b[n]) && exists i :: 0 <= i < |b| && SetsDefault(b[i]) {
        var i :| 0 <= i < |b| && SetsDefault(b[i]);
        assert b[..n][i] == b[i];
      }
    }
  }

  lemma FieldLinesAppend(a: seq<string>, b: seq<string>)
    ensures FieldLines(a + b) == FieldLines(a) + FieldLines(b)
  {
  }

  ghost predicate SetsAny(lines: seq<Line>) { exists i :: 0 <= i < |lines| && SetsDefault(lines[i]) }

  lemma ConcatenatedLines(a: seq<Line>, b: seq<Line>)
    requires b != [] && IsHeader(b[0])
    ensures AnyFault(a + b) <==> AnyFault(a) || AnyFault(b)
    ensures BootableOf(Segments(a + b)) == BootableOf(Segments(a)) + BootableOf(Segments(b))
    ensures Default(a + b) == if SetsAny(b) then Default(b) else Default(a)
  {
    SegmentsAppend(a, b);
    BootableAppend(Segments(a), Segments(b));
    DefaultAppend(a, b);
    hide Segments, BootableOf, Default, Faults;
    assert forall i :: 0 <= i < |a| ==> a[i] == (a + b)[i];
    assert forall i :: 0 <= i < |b| ==> b[i] == (a + b)[|a| + i];
  }

  lemma LinesOfJoined(a: string, b: string)
    ensures LinesOf(a + "\n" + b) == LinesOf(a) + LinesOf(b)
  {
    SplitAppend(a, b, '\n');
    FieldLinesAppend(Split(a, '\n'), Split(b, '\n'));
    assert a + ['\n'] + b == a + "\n" + b;
  }

  /** Reading a file that continues with a menuentry line: the config lists concatenate, the
      later default wins, and a fault in either part ends the program. */
  lemma ConcatenatedFiles(a: string, b: string)
    requires IsHeader(LinesOf(b)[0])
    ensures Meaning(a + "\n" + b) ==
      if Meaning(a).Panicked? || Meaning(b).Panicked? then Panicked
      else Parsed(Meaning(a).configs + Meaning(b).configs,
                  if SetsAny(LinesOf(b)) then Meaning(b).default else Meaning(a).default)
  {
    LinesOfJoined(a, b);
    ConcatenatedLines(LinesOf(a), LinesOf(b));
  }
}
