/** Strings the way Go's standard library cuts them: lines, whitespace-separated fields, joins,
    and octal and decimal numbers. */
module Text {
  import opened Sequences

  // unicode.IsSpace
  predicate IsSpace(c: char) {
    || '\t' <= c <= '\r' || c == ' ' || c == '\U{85}' || c == '\U{A0}' || c == '\U{1680}'
    || '\U{2000}' <= c <= '\U{200a}' || c == '\U{2028}' || c == '\U{2029}' || c == '\U{202f}'
    || c == '\U{205f}' || c == '\U{3000}'
  }

  /** The white space of Unicode, one by one: the ASCII controls and the blank, NEL, the no-break space
      and the separators of category Z. */
  lemma SpacesListed(c: char)
    ensures IsSpace(c) <==>
      || c in {'\t', '\n', '\U{0b}', '\U{0c}', '\r', ' ', '\U{85}', '\U{a0}', '\U{1680}', '\U{2000}', '\U{2001}'}
      || c in {'\U{2002}', '\U{2003}', '\U{2004}', '\U{2005}', '\U{2006}', '\U{2007}', '\U{2008}', '\U{2009}'}
      || c in {'\U{200a}', '\U{2028}', '\U{2029}', '\U{202f}', '\U{205f}', '\U{3000}'}
  {
  }

  // A non-empty run without whitespace: what strings.Fields returns.
  predicate Token(s: string) { s != "" && forall i :: 0 <= i < |s| ==> !IsSpace(s[i]) }

  predicate Contains(s: string, sub: string) { exists i | 0 <= i <= |s| :: sub <= s[i..] }

  // ---------------------------------------------------------------- lines

  function Split(s: string, sep: char): (parts: seq<string>)
    ensures parts != []
    ensures forall i :: 0 <= i < |parts| ==> sep !in parts[i]
  {
    if s == "" then [""]
    else
      var rest := Split(s[1..], sep);
      if s[0] == sep then [""] + rest else [[s[0]] + rest[0]] + rest[1..]
  }

  function Join(parts: seq<string>, sep: string): string {
    if parts == [] then ""
    else if |parts| == 1 then parts[0]
    else parts[0] + sep + Join(parts[1..], sep)
  }

  lemma SplitCons(c: char, s: string, sep: char)
    ensures Split([c] + s, sep) ==
      if c == sep then [""] + Split(s, sep) else [[c] + Split(s, sep)[0]] + Split(s, sep)[1..]
  {
    assert ([c] + s)[1..] == s;
  }

  lemma {:induction false} SplitAppend(a: string, b: string, sep: char)
    ensures Split(a + [sep] + b, sep) == Split(a, sep) + Split(b, sep)
  {
    if a == "" {
      assert a + [sep] + b == [sep] + b;
      SplitCons(sep, b, sep);
    } else {
      hide Split;
      SplitAppend(a[1..], b, sep);
      Assoc(a, [sep], b);
      Assoc(a[1..], [sep], b);
      HeadTail(a, [sep] + b);
      SplitCons(a[0], a[1..] + [sep] + b, sep);
      SplitCons(a[0], a[1..], sep);
      var front, back := Split(a[1..], sep), Split(b, sep);
      HeadTail(front, back);
      Assoc(if a[0] == sep then [""] else [[a[0]] + front[0]], if a[0] == sep then front else front[1..], back);
    }
  }

  lemma {:induction false} LastPartEmpty(a: string, sep: char)
    requires a != ""
    ensures var parts := Split(a, sep); parts[|parts| - 1] == "" <==> a[|a| - 1] == sep
  {
    if |a| > 1 {
      LastPartEmpty(a[1..], sep);
    }
  }

  /** After a text whose last part is empty, more text just adds its parts. */
  lemma SplitGlue(a: string, b: string, sep: char)
    requires var parts := Split(a, sep); parts[|parts| - 1] == ""
    ensures var parts := Split(a, sep); Split(a + b, sep) == parts[..|parts| - 1] + Split(b, sep)
  {
    if a == "" {
      assert a + b == b;
    } else {
      LastPartEmpty(a, sep);
      var front := a[..|a| - 1];
      SplitAppend(front, "", sep);
      SplitAppend(front, b, sep);
      assert a == front + [sep] + "" && a + b == front + [sep] + b;
      assert (Split(front, sep) + [""])[..|Split(front, sep)|] == Split(front, sep);
    }
  }

  lemma {:induction false} SplitOne(s: string, sep: char)
    requires sep !in s
    ensures Split(s, sep) == [s]
  {
    if s != "" {
      SplitOne(s[1..], sep);
      assert s == [s[0]] + s[1..];
    }
  }

  lemma {:induction false} SplitJoin(parts: seq<string>, sep: char)
    requires parts != [] && forall i :: 0 <= i < |parts| ==> sep !in parts[i]
    ensures Split(Join(parts, [sep]), sep) == parts
  {
    SplitOne(parts[0], sep);
    if |parts| > 1 {
      SplitJoin(parts[1..], sep);
      SplitAppend(parts[0], Join(parts[1..], [sep]), sep);
    }
  }

  lemma {:induction false} JoinSplit(s: string, sep: char)
    ensures Join(Split(s, sep), [sep]) == s
  {
    if s != "" {
      JoinSplit(s[1..], sep);
      var rest := Split(s[1..], sep);
      if s[0] == sep {
        assert ([""] + rest)[1..] == rest;
      } else {
        var parts := [[s[0]] + rest[0]] + rest[1..];
        assert parts[1..] == rest[1..];
      }
    }
  }

  lemma JoinOne(part: string, sep: string)
    ensures Join([part], sep) == part
  {
  }

  lemma JoinCons(part: string, rest: seq<string>, sep: string)
    requires rest != []
    ensures Join([part] + rest, sep) == part + sep + Join(rest, sep)
  {
    assert ([part] + rest)[1..] == rest;
  }

  lemma {:induction false} JoinAppend(a: seq<string>, b: seq<string>, sep: string)
    requires a != [] && b != []
    ensures Join(a + b, sep) == Join(a, sep) + sep + Join(b, sep)
  {
    if |a| == 1 {
      assert (a + b)[1..] == b;
    } else {
      JoinAppend(a[1..], b, sep);
      assert (a + b)[1..] == a[1..] + b;
    }
  }

  // ---------------------------------------------------------------- fields

  function TokenLength(s: string): (n: nat)
    ensures n <= |s|
    ensures forall i :: 0 <= i < n ==> !IsSpace(s[i])
    ensures n < |s| ==> IsSpace(s[n])
  {
    if s == "" || IsSpace(s[0]) then 0 else 1 + TokenLength(s[1..])
  }

  function Fields(s: string): (fields: seq<string>)
    ensures forall i :: 0 <= i < |fields| ==> Token(fields[i])
    decreases |s|
  {
    if s == "" then []
    else if IsSpace(s[0]) then Fields(s[1..])
    else
      var n := TokenLength(s);
      [s[..n]] + Fields(s[n..])
  }

  lemma {:induction false} TokenLengthOf(t: string, rest: string)
    requires forall i :: 0 <= i < |t| ==> !IsSpace(t[i])
    requires rest == "" || IsSpace(rest[0])
    ensures TokenLength(t + rest) == |t|
  {
    if t == "" {
      assert t + rest == rest;
    } else {
      TokenLengthOf(t[1..], rest);
      assert (t + rest)[1..] == t[1..] + rest;
    }
  }

  lemma FieldsToken(t: string, rest: string)
    requires Token(t) && (rest == "" || IsSpace(rest[0]))
    ensures Fields(t + rest) == [t] + Fields(rest)
  {
    TokenLengthOf(t, rest);
    assert (t + rest)[..|t|] == t && (t + rest)[|t|..] == rest;
  }

  lemma FieldsSpace(c: char, rest: string)
    requires IsSpace(c)
    ensures Fields([c] + rest) == Fields(rest)
  {
    assert ([c] + rest)[1..] == rest;
  }

  lemma {:induction false} FieldsSkipSpaces(pad: string, rest: string)
    requires forall i :: 0 <= i < |pad| ==> IsSpace(pad[i])
    ensures Fields(pad + rest) == Fields(rest)
  {
    if pad == "" {
      assert pad + rest == rest;
    } else {
      FieldsSkipSpaces(pad[1..], rest);
      FieldsSpace(pad[0], pad[1..] + rest);
      assert pad + rest == [pad[0]] + (pad[1..] + rest);
    }
  }

  lemma {:induction false} FieldsOfJoin(tokens: seq<string>, gap: string)
    requires forall i :: 0 <= i < |tokens| ==> Token(tokens[i])
    requires gap != "" && forall i :: 0 <= i < |gap| ==> IsSpace(gap[i])
    ensures Fields(Join(tokens, gap)) == tokens
  {
    if |tokens| == 1 {
      FieldsToken(tokens[0], "");
      assert tokens[0] + "" == tokens[0];
    } else if tokens != [] {
      var rest := Join(tokens[1..], gap);
      FieldsOfJoin(tokens[1..], gap);
      FieldsToken(tokens[0], gap + rest);
      FieldsSkipSpaces(gap, rest);
      assert tokens[0] + gap + rest == tokens[0] + (gap + rest);
    }
  }

  lemma {:induction false} FieldsGap(a: string, gap: string, b: string)
    requires gap != "" && forall i :: 0 <= i < |gap| ==> IsSpace(gap[i])
    ensures Fields(a + (gap + b)) == Fields(a) + Fields(b)
    decreases |a|
  {
    if a == "" {
      AppendEmpty(gap + b);
      AppendEmpty(Fields(b));
      FieldsSkipSpaces(gap, b);
    } else if IsSpace(a[0]) {
      HeadTail(a, gap + b);
      FieldsSpace(a[0], a[1..] + (gap + b));
      FieldsSpace(a[0], a[1..]);
      FieldsGap(a[1..], gap, b);
    } else {
      var n := TokenLength(a);
      var t, rest := a[..n], a[n..];
      FieldsGap(rest, gap, b);
      assert a == t + rest;
      Assoc(t, rest, gap + b);
      assert rest + (gap + b) != "" && IsSpace((rest + (gap + b))[0]);
      FieldsToken(t, rest);
      FieldsToken(t, rest + (gap + b));
      Assoc([t], Fields(rest), Fields(b));
      hide Fields;
    }
  }

  // ---------------------------------------------------------------- trimming

  function TrimLeft(s: string, c: char): string {
    if s != "" && s[0] == c then TrimLeft(s[1..], c) else s
  }

  function TrimRight(s: string, c: char): string {
    if s != "" && s[|s| - 1] == c then TrimRight(s[..|s| - 1], c) else s
  }

  lemma {:induction false} FieldsTrimmed(s: string)
    ensures Fields(TrimLeft(s, ' ')) == Fields(s)
  {
    if s != "" && s[0] == ' ' {
      FieldsTrimmed(s[1..]);
    }
  }

  // ---------------------------------------------------------------- numbers

  // The bases in use: %o and %d.
  type Base = b: nat | b == 8 || b == 10 witness 10

  predicate IsDigit(c: char, base: Base) { '0' <= c && (c as int - '0' as int) < base }

  predicate DecimalDigit(c: char) { IsDigit(c, 10) }

  // The range of an int.
  const MIN_INT := -0x8000_0000_0000_0000
  const MAX_INT := 0x7fff_ffff_ffff_ffff

  predicate Digits(s: string, base: Base) { s != "" && forall i :: 0 <= i < |s| ==> IsDigit(s[i], base) }

  function DigitValue(c: char, base: Base): (v: nat)
    requires IsDigit(c, base)
    ensures v < base
  {
    c as int - '0' as int
  }

  function Value(s: string, base: Base): nat
    requires forall i :: 0 <= i < |s| ==> IsDigit(s[i], base)
  {
    if s == "" then 0
    else
      var high: nat := Value(s[..|s| - 1], base);
      Shift(high, base) + DigitValue(s[|s| - 1], base)
  }

  /** Positional notation. */
  lemma ValueSnoc(s: string, c: char, base: Base)
    requires (forall i :: 0 <= i < |s| ==> IsDigit(s[i], base)) && '0' <= c && c as int - '0' as int < base
    ensures Value("", base) == 0
    ensures forall i :: 0 <= i < |s + [c]| ==> IsDigit((s + [c])[i], base)
    ensures Value(s + [c], base) == base * Value(s, base) + (c as int - '0' as int)
  {
    assert (s + [c])[..|s|] == s;
  }

  /** The digits of a number. */
  ghost predicate Spells(s: string, n: nat, base: Base) { Digits(s, base) && Value(s, base) == n }

  function Shift(n: nat, base: Base): nat { if base == 8 then n * 8 else n * 10 }
  function Quotient(n: nat, base: Base): nat { if base == 8 then n / 8 else n / 10 }
  function Remainder(n: nat, base: Base): nat { if base == 8 then n % 8 else n % 10 }

  /** The shortest digits of n, as %d and %o print a non-negative number. */
  function Print(n: nat, base: Base): (s: string)
    ensures Digits(s, base)
  {
    var d := [('0' as int + Remainder(n, base)) as char];
    if n < base then d else Print(Quotient(n, base), base) + d
  }

  lemma {:induction false} ValueOfPrint(n: nat, base: Base)
    ensures Value(Print(n, base), base) == n
  {
    var s := Print(n, base);
    assert DigitValue(s[|s| - 1], base) == Remainder(n, base);
    if n < base {
      assert s[..0] == "";
    } else {
      ValueOfPrint(Quotient(n, base), base);
      assert s[..|s| - 1] == Print(Quotient(n, base), base);
    }
  }

  lemma DigitsAreToken(s: string, base: Base)
    requires Digits(s, base)
    ensures Token(s)
  {
    forall i | 0 <= i < |s| ensures !IsSpace(s[i]) {
      assert IsDigit(s[i], base);
    }
  }
}
