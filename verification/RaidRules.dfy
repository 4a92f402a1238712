/** RAID entry validation and array naming. */
module RaidRules {
  import opened Metadata
  import opened Sequences
  import opened Text

  predicate Letter(c: char) { 'A' <= c <= 'Z' || 'a' <= c <= 'z' }
  predicate NameTail(c: char) { Letter(c) || DecimalDigit(c) || c == '_' || c == '.' || c == '-' }

  // [0-9]+|/[A-Za-z][A-Za-z0-9_.-]*
  predicate ArrayName(rest: string) {
    && rest != ""
    && (|| (forall i :: 0 <= i < |rest| ==> DecimalDigit(rest[i]))
        || (rest[0] == '/' && |rest| > 1 && Letter(rest[1]) && forall i :: 1 < i < |rest| ==> NameTail(rest[i])))
  }

  // (/dev/)?md and such a name
  predicate ValidRaidName(name: string) {
    var s := if "/dev/" <= name then name[5..] else name;
    "md" <= s && ArrayName(s[2..])
  }

  // The smallest number of data devices of each supported level; 0 marks an unsupported one.
  function MinDevices(level: string): nat {
    match level
    case "0" => 2
    case "1" => 2
    case "4" => 3
    case "5" => 3
    case "6" => 4
    case "10" => 4
    case "linear" => 2
    case _ => 0
  }

  predicate ValidRaid(r: Raid) {
    && r.name != "" && ValidRaidName(r.name)
    && MinDevices(r.level) != 0 && |r.devices| >= MinDevices(r.level)
  }

  ghost predicate Numbered(rest: string) { rest != "" && forall c :: c in rest ==> '0' <= c <= '9' }

  ghost predicate Named(rest: string, first: char, tail: string) {
    && rest == ['/', first] + tail && ('a' <= first <= 'z' || 'A' <= first <= 'Z')
    && forall c :: c in tail ==> 'a' <= c <= 'z' || 'A' <= c <= 'Z' || '0' <= c <= '9' || c in {'_', '.', '-'}
  }

  // What the pattern generates behind md: a number, or a slash and a name that begins with a letter.
  ghost predicate Generated(rest: string) { Numbered(rest) || exists first, tail :: Named(rest, first, tail) }

  lemma ArrayNameIff(rest: string)
    ensures ArrayName(rest) <==> Generated(rest)
  {
    if ArrayName(rest) && rest[0] == '/' {
      assert rest == ['/', rest[1]] + rest[2..];
      forall c | c in rest[2..] ensures NameTail(c) {
        var i :| 0 <= i < |rest[2..]| && rest[2..][i] == c;
        assert NameTail(rest[i + 2]);
      }
      assert Named(rest, rest[1], rest[2..]);
    }
    if Numbered(rest) {
      assert forall i :: 0 <= i < |rest| ==> rest[i] in rest;
    }
    if first, tail :| Named(rest, first, tail) {
      forall i | 1 < i < |rest| ensures NameTail(rest[i]) {
        assert rest[i] == tail[i - 2] && tail[i - 2] in tail;
      }
    }
  }

  /** The recognizer accepts exactly the names that the pattern generates. */
  lemma RaidNameIff(name: string)
    ensures ValidRaidName(name) <==>
      exists rest :: Generated(rest) && (name == "md" + rest || name == "/dev/" + ("md" + rest))
  {
    hide ArrayName, Generated;
    if ValidRaidName(name) {
      var s := if "/dev/" <= name then name[5..] else name;
      assert s == "md" + s[2..] && (name == s || name == "/dev/" + s);
      ArrayNameIff(s[2..]);
    }
    if rest :| Generated(rest) && (name == "md" + rest || name == "/dev/" + ("md" + rest)) {
      ArrayNameIff(rest);
      DropAppend("md", rest);
      DropAppend("/dev/", "md" + rest);
      assert "md" <= "md" + rest && ("md" + rest)[0] == 'm';
    }
  }

  /** So many devices are enough for the level. */
  ghost predicate Enough(level: string, n: nat) {
    || (level in {"0", "1", "linear"} && n >= 2)
    || (level in {"4", "5"} && n >= 3)
    || (level in {"6", "10"} && n >= 4)
  }

  /** An array is accepted when its name matches the pattern, its level is supported and it has
      enough devices; spares do not count. */
  lemma ValidRaidIff(r: Raid)
    ensures ValidRaid(r) <==> ValidRaidName(r.name) && Enough(r.level, |r.devices|)
  {
    hide ValidRaidName;
    assert !ValidRaidName("") by { NoEmptyName(); }
  }

  lemma NoEmptyName()
    ensures !ValidRaidName("")
  {
  }

  function NormalizeRaidDevice(name: string): string {
    if "/dev/" <= name then name else "/dev/" + name
  }

  /** Normalizing twice changes nothing, keeps a valid name valid, always gives a /dev/md path,
      and identifies exactly the short and the long spelling of one array. */
  lemma NormalizedNames(a: string, b: string)
    requires ValidRaidName(a) && ValidRaidName(b)
    ensures NormalizeRaidDevice(NormalizeRaidDevice(a)) == NormalizeRaidDevice(a)
    ensures ValidRaidName(NormalizeRaidDevice(a)) && "/dev/md" <= NormalizeRaidDevice(a)
    ensures NormalizeRaidDevice(a) == NormalizeRaidDevice(b) <==> a == b || a == "/dev/" + b || b == "/dev/" + a
  {
    assert ("/dev/" + a)[5..] == a && ("/dev/" + b)[5..] == b;
    if "/dev/" <= a {
      assert a == "/dev/" + a[5..];
    }
    if "/dev/" <= b {
      assert b == "/dev/" + b[5..];
    }
  }
}
