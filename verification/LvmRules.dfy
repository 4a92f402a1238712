/** Volume-group validation, the validators that run again inside the LVM driver, and the
    extent arithmetic of a sequential logical-volume plan. */
module LvmRules {
  import opened Options
  import opened PartitionTables
  import opened Metadata

  // ---------------------------------------------------------------- names and tags

  predicate NameStart(c: char) {
    'A' <= c <= 'Z' || 'a' <= c <= 'z' || '0' <= c <= '9' || c == '_' || c == '+' || c == '.'
  }

  // Group and volume names share one pattern: [A-Za-z0-9_+.][A-Za-z0-9_+.-]*
  predicate ValidName(s: string) {
    s != "" && NameStart(s[0]) && forall i :: 0 < i < |s| ==> NameStart(s[i]) || s[i] == '-'
  }

  predicate ValidTag(s: string) { |s| <= 1024 && ValidName(s) }

  // [A-Za-z0-9_+.-], as the documentation lists the characters.
  ghost predicate Allowed(c: char) {
    'A' <= c <= 'Z' || 'a' <= c <= 'z' || '0' <= c <= '9' || c == '_' || c == '+' || c == '.' || c == '-'
  }

  /** The patterns accept what the documentation describes: one or more allowed characters with no
      hyphen in front, and for a tag at most 1024 of them. */
  lemma NamesAndTags(s: string)
    ensures ValidName(s) <==> s != "" && s[0] != '-' && forall c :: c in s ==> Allowed(c)
    ensures ValidTag(s) <==> ValidName(s) && |s| <= 1024
  {
    if ValidName(s) {
      forall c | c in s ensures Allowed(c) {
        var i :| 0 <= i < |s| && s[i] == c;
      }
    }
    if s != "" && s[0] != '-' && forall c :: c in s ==> Allowed(c) {
      forall i | 0 < i < |s| ensures NameStart(s[i]) || s[i] == '-' {
        assert s[i] in s;
      }
      assert s[0] in s;
    }
  }

  predicate AbsolutePath(s: string) { "/" <= s }

  datatype VgError =
    | BadVgName
    | NoPhysicalVolumes
    | RelativePv(pv: string)
    | BadVgTag(tag: string)
    | BadLvName(name: string)
    | BadLvTag(tag: string)
    | FillNotLast(name: string)

  // What the README and the doc comment of the validator ask of a volume group.
  ghost predicate WellFormedGroup(vg: VolumeGroup) {
    && ValidName(vg.name)
    && vg.physicalVolumes != []
    && (forall pv :: pv in vg.physicalVolumes ==> AbsolutePath(pv))
    && (forall tag :: tag in vg.tags ==> ValidTag(tag))
    && (forall lv :: lv in vg.logicalVolumes ==> ValidName(lv.name))
    && (forall lv :: lv in vg.logicalVolumes ==> forall tag :: tag in lv.tags ==> ValidTag(tag))
    && FillLast(vg.logicalVolumes)
  }

  predicate FillLast(lvs: seq<LogicalVolume>) {
    forall i :: 0 <= i < |lvs| - 1 ==> lvs[i].size != 0
  }

  method CheckTags(tags: seq<string>) returns (bad: Option<string>)
    ensures bad.None? <==> forall tag :: tag in tags ==> ValidTag(tag)
    ensures bad.Some? ==> bad.value in tags && !ValidTag(bad.value)
  {
    for i := 0 to |tags|
      invariant forall tag :: tag in tags[..i] ==> ValidTag(tag)
    {
      if !ValidTag(tags[i]) {
        return Some(tags[i]);
      }
    }
    assert tags[..|tags|] == tags;
    bad := None;
  }

  /** Accepts exactly the well-formed groups; a rejection names an actual offence. */
  method ValidateVolumeGroup(vg: VolumeGroup) returns (e: Option<VgError>)
    ensures e.None? <==> WellFormedGroup(vg)
    ensures e.Some? ==> match e.value
      case BadVgName => !ValidName(vg.name)
      case NoPhysicalVolumes => vg.physicalVolumes == []
      case RelativePv(pv) => pv in vg.physicalVolumes && !AbsolutePath(pv)
      case BadVgTag(tag) => tag in vg.tags && !ValidTag(tag)
      case BadLvName(name) => !ValidName(name) && exists lv :: lv in vg.logicalVolumes && lv.name == name
      case BadLvTag(tag) => !ValidTag(tag) && exists lv :: lv in vg.logicalVolumes && tag in lv.tags
      case FillNotLast(name) => exists i :: 0 <= i < |vg.logicalVolumes| - 1
                                  && vg.logicalVolumes[i].size == 0 && vg.logicalVolumes[i].name == name
  {
    if !ValidName(vg.name) {
      return Some(BadVgName);
    }
    if |vg.physicalVolumes| == 0 {
      return Some(NoPhysicalVolumes);
    }
    for i := 0 to |vg.physicalVolumes|
      invariant forall pv :: pv in vg.physicalVolumes[..i] ==> AbsolutePath(pv)
    {
      if !AbsolutePath(vg.physicalVolumes[i]) {
        return Some(RelativePv(vg.physicalVolumes[i]));
      }
    }
    var bad := CheckTags(vg.tags);
    if bad.Some? {
      return Some(BadVgTag(bad.value));
    }
    for i := 0 to |vg.logicalVolumes|
      invariant forall lv :: lv in vg.logicalVolumes[..i] ==> ValidName(lv.name)
      invariant forall lv :: lv in vg.logicalVolumes[..i] ==> forall tag :: tag in lv.tags ==> ValidTag(tag)
      invariant forall j :: 0 <= j < i && j < |vg.logicalVolumes| - 1 ==> vg.logicalVolumes[j].size != 0
    {
      var lv := vg.logicalVolumes[i];
      if !ValidName(lv.name) {
        return Some(BadLvName(lv.name));
      }
      bad := CheckTags(lv.tags);
      if bad.Some? {
        return Some(BadLvTag(bad.value));
      }
      if lv.size == 0 && i != |vg.logicalVolumes| - 1 {
        return Some(FillNotLast(lv.name));
      }
    }
    e := None;
  }

  // The driver's own checks; it leaves empty tags out instead of rejecting them.
  predicate DriverAcceptsTags(tags: seq<string>) {
    forall tag :: tag in tags && tag != "" ==> ValidTag(tag)
  }

  predicate DriverAcceptsGroup(vg: VolumeGroup) {
    ValidName(vg.name) && DriverAcceptsTags(vg.tags)
  }

  predicate DriverAcceptsVolume(lv: LogicalVolume) {
    ValidName(lv.name) && DriverAcceptsTags(lv.tags)
  }

  // ---------------------------------------------------------------- extents

  /** A size in bytes rounded up to whole extents. */
  function ExtentsFor(size: nat, extentBytes: nat): (n: nat)
    requires extentBytes > 0
    ensures size <= n * extentBytes < size + extentBytes
    ensures n == 0 <==> size == 0
  {
    var n := (size + extentBytes - 1) / extentBytes;
    assert n * extentBytes + (size + extentBytes - 1) % extentBytes == size + extentBytes - 1;
    n
  }

  function Needs(lvs: seq<LogicalVolume>, extentBytes: nat): (needs: seq<nat>)
    requires extentBytes > 0
    ensures |needs| == |lvs|
    ensures forall i :: 0 <= i < |lvs| ==> (needs[i] == 0 <==> lvs[i].size == 0)
  {
    seq(|lvs|, i requires 0 <= i < |lvs| => ExtentsFor(lvs[i].size, extentBytes))
  }

  /** How many extents `lvcreate` gives a volume that needs so many; 0 stands for 100%FREE, which
      is refused when nothing is free. */
  function Take(free: int, need: nat): (n: Option<nat>)
    ensures n.Some? ==> 0 < n.value <= free
  {
    if need == 0 then (if 0 < free then Some(free) else None)
    else if need <= free then Some(need)
    else None
  }

  /** The extents of each volume when they are created one after the other. */
  function Allocate(free: int, needs: seq<nat>): (plan: Option<seq<nat>>)
    ensures plan.Some? ==> |plan.value| == |needs|
  {
    if needs == [] then Some([])
    else
      var n := |needs| - 1;
      var before := Allocate(free, needs[..n]);
      if before.None? then None
      else
        var got := Take(free - Sum(before.value), needs[n]);
        if got.None? then None else Some(before.value + [got.value])
  }

  function Sum(s: seq<nat>): nat {
    if s == [] then 0 else Sum(s[..|s| - 1]) + s[|s| - 1]
  }

  lemma SumSnoc(s: seq<nat>, x: nat)
    ensures Sum(s + [x]) == Sum(s) + x
  {
    assert (s + [x])[..|s|] == s;
  }

  ghost predicate ZeroOnlyLast(needs: seq<nat>) { forall i :: 0 <= i < |needs| - 1 ==> needs[i] != 0 }

  ghost predicate EndsInFill(lvs: seq<LogicalVolume>) { lvs != [] && lvs[|lvs| - 1].size == 0 }

  ghost predicate Fills(needs: seq<nat>) { needs != [] && needs[|needs| - 1] == 0 }

  /** The arithmetic condition under which a plan exists. */
  ghost predicate Allocatable(free: nat, needs: seq<nat>) {
    ZeroOnlyLast(needs) && Sum(needs) <= free && (Fills(needs) ==> Sum(needs) < free)
  }

  lemma AllocatableSnoc(free: nat, needs: seq<nat>)
    requires needs != []
    ensures var before, need := needs[..|needs| - 1], needs[|needs| - 1];
      Allocatable(free, needs) <==>
        && Allocatable(free, before) && !Fills(before)
        && (if need == 0 then Sum(before) < free else Sum(before) + need <= free)
  {
    var n := |needs| - 1;
    var before := needs[..n];
    if ZeroOnlyLast(before) && !Fills(before) {
      assert forall i :: 0 <= i < n ==> needs[i] == before[i];
      assert ZeroOnlyLast(needs);
    }
    if ZeroOnlyLast(needs) {
      assert forall i :: 0 <= i < n ==> needs[i] == before[i];
    }
  }

  lemma {:induction false} AllocateIff(free: nat, needs: seq<nat>)
    ensures var plan := Allocate(free, needs);
      && (plan.Some? <==> Allocatable(free, needs))
      && (plan.Some? ==> Sum(plan.value) == if Fills(needs) then free else Sum(needs))
  {
    if needs != [] {
      var before, need := needs[..|needs| - 1], needs[|needs| - 1];
      AllocateIff(free, before);
      AllocatableSnoc(free, needs);
      var plan := Allocate(free, before);
      if plan.Some? {
        var got := Take(free - Sum(plan.value), need);
        if got.Some? {
          SumSnoc(plan.value, got.value);
        }
      }
    }
  }

  /** Creating the volumes in order succeeds exactly when every fill volume is last, the fixed
      sizes (rounded up) fit, and a fill volume finds something left; the volumes then use the
      fixed extents, or, with a fill volume, every extent there is. */
  lemma AllocationSucceedsIff(free: nat, lvs: seq<LogicalVolume>, extentBytes: nat)
    requires extentBytes > 0
    ensures var needs := Needs(lvs, extentBytes); var plan := Allocate(free, needs);
      && (plan.Some? <==> FillLast(lvs) && Sum(needs) <= free && (EndsInFill(lvs) ==> Sum(needs) < free))
      && (plan.Some? ==> Sum(plan.value) == if EndsInFill(lvs) then free else Sum(needs))
  {
    AllocateIff(free, Needs(lvs, extentBytes));
  }

  /** With room to spare, the validator's "fill last" rule is exactly what allocation needs. */
  lemma FillLastIsExactlyEnough(free: nat, lvs: seq<LogicalVolume>, extentBytes: nat)
    requires extentBytes > 0 && Sum(Needs(lvs, extentBytes)) < free
    ensures Allocate(free, Needs(lvs, extentBytes)).Some? <==> FillLast(lvs)
    ensures FillLast(lvs) && EndsInFill(lvs) ==> Sum(Allocate(free, Needs(lvs, extentBytes)).value) == free
  {
    AllocationSucceedsIff(free, lvs, extentBytes);
  }
}
