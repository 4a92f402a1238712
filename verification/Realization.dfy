/** What a finished run builds when the metadata can be carried out, what a finished wipe leaves,
    and why volume groups must be torn down before arrays are stopped. */
module Realization {
  import opened Options
  import opened PartitionTables
  import opened Metadata
  import opened LvmRules
  import opened RaidRules
  import opened HostTools
  import opened Provision
  import opened Convergence
  import opened Text

  // ---------------------------------------------------------------- plans that can be carried out

  /** The device is an attached disk or a partition of the planned tables. */
  ghost predicate OnTables(env: Env, md: Storage, mbr: bool, d: Device)
    requires ValidStorage(env, md)
  {
    match d
    case Whole(k) => k in env.disks
    case Part(k, n) =>
      exists disk :: disk in md.disks && disk.device == k && 1 <= n <= PartitionCount(PlannedTable(env, mbr, disk))
    case Md(_) => false
  }

  ghost predicate IsArrayPath(md: Storage, a: string) {
    exists r :: r in md.raid && NormalizeRaidDevice(r.name) == a
  }

  ghost predicate SoundRaid(env: Env, md: Storage, mbr: bool, r: Raid)
    requires ValidStorage(env, md)
  {
    Makeable(env, r) && Distinct(Members(env, r)) && forall d :: d in Members(env, r) ==> OnTables(env, md, mbr, d)
  }

  ghost predicate SoundGroup(env: Env, md: Storage, mbr: bool, vg: VolumeGroup)
    requires ValidStorage(env, md)
  {
    && WellFormedGroup(vg) && Distinct(Pvs(env, vg))
    && (forall d :: d in Pvs(env, vg) ==>
         && !IsMember(env, md, d)
         && if d.Md? then IsArrayPath(md, d.path) else OnTables(env, md, mbr, d))
    && (forall i, j :: 0 <= i < j < |vg.logicalVolumes| ==> vg.logicalVolumes[i].name != vg.logicalVolumes[j].name)
    && Allocatable(Capacity(env, Pvs(env, vg)), Needs(vg.logicalVolumes, env.extentBytes))
  }

  /** Groups have names and physical volumes of their own. */
  ghost predicate SeparateGroups(env: Env, vgs: seq<VolumeGroup>) {
    && (forall i, j :: 0 <= i < j < |vgs| ==> vgs[i].name != vgs[j].name)
    && (forall i, j, d :: 0 <= i < j < |vgs| && d in Pvs(env, vgs[i]) ==> d !in Pvs(env, vgs[j]))
  }

  ghost predicate SoundPlan(env: Env, md: Storage, mbr: bool) {
    && ValidStorage(env, md) && SeparateGroups(env, md.volumeGroups)
    && (forall r :: r in md.raid ==> SoundRaid(env, md, mbr, r))
    && (forall vg :: vg in md.volumeGroups ==> SoundGroup(env, md, mbr, vg))
  }

  // ---------------------------------------------------------------- the layout they describe

  ghost function LayoutArrays(env: Env, raid: seq<Raid>): map<string, seq<Device>> {
    if raid == [] then map[]
    else
      var r := raid[|raid| - 1];
      LayoutArrays(env, raid[..|raid| - 1])[NormalizeRaidDevice(r.name) := Members(env, r)]
  }

  ghost function LayoutSuperblocks(env: Env, raid: seq<Raid>): map<Device, string> {
    if raid == [] then map[]
    else
      var r := raid[|raid| - 1];
      LayoutSuperblocks(env, raid[..|raid| - 1]) + map d | d in Members(env, r) :: NormalizeRaidDevice(r.name)
  }

  ghost function Plan(env: Env, vg: VolumeGroup, n: nat): Option<seq<nat>>
    requires env.extentBytes > 0 && n <= |vg.logicalVolumes|
  {
    Allocate(Capacity(env, Pvs(env, vg)), Needs(vg.logicalVolumes, env.extentBytes)[..n])
  }

  /** One volume per entry, in order, with the extents of the sequential plan. */
  ghost function VolumesUpTo(env: Env, vg: VolumeGroup, n: nat): seq<Lv>
    requires env.extentBytes > 0 && n <= |vg.logicalVolumes|
  {
    if Plan(env, vg, n).None? then []
    else seq(n, i requires 0 <= i < n => Lv(vg.logicalVolumes[i].name, Plan(env, vg, n).value[i]))
  }

  ghost function LayoutGroup(env: Env, vg: VolumeGroup): Vg
    requires env.extentBytes > 0
  {
    Vg(Pvs(env, vg), VolumesUpTo(env, vg, |vg.logicalVolumes|), vg.logicalVolumes != [])
  }

  ghost function LayoutGroups(env: Env, vgs: seq<VolumeGroup>): map<string, Vg>
    requires env.extentBytes > 0
  {
    if vgs == [] then map[]
    else LayoutGroups(env, vgs[..|vgs| - 1])[vgs[|vgs| - 1].name := LayoutGroup(env, vgs[|vgs| - 1])]
  }

  ghost function LayoutPvs(env: Env, vgs: seq<VolumeGroup>): map<Device, Option<string>> {
    if vgs == [] then map[]
    else
      var vg := vgs[|vgs| - 1];
      LayoutPvs(env, vgs[..|vgs| - 1]) + map d | d in Pvs(env, vg) :: Some(vg.name)
  }

  /** The disks as planned, every array over its members, every group over its volumes, and
      nothing beside them. */
  ghost predicate Realized(env: Env, md: Storage, mbr: bool, h: Host)
    requires ValidStorage(env, md)
  {
    && SaneDisks(md, h) && (forall d :: d in md.disks ==> Written(env, mbr, d, h))
    && h.arrays == LayoutArrays(env, md.raid)
    && h.superblocks == LayoutSuperblocks(env, md.raid)
    && h.vgs == LayoutGroups(env, md.volumeGroups)
    && h.pvs == LayoutPvs(env, md.volumeGroups)
  }

  // The layout read entry by entry.

  lemma {:induction false} ArrayInLayout(env: Env, raid: seq<Raid>, a: string)
    requires a in LayoutArrays(env, raid)
    ensures exists j :: 0 <= j < |raid| && NormalizeRaidDevice(raid[j].name) == a
                        && LayoutArrays(env, raid)[a] == Members(env, raid[j])
  {
    var n := |raid| - 1;
    if NormalizeRaidDevice(raid[n].name) != a {
      ArrayInLayout(env, raid[..n], a);
      var j :| 0 <= j < n && NormalizeRaidDevice(raid[..n][j].name) == a
               && LayoutArrays(env, raid[..n])[a] == Members(env, raid[..n][j]);
      assert raid[j] == raid[..n][j];
    }
  }

  lemma {:induction false} SuperblockInLayout(env: Env, raid: seq<Raid>, d: Device)
    requires d in LayoutSuperblocks(env, raid)
    ensures exists r :: r in raid && d in Members(env, r)
  {
    var n := |raid| - 1;
    if d !in Members(env, raid[n]) {
      SuperblockInLayout(env, raid[..n], d);
    }
  }

  lemma {:induction false} GroupInLayout(env: Env, vgs: seq<VolumeGroup>, v: string)
    requires env.extentBytes > 0 && v in LayoutGroups(env, vgs)
    ensures exists j :: 0 <= j < |vgs| && vgs[j].name == v && LayoutGroups(env, vgs)[v] == LayoutGroup(env, vgs[j])
  {
    var n := |vgs| - 1;
    if vgs[n].name != v {
      GroupInLayout(env, vgs[..n], v);
      var j :| 0 <= j < n && vgs[..n][j].name == v && LayoutGroups(env, vgs[..n])[v] == LayoutGroup(env, vgs[..n][j]);
      assert vgs[j] == vgs[..n][j];
    }
  }

  lemma {:induction false} PvInLayout(env: Env, vgs: seq<VolumeGroup>, d: Device)
    requires d in LayoutPvs(env, vgs)
    ensures exists j :: 0 <= j < |vgs| && d in Pvs(env, vgs[j])
  {
    var n := |vgs| - 1;
    if d !in Pvs(env, vgs[n]) {
      PvInLayout(env, vgs[..n], d);
      var j :| 0 <= j < n && d in Pvs(env, vgs[..n][j]);
      assert vgs[j] == vgs[..n][j];
    }
  }

  lemma {:induction false} EveryArrayLaidOut(env: Env, raid: seq<Raid>, j: nat)
    requires j < |raid|
    requires forall i, k :: 0 <= i < k < |raid| ==> NormalizeRaidDevice(raid[i].name) != NormalizeRaidDevice(raid[k].name)
    ensures var a := NormalizeRaidDevice(raid[j].name);
      a in LayoutArrays(env, raid) && LayoutArrays(env, raid)[a] == Members(env, raid[j])
  {
    if j < |raid| - 1 {
      EveryArrayLaidOut(env, raid[..|raid| - 1], j);
    }
  }

  lemma {:induction false} EveryGroupLaidOut(env: Env, vgs: seq<VolumeGroup>, j: nat)
    requires env.extentBytes > 0 && j < |vgs|
    requires forall i, k :: 0 <= i < k < |vgs| ==> vgs[i].name != vgs[k].name
    ensures vgs[j].name in LayoutGroups(env, vgs) && LayoutGroups(env, vgs)[vgs[j].name] == LayoutGroup(env, vgs[j])
  {
    if j < |vgs| - 1 {
      EveryGroupLaidOut(env, vgs[..|vgs| - 1], j);
    }
  }

  // ---------------------------------------------------------------- arrays

  lemma PlannedIsPresent(env: Env, md: Storage, mbr: bool, h: Host, d: Device)
    requires ValidStorage(env, md) && OnTables(env, md, mbr, d)
    requires forall k :: k in md.disks ==> Written(env, mbr, k, h)
    ensures Present(env, h, d)
  {
    if d.Part? {
      var disk :| disk in md.disks && disk.device == d.disk && 1 <= d.number <= PartitionCount(PlannedTable(env, mbr, disk));
      assert Written(env, mbr, disk, h);
    }
  }

  /** The host when the first n arrays have been created. */
  ghost function WithArrays(env: Env, md: Storage, n: nat, h: Host): Host
    requires n <= |md.raid|
  {
    h.(arrays := LayoutArrays(env, md.raid[..n]), superblocks := LayoutSuperblocks(env, md.raid[..n]))
  }

  lemma ArrayAccepted(env: Env, md: Storage, mbr: bool, n: nat, h: Host)
    requires SoundPlan(env, md, mbr) && n < |md.raid|
    requires forall k :: k in md.disks ==> Written(env, mbr, k, h)
    requires NoLvm(h) && h.arrays == LayoutArrays(env, md.raid[..n])
    ensures Accepts(env, h, MdCreate(NormalizeRaidDevice(md.raid[n].name), Members(env, md.raid[n])))
  {
    var r := md.raid[n];
    assert SoundRaid(env, md, mbr, r);
    forall a | a in h.arrays
      ensures a != NormalizeRaidDevice(r.name)
      ensures forall d :: d in Members(env, r) ==> d !in h.arrays[a]
    {
      ArrayInLayout(env, md.raid[..n], a);
    }
    forall d | d in Members(env, r) ensures Present(env, h, d) && !InUse(h, d) {
      PlannedIsPresent(env, md, mbr, h, d);
    }
  }

  lemma WrittenKept(env: Env, md: Storage, mbr: bool, a: Host, b: Host)
    requires ValidStorage(env, md) && SameDisks(a, b) && forall k :: k in md.disks ==> Written(env, mbr, k, a)
    ensures forall k :: k in md.disks ==> Written(env, mbr, k, b)
  {
    forall k | k in md.disks ensures Written(env, mbr, k, b) {
      assert Written(env, mbr, k, a);
    }
  }

  lemma ArrayEffect(env: Env, md: Storage, n: nat, h: Host)
    requires n < |md.raid|
    requires Accepts(env, WithArrays(env, md, n, h), MdCreate(NormalizeRaidDevice(md.raid[n].name), Members(env, md.raid[n])))
    ensures Exec(env, WithArrays(env, md, n, h), MdCreate(NormalizeRaidDevice(md.raid[n].name), Members(env, md.raid[n])))
         == WithArrays(env, md, n + 1, h)
  {
    hide Accepts, Members;
    assert md.raid[..n + 1][..n] == md.raid[..n];
  }

  lemma ArrayStep(env: Env, md: Storage, mbr: bool, n: nat, h: Host)
    requires SoundPlan(env, md, mbr) && n < |md.raid| && Prepared(env, md, mbr, h)
    ensures Makeable(env, md.raid[n])
    ensures Issue(env, Run(WithArrays(env, md, n, h), Never),
                  MdCreate(NormalizeRaidDevice(md.raid[n].name), Members(env, md.raid[n])))
         == (Run(WithArrays(env, md, n + 1, h), Never), true)
  {
    assert SoundRaid(env, md, mbr, md.raid[n]);
    WrittenKept(env, md, mbr, h, WithArrays(env, md, n, h));
    ArrayAccepted(env, md, mbr, n, WithArrays(env, md, n, h));
    ArrayEffect(env, md, n, h);
    hide Accepts, Exec, SoundPlan, Prepared;
  }

  lemma NoArraysYet(env: Env, md: Storage, mbr: bool, h: Host)
    requires ValidStorage(env, md) && Prepared(env, md, mbr, h)
    ensures RunEach(env, CreateArrays(env, md.raid[..0]), Run(h, Never)) == Run(WithArrays(env, md, 0, h), Never)
  {
    hide Written, SaneDisks;
    assert WithArrays(env, md, 0, h) == h;
  }

  lemma SoundIsValid(env: Env, md: Storage, mbr: bool)
    requires SoundPlan(env, md, mbr)
    ensures ValidStorage(env, md)
  {
  }

  lemma {:induction false} ArraysRealized(env: Env, md: Storage, mbr: bool, n: nat, h: Host)
    requires SoundPlan(env, md, mbr) && n <= |md.raid| && Prepared(env, md, mbr, h)
    ensures RunEach(env, CreateArrays(env, md.raid[..n]), Run(h, Never)) == Run(WithArrays(env, md, n, h), Never)
  {
    hide *;
    SoundIsValid(env, md, mbr);
    if n == 0 {
      NoArraysYet(env, md, mbr, h);
    } else {
      var r := md.raid[n - 1];
      ArraysRealized(env, md, mbr, n - 1, h);
      ArrayStep(env, md, mbr, n - 1, h);
      CreateArraysNext(env, md.raid, n - 1);
      RunEachOne(env, CreateArrays(env, md.raid[..n - 1]),
                 MdCreate(NormalizeRaidDevice(r.name), Members(env, r)), Run(h, Never));
    }
  }

  // ---------------------------------------------------------------- one volume group

  /** The group can be built here: nothing has its name, and its devices are there and unused. */
  ghost predicate FreshGroup(env: Env, vg: VolumeGroup, h: Host) {
    && vg.name !in h.vgs
    && forall d :: d in Pvs(env, vg) ==>
         Present(env, h, d) && d !in h.pvs && d !in h.superblocks && !InUse(h, d)
  }

  ghost function WithOrphans(h: Host, devs: seq<Device>): Host {
    h.(pvs := h.pvs + map d | d in devs :: None)
  }

  lemma OrphansSnoc(h: Host, devs: seq<Device>, d: Device)
    ensures WithOrphans(h, devs + [d]) == WithOrphans(h, devs).(pvs := WithOrphans(h, devs).pvs[d := None])
  {
    assert WithOrphans(h, devs + [d]).pvs == WithOrphans(h, devs).pvs[d := None];
  }

  lemma OrphanAccepted(env: Env, h: Host, devs: seq<Device>, d: Device)
    requires d !in devs && Present(env, h, d) && d !in h.pvs && d !in h.superblocks && !InUse(h, d)
    ensures Accepts(env, WithOrphans(h, devs), PvCreate(d))
  {
    var before := WithOrphans(h, devs);
    assert before.arrays == h.arrays && before.vgs == h.vgs;
    assert !InArray(before, d) && !HeldByLvm(before, d);
  }

  lemma NextOrphan(env: Env, vg: VolumeGroup, j: nat, h: Host)
    requires FreshGroup(env, vg, h) && Distinct(Pvs(env, vg)) && j < |Pvs(env, vg)|
    ensures var devs := Pvs(env, vg);
      Issue(env, Run(WithOrphans(h, devs[..j]), Never), PvCreate(devs[j]))
      == (Run(WithOrphans(h, devs[..j + 1]), Never), true)
  {
    var devs := Pvs(env, vg);
    assert devs[j] in devs && devs[j] !in devs[..j];
    assert devs[..j + 1] == devs[..j] + [devs[j]];
    OrphanAccepted(env, h, devs[..j], devs[j]);
    OrphansSnoc(h, devs[..j], devs[j]);
    hide WithOrphans, Accepts, FreshGroup;
  }

  lemma PvCommandsSnoc(devs: seq<Device>, j: nat)
    requires j < |devs|
    ensures PvCommands(devs[..j + 1]) == PvCommands(devs[..j]) + [PvCreate(devs[j])]
  {
  }

  lemma {:induction false} PvsRealized(env: Env, vg: VolumeGroup, j: nat, h: Host)
    requires FreshGroup(env, vg, h) && Distinct(Pvs(env, vg)) && j <= |Pvs(env, vg)|
    ensures RunChain(env, PvCommands(Pvs(env, vg)[..j]), Run(h, Never))
         == (Run(WithOrphans(h, Pvs(env, vg)[..j]), Never), true)
  {
    var devs := Pvs(env, vg);
    if j == 0 {
      assert WithOrphans(h, devs[..0]).pvs == h.pvs;
    } else {
      PvsRealized(env, vg, j - 1, h);
      NextOrphan(env, vg, j - 1, h);
      PvCommandsSnoc(devs, j - 1);
      RunChainOne(env, PvCommands(devs[..j - 1]), PvCreate(devs[j - 1]), Run(h, Never));
      hide *;
    }
  }

  /** The host while the group's volumes are being created: k of them are there. */
  ghost function WithGroup(env: Env, vg: VolumeGroup, k: nat, h: Host): Host
    requires env.extentBytes > 0 && k <= |vg.logicalVolumes|
  {
    h.(vgs := h.vgs[vg.name := Vg(Pvs(env, vg), VolumesUpTo(env, vg, k), k > 0)],
       pvs := h.pvs + map d | d in Pvs(env, vg) :: Some(vg.name))
  }

  lemma GroupRealized(env: Env, vg: VolumeGroup, h: Host)
    requires env.extentBytes > 0 && FreshGroup(env, vg, h)
    requires Pvs(env, vg) != [] && Distinct(Pvs(env, vg))
    ensures Issue(env, Run(WithOrphans(h, Pvs(env, vg)), Never), VgCreate(vg.name, Pvs(env, vg)))
         == (Run(WithGroup(env, vg, 0, h), Never), true)
  {
    GroupAccepted(env, vg, h);
    GroupEffect(env, vg, h);
    hide Accepts, Effect, WithOrphans, WithGroup, FreshGroup, Pvs, Distinct;
  }

  lemma OrphansOwned(h: Host, devs: seq<Device>, v: string)
    ensures WithOrphans(h, devs).pvs + (map d | d in devs :: Some(v)) == h.pvs + map d | d in devs :: Some(v)
  {
  }

  lemma GroupEffect(env: Env, vg: VolumeGroup, h: Host)
    requires env.extentBytes > 0
    requires Accepts(env, WithOrphans(h, Pvs(env, vg)), VgCreate(vg.name, Pvs(env, vg)))
    ensures Effect(env, WithOrphans(h, Pvs(env, vg)), VgCreate(vg.name, Pvs(env, vg))) == WithGroup(env, vg, 0, h)
  {
    hide Accepts, Pvs, Plan;
    OrphansOwned(h, Pvs(env, vg), vg.name);
    assert VolumesUpTo(env, vg, 0) == [];
  }

  lemma GroupAccepted(env: Env, vg: VolumeGroup, h: Host)
    requires FreshGroup(env, vg, h) && Pvs(env, vg) != [] && Distinct(Pvs(env, vg))
    ensures Accepts(env, WithOrphans(h, Pvs(env, vg)), VgCreate(vg.name, Pvs(env, vg)))
  {
    var devs, g := Pvs(env, vg), WithOrphans(h, Pvs(env, vg));
    hide Pvs, Distinct, InUse;
    forall d | d in devs ensures Present(env, g, d) && d in g.pvs && g.pvs[d] == None {
      assert Present(env, h, d);
    }
  }

  lemma {:induction false} UsedIsSum(lvs: seq<Lv>, plan: seq<nat>)
    requires |lvs| == |plan| && forall i :: 0 <= i < |lvs| ==> lvs[i].extents == plan[i]
    ensures Used(lvs) == Sum(plan)
  {
    if lvs != [] {
      UsedIsSum(lvs[..|lvs| - 1], plan[..|plan| - 1]);
    }
  }

  lemma {:induction false} PlanPrefix(env: Env, vg: VolumeGroup, k: nat, n: nat)
    requires env.extentBytes > 0 && k <= n <= |vg.logicalVolumes| && Plan(env, vg, n).Some?
    ensures Plan(env, vg, k).Some? && Plan(env, vg, k).value == Plan(env, vg, n).value[..k]
  {
    if k < n {
      var needs := Needs(vg.logicalVolumes, env.extentBytes);
      assert needs[..n][..n - 1] == needs[..n - 1];
      PlanPrefix(env, vg, k, n - 1);
    }
  }

  lemma PlanStep(env: Env, vg: VolumeGroup, k: nat)
    requires env.extentBytes > 0 && k < |vg.logicalVolumes| && Plan(env, vg, k + 1).Some?
    ensures var got := LvExtents(env, Vg(Pvs(env, vg), VolumesUpTo(env, vg, k), k > 0), vg.logicalVolumes[k].size);
      got.Some? && VolumesUpTo(env, vg, k + 1) == VolumesUpTo(env, vg, k) + [Lv(vg.logicalVolumes[k].name, got.value)]
  {
    var needs := Needs(vg.logicalVolumes, env.extentBytes);
    assert needs[..k + 1][..k] == needs[..k];
    PlanPrefix(env, vg, k, k + 1);
    var before := Plan(env, vg, k).value;
    UsedIsSum(VolumesUpTo(env, vg, k), before);
    var got := Take(Capacity(env, Pvs(env, vg)) - Sum(before), needs[k]);
    assert got.Some? && Plan(env, vg, k + 1).value == before + [got.value];
  }

  lemma VolumeAccepted(env: Env, vg: VolumeGroup, k: nat, h: Host)
    requires env.extentBytes > 0 && k < |vg.logicalVolumes| && Plan(env, vg, k + 1).Some?
    requires forall i :: 0 <= i < k ==> vg.logicalVolumes[i].name != vg.logicalVolumes[k].name
    requires forall d :: d in Pvs(env, vg) ==> Present(env, h, d)
    ensures Accepts(env, WithGroup(env, vg, k, h), LvCreate(vg.name, vg.logicalVolumes[k].name, vg.logicalVolumes[k].size))
  {
    PlanStep(env, vg, k);
    NamesUpTo(env, vg, k);
    hide Allocate, LvExtents, Plan, Capacity, Pvs, VolumesUpTo;
    var g := WithGroup(env, vg, k, h);
    forall d | d in Pvs(env, vg) ensures Present(env, g, d) && d in g.pvs {
      assert Present(env, h, d);
    }
  }

  lemma VolumeEffect(env: Env, vg: VolumeGroup, k: nat, h: Host)
    requires env.extentBytes > 0 && k < |vg.logicalVolumes| && Plan(env, vg, k + 1).Some?
    requires Accepts(env, WithGroup(env, vg, k, h), LvCreate(vg.name, vg.logicalVolumes[k].name, vg.logicalVolumes[k].size))
    ensures Effect(env, WithGroup(env, vg, k, h), LvCreate(vg.name, vg.logicalVolumes[k].name, vg.logicalVolumes[k].size))
         == WithGroup(env, vg, k + 1, h)
  {
    PlanStep(env, vg, k);
    hide Accepts, LvExtents, Plan, Pvs, VolumesUpTo;
    var g, c := WithGroup(env, vg, k, h), LvCreate(vg.name, vg.logicalVolumes[k].name, vg.logicalVolumes[k].size);
    assert Effect(env, g, c).vgs == WithGroup(env, vg, k + 1, h).vgs;
  }

  /** The k-th volume gets what the plan says, and its name is new in the group. */
  lemma VolumeStep(env: Env, vg: VolumeGroup, k: nat, h: Host)
    requires env.extentBytes > 0 && k < |vg.logicalVolumes| && Plan(env, vg, k + 1).Some?
    requires forall i :: 0 <= i < k ==> vg.logicalVolumes[i].name != vg.logicalVolumes[k].name
    requires forall d :: d in Pvs(env, vg) ==> Present(env, h, d)
    ensures Issue(env, Run(WithGroup(env, vg, k, h), Never),
                  LvCreate(vg.name, vg.logicalVolumes[k].name, vg.logicalVolumes[k].size))
         == (Run(WithGroup(env, vg, k + 1, h), Never), true)
  {
    hide Accepts, Effect, WithGroup, Plan, Pvs, Present;
    VolumeAccepted(env, vg, k, h);
    VolumeEffect(env, vg, k, h);
  }

  lemma NamesUpTo(env: Env, vg: VolumeGroup, k: nat)
    requires env.extentBytes > 0 && k <= |vg.logicalVolumes|
    ensures forall lv :: lv in VolumesUpTo(env, vg, k) ==> exists i :: 0 <= i < k && lv.name == vg.logicalVolumes[i].name
  {
  }

  lemma {:induction false} VolumesRealized(env: Env, vg: VolumeGroup, k: nat, h: Host)
    requires env.extentBytes > 0 && k <= |vg.logicalVolumes| && Plan(env, vg, |vg.logicalVolumes|).Some?
    requires forall i, j :: 0 <= i < j < |vg.logicalVolumes| ==> vg.logicalVolumes[i].name != vg.logicalVolumes[j].name
    requires forall d :: d in Pvs(env, vg) ==> Present(env, h, d)
    ensures RunChain(env, LvCommands(vg.name, vg.logicalVolumes[..k]), Run(WithGroup(env, vg, 0, h), Never))
         == (Run(WithGroup(env, vg, k, h), Never), true)
  {
    if k > 0 {
      hide Issue, WithGroup, Plan, Needs, Allocate, Present;
      VolumesRealized(env, vg, k - 1, h);
      PlanPrefix(env, vg, k, |vg.logicalVolumes|);
      VolumeStep(env, vg, k - 1, h);
      LvCommandsSnoc(vg.name, vg.logicalVolumes, k - 1);
      RunChainOne(env, LvCommands(vg.name, vg.logicalVolumes[..k - 1]),
                  LvCreate(vg.name, vg.logicalVolumes[k - 1].name, vg.logicalVolumes[k - 1].size),
                  Run(WithGroup(env, vg, 0, h), Never));
    }
  }

  lemma WholeGroupRealized(env: Env, md: Storage, mbr: bool, vg: VolumeGroup, h: Host)
    requires SoundPlan(env, md, mbr) && vg in md.volumeGroups && FreshGroup(env, vg, h)
    ensures BuildGroup(env, vg, Run(h, Never)) == Run(WithGroup(env, vg, |vg.logicalVolumes|, h), Never)
  {
    assert SoundGroup(env, md, mbr, vg);
    var devs, lvs := Pvs(env, vg), vg.logicalVolumes;
    var create := VgCreate(vg.name, devs);
    var needs := Needs(lvs, env.extentBytes);
    assert needs[..|lvs|] == needs && lvs[..|lvs|] == lvs && devs[..|devs|] == devs;
    AllocateIff(Capacity(env, devs), needs);
    PvsRealized(env, vg, |devs|, h);
    GroupRealized(env, vg, h);
    VolumesRealized(env, vg, |lvs|, h);
    RunChainOne(env, PvCommands(devs), create, Run(h, Never));
    RunChainAppend(env, PvCommands(devs) + [create], LvCommands(vg.name, lvs), Run(h, Never));
    hide Issue, WithGroup, WithOrphans, SoundPlan, SoundGroup;
  }

  // ---------------------------------------------------------------- all volume groups

  ghost function WithGroups(env: Env, md: Storage, n: nat, h: Host): Host
    requires env.extentBytes > 0 && n <= |md.volumeGroups|
  {
    h.(vgs := LayoutGroups(env, md.volumeGroups[..n]), pvs := LayoutPvs(env, md.volumeGroups[..n]))
  }

  lemma NextGroupPresent(env: Env, md: Storage, mbr: bool, n: nat, h: Host, d: Device)
    requires SoundPlan(env, md, mbr) && n < |md.volumeGroups| && d in Pvs(env, md.volumeGroups[n])
    requires forall k :: k in md.disks ==> Written(env, mbr, k, h)
    requires h.arrays == LayoutArrays(env, md.raid)
    ensures Present(env, h, d)
  {
    assert SoundGroup(env, md, mbr, md.volumeGroups[n]);
    hide Written;
    if d.Md? {
      var r :| r in md.raid && NormalizeRaidDevice(r.name) == d.path;
      var j :| 0 <= j < |md.raid| && md.raid[j] == r;
      EveryArrayLaidOut(env, md.raid, j);
    } else {
      PlannedIsPresent(env, md, mbr, h, d);
    }
  }

  lemma NextGroupDevice(env: Env, md: Storage, mbr: bool, n: nat, h: Host, d: Device)
    requires SoundPlan(env, md, mbr) && n < |md.volumeGroups| && d in Pvs(env, md.volumeGroups[n])
    requires forall k :: k in md.disks ==> Written(env, mbr, k, h)
    requires h == WithGroups(env, md, n, WithArrays(env, md, |md.raid|, h))
    ensures Present(env, h, d) && d !in h.pvs && d !in h.superblocks
  {
    assert md.raid[..|md.raid|] == md.raid;
    NextGroupPresent(env, md, mbr, n, h, d);
    assert SoundGroup(env, md, mbr, md.volumeGroups[n]);
    hide Written, Present, SoundRaid, OnTables;
    if d in h.pvs {
      PvInLayout(env, md.volumeGroups[..n], d);
    }
    if d in h.superblocks {
      SuperblockInLayout(env, md.raid, d);
    }
  }

  lemma NextGroupUnused(env: Env, md: Storage, mbr: bool, n: nat, h: Host, d: Device)
    requires SoundPlan(env, md, mbr) && n < |md.volumeGroups| && d in Pvs(env, md.volumeGroups[n])
    requires h.arrays == LayoutArrays(env, md.raid) && h.vgs == LayoutGroups(env, md.volumeGroups[..n])
    ensures !InUse(h, d)
  {
    assert SoundGroup(env, md, mbr, md.volumeGroups[n]);
    forall a | a in h.arrays ensures d !in h.arrays[a] {
      ArrayInLayout(env, md.raid, a);
      assert d in h.arrays[a] ==> IsMember(env, md, d);
    }
    forall v | v in h.vgs ensures d !in h.vgs[v].pvs {
      GroupInLayout(env, md.volumeGroups[..n], v);
    }
  }

  lemma NextGroupIsFresh(env: Env, md: Storage, mbr: bool, n: nat, h: Host)
    requires SoundPlan(env, md, mbr) && n < |md.volumeGroups|
    requires forall k :: k in md.disks ==> Written(env, mbr, k, h)
    requires h == WithGroups(env, md, n, WithArrays(env, md, |md.raid|, h))
    ensures FreshGroup(env, md.volumeGroups[n], h)
  {
    var vg := md.volumeGroups[n];
    assert md.raid[..|md.raid|] == md.raid;
    if vg.name in h.vgs {
      GroupInLayout(env, md.volumeGroups[..n], vg.name);
    }
    forall d | d in Pvs(env, vg)
      ensures Present(env, h, d) && d !in h.pvs && d !in h.superblocks && !InUse(h, d)
    {
      NextGroupDevice(env, md, mbr, n, h, d);
      NextGroupUnused(env, md, mbr, n, h, d);
    }
    hide SoundPlan, Present, InUse;
  }

  lemma GroupStep(env: Env, md: Storage, mbr: bool, n: nat, h: Host)
    requires SoundPlan(env, md, mbr) && n < |md.volumeGroups| && Prepared(env, md, mbr, h)
    ensures var full := WithArrays(env, md, |md.raid|, h);
      BuildGroup(env, md.volumeGroups[n], Run(WithGroups(env, md, n, full), Never))
      == Run(WithGroups(env, md, n + 1, full), Never)
  {
    var full := WithArrays(env, md, |md.raid|, h);
    var vg, before := md.volumeGroups[n], WithGroups(env, md, n, full);
    WrittenKept(env, md, mbr, h, before);
    NextGroupIsFresh(env, md, mbr, n, before);
    WholeGroupRealized(env, md, mbr, vg, before);
    WithGroupsNext(env, md, n, full);
  }

  lemma WithGroupsNext(env: Env, md: Storage, n: nat, h: Host)
    requires env.extentBytes > 0 && n < |md.volumeGroups|
    ensures var vg := md.volumeGroups[n];
      WithGroup(env, vg, |vg.logicalVolumes|, WithGroups(env, md, n, h)) == WithGroups(env, md, n + 1, h)
  {
    hide VolumesUpTo, Pvs;
    assert md.volumeGroups[..n + 1][..n] == md.volumeGroups[..n];
  }

  lemma BuildGroupsSnoc(env: Env, vgs: seq<VolumeGroup>, n: nat, st: Run)
    requires n < |vgs|
    ensures BuildGroups(env, vgs[..n + 1], st) == BuildGroup(env, vgs[n], BuildGroups(env, vgs[..n], st))
  {
    assert vgs[..n + 1][..n] == vgs[..n];
  }

  lemma NoGroupsYet(env: Env, md: Storage, mbr: bool, h: Host)
    requires ValidStorage(env, md) && Prepared(env, md, mbr, h)
    ensures var full := WithArrays(env, md, |md.raid|, h);
      BuildGroups(env, md.volumeGroups[..0], Run(full, Never)) == Run(WithGroups(env, md, 0, full), Never)
  {
    hide Written, SaneDisks, LayoutArrays, LayoutSuperblocks;
    var full := WithArrays(env, md, |md.raid|, h);
    assert WithGroups(env, md, 0, full) == full;
  }

  lemma {:induction false} GroupsRealized(env: Env, md: Storage, mbr: bool, n: nat, h: Host)
    requires SoundPlan(env, md, mbr) && n <= |md.volumeGroups| && Prepared(env, md, mbr, h)
    ensures var full := WithArrays(env, md, |md.raid|, h);
      BuildGroups(env, md.volumeGroups[..n], Run(full, Never)) == Run(WithGroups(env, md, n, full), Never)
  {
    hide *;
    SoundIsValid(env, md, mbr);
    if n == 0 {
      NoGroupsYet(env, md, mbr, h);
    } else {
      GroupsRealized(env, md, mbr, n - 1, h);
      GroupStep(env, md, mbr, n - 1, h);
      BuildGroupsSnoc(env, md.volumeGroups, n - 1, Run(WithArrays(env, md, |md.raid|, h), Never));
    }
  }

  /** A finished run on metadata that can be carried out, from any state that earlier runs
      (killed or not) have left, builds exactly the described layout. */
  lemma FinishedRunRealizes(env: Env, md: Storage, attempts: seq<Attempt>, mbr: bool)
    requires SoundPlan(env, md, mbr)
    ensures Realized(env, md, mbr, PartitionRun(env, md, mbr, Run(HostAfter(env, md, attempts), Never)).host)
  {
    var h := HostAfter(env, md, attempts);
    ReachableIsSane(env, md, attempts);
    FinishedRunPrepares(env, md, mbr, h);
    var ready := Repartitioned(env, md, mbr, h).host;
    assert md.raid[..|md.raid|] == md.raid && md.volumeGroups[..|md.volumeGroups|] == md.volumeGroups;
    ArraysRealized(env, md, mbr, |md.raid|, ready);
    GroupsRealized(env, md, mbr, |md.volumeGroups|, ready);
    var end := WithGroups(env, md, |md.volumeGroups|, WithArrays(env, md, |md.raid|, ready));
    assert PartitionRun(env, md, mbr, Run(h, Never)) == Run(end, Never);
    forall k | k in md.disks ensures Written(env, mbr, k, end) {
      assert Written(env, mbr, k, ready);
    }
  }

  /** The table on a disk is the one that was asked for: an MBR exactly when MBR is set, with the
      starts, sizes and types of unbounded allocation exactly when the values fit the fields; and the
      kernel shows one partition for every accepted entry. */
  ghost predicate Formatted(env: Env, mbr: bool, d: Disk, h: Host)
    requires d.device in env.disks
  {
    var taken, sectors := Accepted(d.partitions), env.disks[d.device];
    && d.device in h.tables && d.device in h.nodes && h.nodes[d.device] == |taken|
    && (h.tables[d.device].Mbr? <==> mbr)
    && match h.tables[d.device]
       case Mbr(table) => MbrIdeal(taken, sectors, table) <==> MbrInRange(taken, sectors)
       case Gpt(table) => GptIdeal(taken, sectors, table) <==> GptInRange(taken, sectors)
  }

  lemma WrittenIsFormatted(env: Env, mbr: bool, d: Disk, h: Host)
    requires d.device in env.disks && Written(env, mbr, d, h)
    ensures Formatted(env, mbr, d, h)
  {
    if mbr {
      MbrAgreesIffInRange(d.partitions, env.disks[d.device]);
    } else {
      GptAgreesIffInRange(d.partitions, env.disks[d.device]);
    }
    hide Accepted, MbrSlot, GptSlot, MbrIdeal, GptIdeal, MbrInRange, GptInRange;
  }

  /** After a finished run, from any state that earlier runs have left, every disk carries the table
      that the run was asked for. No plan need be possible for the arrays and groups. */
  lemma FinishedRunFormats(env: Env, md: Storage, attempts: seq<Attempt>, mbr: bool, d: Disk)
    requires ValidStorage(env, md) && d in md.disks
    ensures Formatted(env, mbr, d, PartitionRun(env, md, mbr, Run(HostAfter(env, md, attempts), Never)).host)
  {
    var h := HostAfter(env, md, attempts);
    ReachableIsSane(env, md, attempts);
    FinishedRunPrepares(env, md, mbr, h);
    var ready := Repartitioned(env, md, mbr, h);
    assert Sane(env, md, ready.host);
    BuildKeeps(env, md, ready);
    assert Written(env, mbr, d, ready.host);
    WrittenIsFormatted(env, mbr, d, PartitionRun(env, md, mbr, Run(h, Never)).host);
  }

  /** A finished wipe, from any such state, leaves nothing of the storage stack. */
  lemma FinishedWipeClears(env: Env, md: Storage, attempts: seq<Attempt>)
    requires ValidStorage(env, md)
    ensures var h := WipeRun(env, md, Run(HostAfter(env, md, attempts), Never)).host;
      Bare(h) && h.tables == map[]
  {
    var h := HostAfter(env, md, attempts);
    ReachableIsSane(env, md, attempts);
    var st := Run(h, Never);
    CleanPhase(env, md, st);
    FuseNever(env, RemoveGroups(md.volumeGroups), st);
    FuseNever(env, ClearPvs(AllPvs(env, md.volumeGroups)), RunEach(env, RemoveGroups(md.volumeGroups), st));
    FuseNever(env, ResetArrays(env, md.raid), Teardown(env, md, st));
    var clean := Reset(env, md, Teardown(env, md, st));
    assert md.disks[..|md.disks|] == md.disks;
    WipePhase(env, md, |md.disks|, clean);
    FuseNever(env, WipeDisks(md.disks), clean);
    TablesWiped(env, md, |md.disks|, clean);
    var r := WipeRun(env, md, st);
    forall k ensures k !in r.host.tables {
      assert k in r.host.tables ==> IsDisk(md, k);
    }
  }

  lemma WipeOne(env: Env, k: string, h: Host)
    requires k in env.disks
    ensures var r := Issue(env, Run(h, Never), WipeDisk(k)).0; r.fuse == Never && r.host.tables == h.tables - {k}
  {
  }

  lemma {:induction false} TablesWiped(env: Env, md: Storage, n: nat, st: Run)
    requires (forall d :: d in md.disks ==> d.device in env.disks) && n <= |md.disks| && st.fuse == Never
    ensures var r := RunEach(env, WipeDisks(md.disks[..n]), st);
      r.fuse == Never && forall j :: 0 <= j < n ==> md.disks[j].device !in r.host.tables
  {
    if n > 0 {
      TablesWiped(env, md, n - 1, st);
      var before, k := RunEach(env, WipeDisks(md.disks[..n - 1]), st), md.disks[n - 1].device;
      RunEachOne(env, WipeDisks(md.disks[..n - 1]), WipeDisk(k), st);
      assert WipeDisks(md.disks[..n]) == WipeDisks(md.disks[..n - 1]) + [WipeDisk(k)];
      WipeOne(env, k, before.host);
      hide Issue, RunEach;
    }
  }

  // ---------------------------------------------------------------- the phase order matters

  /** `rootio partition` with the array phase moved before the volume-group phase. */
  ghost function SwappedRun(env: Env, md: Storage, mbr: bool, st: Run): Run {
    Build(env, md, RunEach(env, PartitionDisks(env, mbr, md.disks), Teardown(env, md, Reset(env, md, st))))
  }

  const TWO_DISKS: map<string, SectorCount> := map["/dev/sda" := 4096, "/dev/sdb" := 4096]

  function MirrorResolve(path: string): Device {
    if path in TWO_DISKS then Whole(path) else Md(path)
  }

  // A mirror over two disks carrying an empty volume group.
  const MIRROR := Raid("md0", "1", ["/dev/sda", "/dev/sdb"], [])
  const GROUP := VolumeGroup("vg0", ["/dev/md0"], [], [])
  const MIRRORED := Storage([], [MIRROR], [GROUP])
  const MIRROR_ENV := Env(TWO_DISKS, _ => {}, MirrorResolve, _ => 100, 4194304, true)

  lemma MirrorDevices()
    ensures Members(MIRROR_ENV, MIRROR) == [Whole("/dev/sda"), Whole("/dev/sdb")]
    ensures Pvs(MIRROR_ENV, GROUP) == [Md("/dev/md0")]
    ensures NormalizeRaidDevice(MIRROR.name) == "/dev/md0"
    ensures Makeable(MIRROR_ENV, MIRROR) && WellFormedGroup(GROUP)
  {
    assert MIRROR.devices + MIRROR.spare == ["/dev/sda", "/dev/sdb"];
    ShortNameIsValid("md0");
    assert MIRROR.name == "md0";
  }

  lemma ShortNameIsValid(name: string)
    requires |name| == 3 && name[0] == 'm' && name[1] == 'd' && DecimalDigit(name[2])
    ensures ValidRaidName(name)
  {
    var rest := name[2..];
    assert forall i :: 0 <= i < |rest| ==> DecimalDigit(rest[i]);
  }

  lemma MirroredIsValid()
    ensures ValidStorage(MIRROR_ENV, MIRRORED) && SeparateGroups(MIRROR_ENV, MIRRORED.volumeGroups)
    ensures (forall r :: r in MIRRORED.raid <==> r == MIRROR) && forall vg :: vg in MIRRORED.volumeGroups <==> vg == GROUP
  {
    MirrorDevices();
    assert MIRRORED.raid[0] == MIRROR && MIRRORED.volumeGroups[0] == GROUP;
    hide Members, Pvs, NormalizeRaidDevice;
  }

  lemma MirroredIsSound(mbr: bool)
    ensures SoundPlan(MIRROR_ENV, MIRRORED, mbr)
  {
    MirroredIsValid();
    MirrorDevices();
    hide ValidStorage, Makeable, WellFormedGroup, Members, Pvs, NormalizeRaidDevice;
    assert SoundRaid(MIRROR_ENV, MIRRORED, mbr, MIRROR);
    assert SoundGroup(MIRROR_ENV, MIRRORED, mbr, GROUP);
  }

  /** A swapped run that is killed after its first command has only tried to stop the array. */
  lemma SwappedRunKilled(env: Env, md: Storage, mbr: bool, h: Host)
    requires |md.raid| == 1
    ensures SwappedRun(env, md, mbr, Run(h, After(1)))
         == Issue(env, Run(h, After(1)), MdStop(NormalizeRaidDevice(md.raid[0].name))).0
  {
    var stop, rest := MdStop(NormalizeRaidDevice(md.raid[0].name)), ZeroMembers(Members(env, md.raid[0]));
    var st := Run(h, After(1));
    assert md.raid[..0] == [];
    assert ResetArrays(env, md.raid) == [stop] + rest;
    RunEachAppend(env, [stop], rest, st);
    RunEachOne(env, [], stop, st);
    assert [] + [stop] == [stop];
    var killed := Issue(env, st, stop).0;
    RunEachDead(env, rest, killed);
    RunEachDead(env, RemoveGroups(md.volumeGroups), killed);
    RunEachDead(env, ClearPvs(AllPvs(env, md.volumeGroups)), killed);
    RunEachDead(env, PartitionDisks(env, mbr, md.disks), killed);
    BuildDead(env, md, killed);
  }

  /** A command of the first two phases, which only take things away. */
  predicate TakesAway(c: Cmd) {
    c.VgDeactivate? || c.VgRemove? || c.PvRemove? || c.MdStop? || c.MdZero?
  }

  lemma {:induction false} NothingToTakeAway(env: Env, cmds: seq<Cmd>)
    requires forall c :: c in cmds ==> TakesAway(c)
    ensures RunEach(env, cmds, Run(BLANK, Never)) == Run(BLANK, Never)
  {
    if cmds != [] {
      NothingToTakeAway(env, cmds[..|cmds| - 1]);
      assert TakesAway(cmds[|cmds| - 1]);
    }
  }

  lemma {:induction false} RemoveGroupsTakesAway(vgs: seq<VolumeGroup>)
    ensures forall c :: c in RemoveGroups(vgs) ==> TakesAway(c)
  {
    if vgs != [] {
      RemoveGroupsTakesAway(vgs[..|vgs| - 1]);
    }
  }

  lemma {:induction false} ResetArraysTakesAway(env: Env, raid: seq<Raid>)
    ensures forall c :: c in ResetArrays(env, raid) ==> TakesAway(c)
  {
    if raid != [] {
      ResetArraysTakesAway(env, raid[..|raid| - 1]);
    }
  }

  /** On a blank host both orders of the phases do the same: there is nothing to take away. */
  lemma SwappedOnBlank(env: Env, md: Storage, mbr: bool)
    ensures SwappedRun(env, md, mbr, Run(BLANK, Never)) == PartitionRun(env, md, mbr, Run(BLANK, Never))
  {
    RemoveGroupsTakesAway(md.volumeGroups);
    ResetArraysTakesAway(env, md.raid);
    NothingToTakeAway(env, RemoveGroups(md.volumeGroups));
    NothingToTakeAway(env, ClearPvs(AllPvs(env, md.volumeGroups)));
    NothingToTakeAway(env, ResetArrays(env, md.raid));
    hide RunEach, Build;
  }

  /** With the two phases swapped, two runs of the swapped program from a blank host, the second
      killed after its first command, leave a volume group's signature inside a stopped array: the
      state the phase order exists to rule out. */
  lemma SwappedPhasesHide(mbr: bool)
    ensures var built := SwappedRun(MIRROR_ENV, MIRRORED, mbr, Run(BLANK, Never)).host;
      !NothingHidden(SwappedRun(MIRROR_ENV, MIRRORED, mbr, Run(built, After(1))).host)
  {
    var env, md := MIRROR_ENV, MIRRORED;
    MirroredIsSound(mbr);
    MirrorDevices();
    SwappedOnBlank(env, md, mbr);
    FinishedRunRealizes(env, md, [], mbr);
    var built := PartitionRun(env, md, mbr, Run(BLANK, Never)).host;
    assert md.raid[0] == MIRROR && md.volumeGroups[0] == GROUP;
    SwappedRunKilled(env, md, mbr, built);
    hide SwappedRun, PartitionRun, SoundPlan, NothingHidden;
    MirrorLayout(built);
    StopHides(env, built);
  }

  lemma MirrorLayout(h: Host)
    requires h.arrays == LayoutArrays(MIRROR_ENV, MIRRORED.raid)
    requires h.vgs == LayoutGroups(MIRROR_ENV, MIRRORED.volumeGroups)
    requires h.pvs == LayoutPvs(MIRROR_ENV, MIRRORED.volumeGroups)
    ensures "/dev/md0" in h.arrays && (forall a :: a in h.arrays ==> Md("/dev/md0") !in h.arrays[a])
    ensures Md("/dev/md0") in h.pvs && forall v :: v in h.vgs ==> !h.vgs[v].active
  {
    MirrorDevices();
    assert MIRRORED.raid[0] == MIRROR && MIRRORED.volumeGroups[0] == GROUP;
    EveryArrayLaidOut(MIRROR_ENV, MIRRORED.raid, 0);
    EveryGroupLaidOut(MIRROR_ENV, MIRRORED.volumeGroups, 0);
  }

  lemma StopHides(env: Env, h: Host)
    requires "/dev/md0" in h.arrays && (forall a :: a in h.arrays ==> Md("/dev/md0") !in h.arrays[a])
    requires Md("/dev/md0") in h.pvs && forall v :: v in h.vgs ==> !h.vgs[v].active
    ensures !NothingHidden(Issue(env, Run(h, After(1)), MdStop("/dev/md0")).0.host)
  {
    assert Accepts(env, h, MdStop("/dev/md0"));
  }

  lemma {:induction false} ChainDead(env: Env, cmds: seq<Cmd>, st: Run)
    requires !Live(st)
    ensures RunChain(env, cmds, st).0 == st
  {
    if cmds != [] {
      ChainDead(env, cmds[..|cmds| - 1], st);
    }
  }

  lemma {:induction false} GroupsDead(env: Env, vgs: seq<VolumeGroup>, st: Run)
    requires !Live(st)
    ensures BuildGroups(env, vgs, st) == st
  {
    if vgs != [] {
      GroupsDead(env, vgs[..|vgs| - 1], st);
      ChainDead(env, GroupCommands(env, vgs[|vgs| - 1]), st);
    }
  }

  lemma BuildDead(env: Env, md: Storage, st: Run)
    requires !Live(st)
    ensures Build(env, md, st) == st
  {
    RunEachDead(env, CreateArrays(env, md.raid), st);
    GroupsDead(env, md.volumeGroups, st);
  }
}
