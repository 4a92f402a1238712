/** The `rootio partition` and `rootio wipe` commands: what they issue, in which order, and
    where an error ends a sub-sequence instead of being logged. */
module Provision {
  import opened Options
  import opened PartitionTables
  import opened Metadata
  import opened LvmRules
  import opened RaidRules
  import opened HostTools

  // ---------------------------------------------------------------- names to devices

  function Resolve(env: Env, paths: seq<string>): (devs: seq<Device>)
    ensures |devs| == |paths|
    ensures forall i :: 0 <= i < |paths| ==> devs[i] == env.resolve(paths[i])
  {
    seq(|paths|, i requires 0 <= i < |paths| => env.resolve(paths[i]))
  }

  function Members(env: Env, r: Raid): seq<Device> { Resolve(env, r.devices + r.spare) }
  function Pvs(env: Env, vg: VolumeGroup): seq<Device> { Resolve(env, vg.physicalVolumes) }

  function AllPvs(env: Env, vgs: seq<VolumeGroup>): seq<Device> {
    if vgs == [] then [] else AllPvs(env, vgs[..|vgs| - 1]) + Pvs(env, vgs[|vgs| - 1])
  }

  // ---------------------------------------------------------------- runs as functions

  /** Best effort: every command is issued, failures are logged or ignored. */
  function RunEach(env: Env, cmds: seq<Cmd>, st: Run): Run {
    if cmds == [] then st
    else Issue(env, RunEach(env, cmds[..|cmds| - 1], st), cmds[|cmds| - 1]).0
  }

  /** Fail fast: the first command that fails ends the sequence. */
  function RunChain(env: Env, cmds: seq<Cmd>, st: Run): (Run, bool) {
    if cmds == [] then (st, true)
    else
      var (before, ok) := RunChain(env, cmds[..|cmds| - 1], st);
      if ok then Issue(env, before, cmds[|cmds| - 1]) else (before, false)
  }

  function RemoveGroups(vgs: seq<VolumeGroup>): seq<Cmd> {
    if vgs == [] then []
    else RemoveGroups(vgs[..|vgs| - 1]) + [VgDeactivate(vgs[|vgs| - 1].name), VgRemove(vgs[|vgs| - 1].name)]
  }

  function ClearPvs(devs: seq<Device>): (cmds: seq<Cmd>) { seq(|devs|, i requires 0 <= i < |devs| => PvRemove(devs[i])) }

  function ZeroMembers(devs: seq<Device>): seq<Cmd> { seq(|devs|, i requires 0 <= i < |devs| => MdZero(devs[i])) }

  function ResetArrays(env: Env, raid: seq<Raid>): seq<Cmd> {
    if raid == [] then []
    else
      var r := raid[|raid| - 1];
      ResetArrays(env, raid[..|raid| - 1])
      + [MdStop(NormalizeRaidDevice(r.name))] + ZeroMembers(Members(env, r))
  }

  function PlannedTable(env: Env, mbr: bool, d: Disk): Table
    requires d.device in env.disks
  {
    if mbr then Mbr(MbrTable(d.partitions, env.disks[d.device]))
    else Gpt(GptTable(d.partitions, env.disks[d.device]))
  }

  function DiskCommands(env: Env, mbr: bool, d: Disk): seq<Cmd> {
    (if d.wipeTable then [WipeDisk(d.device)] else []) +
    (if d.device in env.disks then [WriteTable(d.device, PlannedTable(env, mbr, d))] else [])
  }

  function PartitionDisks(env: Env, mbr: bool, disks: seq<Disk>): seq<Cmd> {
    if disks == [] then []
    else PartitionDisks(env, mbr, disks[..|disks| - 1]) + DiskCommands(env, mbr, disks[|disks| - 1])
  }

  function WipeDisks(disks: seq<Disk>): seq<Cmd> {
    seq(|disks|, i requires 0 <= i < |disks| => WipeDisk(disks[i].device))
  }

  /** The validator accepts the array, and for a named one /dev/md can be made. */
  predicate Makeable(env: Env, r: Raid) {
    ValidRaid(r) && ("/dev/md/" <= NormalizeRaidDevice(r.name) ==> env.devMd)
  }

  function CreateArrays(env: Env, raid: seq<Raid>): seq<Cmd> {
    if raid == [] then []
    else
      var r := raid[|raid| - 1];
      CreateArrays(env, raid[..|raid| - 1])
      + (if Makeable(env, r) then [MdCreate(NormalizeRaidDevice(r.name), Members(env, r))] else [])
  }

  function GroupCommands(env: Env, vg: VolumeGroup): seq<Cmd> {
    PvCommands(Pvs(env, vg)) + [VgCreate(vg.name, Pvs(env, vg))] + LvCommands(vg.name, vg.logicalVolumes)
  }

  function PvCommands(devs: seq<Device>): seq<Cmd> { seq(|devs|, i requires 0 <= i < |devs| => PvCreate(devs[i])) }

  function LvCommands(vg: string, lvs: seq<LogicalVolume>): seq<Cmd> {
    seq(|lvs|, i requires 0 <= i < |lvs| => LvCreate(vg, lvs[i].name, lvs[i].size))
  }

  ghost function BuildGroup(env: Env, vg: VolumeGroup, st: Run): Run {
    if WellFormedGroup(vg) then RunChain(env, GroupCommands(env, vg), st).0 else st
  }

  ghost function BuildGroups(env: Env, vgs: seq<VolumeGroup>, st: Run): Run {
    if vgs == [] then st
    else BuildGroup(env, vgs[|vgs| - 1], BuildGroups(env, vgs[..|vgs| - 1], st))
  }

  function Teardown(env: Env, md: Storage, st: Run): Run {
    RunEach(env, ClearPvs(AllPvs(env, md.volumeGroups)), RunEach(env, RemoveGroups(md.volumeGroups), st))
  }

  function Reset(env: Env, md: Storage, st: Run): Run {
    RunEach(env, ResetArrays(env, md.raid), st)
  }

  ghost function Build(env: Env, md: Storage, st: Run): Run {
    BuildGroups(env, md.volumeGroups, RunEach(env, CreateArrays(env, md.raid), st))
  }

  /** `rootio partition`, with MBR set or not. */
  ghost function PartitionRun(env: Env, md: Storage, mbr: bool, st: Run): Run {
    Build(env, md, RunEach(env, PartitionDisks(env, mbr, md.disks), Reset(env, md, Teardown(env, md, st))))
  }

  /** `rootio wipe`. */
  ghost function WipeRun(env: Env, md: Storage, st: Run): Run {
    RunEach(env, WipeDisks(md.disks), Reset(env, md, Teardown(env, md, st)))
  }

  // ---------------------------------------------------------------- composition

  lemma {:induction false} RunEachAppend(env: Env, a: seq<Cmd>, b: seq<Cmd>, st: Run)
    ensures RunEach(env, a + b, st) == RunEach(env, b, RunEach(env, a, st))
  {
    if b == [] {
      assert a + b == a;
    } else {
      RunEachAppend(env, a, b[..|b| - 1], st);
      assert (a + b)[..|a + b| - 1] == a + b[..|b| - 1];
    }
  }

  lemma RunEachOne(env: Env, cmds: seq<Cmd>, c: Cmd, st: Run)
    ensures RunEach(env, cmds + [c], st) == Issue(env, RunEach(env, cmds, st), c).0
  {
    assert (cmds + [c])[..|cmds|] == cmds;
  }

  lemma ClearPvsSnoc(env: Env, vgs: seq<VolumeGroup>, i: nat)
    requires i < |vgs|
    ensures ClearPvs(AllPvs(env, vgs[..i + 1])) == ClearPvs(AllPvs(env, vgs[..i])) + ClearPvs(Pvs(env, vgs[i]))
  {
    assert vgs[..i + 1][..i] == vgs[..i];
  }

  lemma LvCommandsSnoc(vg: string, lvs: seq<LogicalVolume>, i: nat)
    requires i < |lvs|
    ensures LvCommands(vg, lvs[..i + 1]) == LvCommands(vg, lvs[..i]) + [LvCreate(vg, lvs[i].name, lvs[i].size)]
    ensures LvCommands(vg, lvs) == LvCommands(vg, lvs[..i + 1]) + LvCommands(vg, lvs[i + 1..])
  {
  }

  lemma RunChainOne(env: Env, cmds: seq<Cmd>, c: Cmd, st: Run)
    ensures RunChain(env, cmds + [c], st) ==
      if RunChain(env, cmds, st).1 then Issue(env, RunChain(env, cmds, st).0, c) else RunChain(env, cmds, st)
  {
    assert (cmds + [c])[..|cmds|] == cmds;
  }

  lemma {:induction false} RunChainAppend(env: Env, a: seq<Cmd>, b: seq<Cmd>, st: Run)
    ensures var (mid, ok) := RunChain(env, a, st);
      RunChain(env, a + b, st) == if ok then RunChain(env, b, mid) else (mid, false)
  {
    if b == [] {
      assert a + b == a;
    } else {
      RunChainAppend(env, a, b[..|b| - 1], st);
      assert (a + b)[..|a + b| - 1] == a + b[..|b| - 1];
    }
  }

  // ---------------------------------------------------------------- which commands are issued

  /** The devices of an array are the listed ones and then the spares. */
  lemma MembersInOrder(env: Env, r: Raid)
    ensures |Members(env, r)| == |r.devices| + |r.spare|
    ensures forall i :: 0 <= i < |r.devices| ==> Members(env, r)[i] == env.resolve(r.devices[i])
    ensures forall j :: 0 <= j < |r.spare| ==> Members(env, r)[|r.devices| + j] == env.resolve(r.spare[j])
  {
  }

  /** Each group is deactivated and then removed, in order. */
  lemma {:induction false} RemoveGroupsAt(vgs: seq<VolumeGroup>, i: nat)
    requires i < |vgs|
    ensures var cmds := RemoveGroups(vgs);
      |cmds| == 2 * |vgs| && cmds[2 * i] == VgDeactivate(vgs[i].name) && cmds[2 * i + 1] == VgRemove(vgs[i].name)
  {
    var n := |vgs| - 1;
    if n > 0 {
      RemoveGroupsAt(vgs[..n], if i < n then i else 0);
    }
  }

  /** The disks that are wiped are those that ask for it. */
  lemma {:induction false} WipesTheFlagged(env: Env, mbr: bool, disks: seq<Disk>, k: string)
    ensures WipeDisk(k) in PartitionDisks(env, mbr, disks) <==> exists d :: d in disks && d.device == k && d.wipeTable
  {
    if disks != [] {
      var front, d := disks[..|disks| - 1], disks[|disks| - 1];
      WipesTheFlagged(env, mbr, front, k);
      assert disks == front + [d];
      assert WipeDisk(k) in DiskCommands(env, mbr, d) <==> d.device == k && d.wipeTable;
      hide DiskCommands;
    }
  }

  /** An array is created for each accepted entry whose name, if it is not a number, has a directory
      to go to. */
  lemma {:induction false} CreatesTheAccepted(env: Env, raid: seq<Raid>, a: string, members: seq<Device>)
    ensures MdCreate(a, members) in CreateArrays(env, raid) <==>
      exists r :: r in raid && NormalizeRaidDevice(r.name) == a && Members(env, r) == members
                  && ValidRaid(r) && ("md/" <= r.name || "/dev/md/" <= r.name ==> env.devMd)
  {
    if raid != [] {
      var front, r := raid[..|raid| - 1], raid[|raid| - 1];
      CreatesTheAccepted(env, front, a, members);
      assert raid == front + [r];
      NamedGoesToDevMd(r.name);
      hide ValidRaid, NormalizeRaidDevice, Members;
    }
  }

  lemma NamedGoesToDevMd(name: string)
    ensures "/dev/md/" <= NormalizeRaidDevice(name) <==> "md/" <= name || "/dev/md/" <= name
  {
    assert "/dev/md/" <= name ==> name[..5] == "/dev/md/"[..5] == "/dev/";
    if "/dev/" <= name {
      assert name[0] == '/';
    } else {
      var full := "/dev/" + name;
      assert "/dev/md/" == "/dev/" + "md/";
      assert "/dev/md/" <= full ==> |full| >= 8 && name[..3] == full[5..8] == "/dev/md/"[5..8] == "md/";
      assert "md/" <= name ==> full[..8] == "/dev/" + name[..3];
    }
  }

  // ---------------------------------------------------------------- the program

  datatype Outcome = Done | Rejected | CommandFailed | RejectedByDriver

  class RootIO {
    const env: Env
    var st: Run

    constructor (env: Env, st: Run)
      ensures this.env == env && this.st == st
    {
      this.env := env;
      this.st := st;
    }

    method Call(c: Cmd) returns (ok: bool)
      modifies this
      ensures (st, ok) == Issue(env, old(st), c)
    {
      var r := Issue(env, st, c);
      st := r.0;
      ok := r.1;
    }

    method RemoveVolumeGroups(vgs: seq<VolumeGroup>)
      modifies this
      ensures st == RunEach(env, RemoveGroups(vgs), old(st))
    {
      for i := 0 to |vgs|
        invariant st == RunEach(env, RemoveGroups(vgs[..i]), old(st))
      {
        ghost var cmds := RemoveGroups(vgs[..i]);
        var off := Call(VgDeactivate(vgs[i].name));
        var gone := Call(VgRemove(vgs[i].name));
        RunEachOne(env, cmds, VgDeactivate(vgs[i].name), old(st));
        RunEachOne(env, cmds + [VgDeactivate(vgs[i].name)], VgRemove(vgs[i].name), old(st));
        assert vgs[..i + 1][..i] == vgs[..i];
        assert RemoveGroups(vgs[..i + 1]) == cmds + [VgDeactivate(vgs[i].name)] + [VgRemove(vgs[i].name)];
      }
      assert vgs[..|vgs|] == vgs;
    }

    method RemovePhysicalVolumes(devs: seq<Device>)
      modifies this
      ensures st == RunEach(env, ClearPvs(devs), old(st))
    {
      for j := 0 to |devs|
        invariant st == RunEach(env, ClearPvs(devs[..j]), old(st))
      {
        var gone := Call(PvRemove(devs[j]));
        RunEachOne(env, ClearPvs(devs[..j]), PvRemove(devs[j]), old(st));
        assert ClearPvs(devs[..j + 1]) == ClearPvs(devs[..j]) + [PvRemove(devs[j])];
      }
      assert devs[..|devs|] == devs;
    }

    method RemoveAllPhysicalVolumes(vgs: seq<VolumeGroup>)
      modifies this
      ensures st == RunEach(env, ClearPvs(AllPvs(env, vgs)), old(st))
    {
      for i := 0 to |vgs|
        invariant st == RunEach(env, ClearPvs(AllPvs(env, vgs[..i])), old(st))
      {
        RemovePhysicalVolumes(Pvs(env, vgs[i]));
        RunEachAppend(env, ClearPvs(AllPvs(env, vgs[..i])), ClearPvs(Pvs(env, vgs[i])), old(st));
        ClearPvsSnoc(env, vgs, i);
      }
      assert vgs[..|vgs|] == vgs;
    }

    method TeardownVolumeGroups(vgs: seq<VolumeGroup>)
      modifies this
      ensures st == RunEach(env, ClearPvs(AllPvs(env, vgs)), RunEach(env, RemoveGroups(vgs), old(st)))
    {
      RemoveVolumeGroups(vgs);
      RemoveAllPhysicalVolumes(vgs);
    }

    method StopRAID(name: string)
      modifies this
      ensures st == Issue(env, old(st), MdStop(NormalizeRaidDevice(name))).0
    {
      var dev := NormalizeRaidDevice(name);
      var stopped := Call(MdStop(dev));
    }

    method ZeroSuperblocks(devs: seq<Device>)
      modifies this
      ensures st == RunEach(env, ZeroMembers(devs), old(st))
    {
      for j := 0 to |devs|
        invariant st == RunEach(env, ZeroMembers(devs[..j]), old(st))
      {
        var zeroed := Call(MdZero(devs[j]));
        RunEachOne(env, ZeroMembers(devs[..j]), MdZero(devs[j]), old(st));
        assert ZeroMembers(devs[..j + 1]) == ZeroMembers(devs[..j]) + [MdZero(devs[j])];
      }
      assert devs[..|devs|] == devs;
    }

    method ResetRaid(raid: seq<Raid>)
      modifies this
      ensures st == RunEach(env, ResetArrays(env, raid), old(st))
    {
      for i := 0 to |raid|
        invariant st == RunEach(env, ResetArrays(env, raid[..i]), old(st))
      {
        ghost var cmds, stop := ResetArrays(env, raid[..i]), MdStop(NormalizeRaidDevice(raid[i].name));
        StopRAID(raid[i].name);
        ZeroSuperblocks(Resolve(env, raid[i].devices + raid[i].spare));
        RunEachOne(env, cmds, stop, old(st));
        RunEachAppend(env, cmds + [stop], ZeroMembers(Members(env, raid[i])), old(st));
        assert raid[..i + 1][..i] == raid[..i];
      }
      assert raid[..|raid|] == raid;
    }

    method Partition(d: Disk, mbr: bool) returns (ok: bool)
      modifies this
      ensures d.device !in env.disks ==> st == old(st) && !ok
      ensures d.device in env.disks ==>
        (st, ok) == Issue(env, old(st), WriteTable(d.device, PlannedTable(env, mbr, d)))
    {
      if d.device !in env.disks {
        return false;
      }
      if mbr {
        var table := BuildMbrTable(d.partitions, env.disks[d.device]);
        ok := Call(WriteTable(d.device, Mbr(table)));
      } else {
        var table := BuildGptTable(d.partitions, env.disks[d.device]);
        ok := Call(WriteTable(d.device, Gpt(table)));
      }
    }

    method CreateRAID(r: Raid) returns (ok: bool)
      modifies this
      ensures !Makeable(env, r) ==> st == old(st) && !ok
      ensures Makeable(env, r) ==>
        (st, ok) == Issue(env, old(st), MdCreate(NormalizeRaidDevice(r.name), Members(env, r)))
    {
      if !ValidRaid(r) {
        return false;
      }
      var dev := NormalizeRaidDevice(r.name);
      if "/dev/md/" <= dev && !env.devMd {
        return false;
      }
      ok := Call(MdCreate(dev, Resolve(env, r.devices + r.spare)));
    }

    method CreatePhysicalVolumes(devs: seq<Device>) returns (ok: bool)
      modifies this
      ensures (st, ok) == RunChain(env, PvCommands(devs), old(st))
    {
      for i := 0 to |devs|
        invariant (st, true) == RunChain(env, PvCommands(devs[..i]), old(st))
      {
        ok := Call(PvCreate(devs[i]));
        RunChainOne(env, PvCommands(devs[..i]), PvCreate(devs[i]), old(st));
        assert PvCommands(devs[..i + 1]) == PvCommands(devs[..i]) + [PvCreate(devs[i])];
        if !ok {
          RunChainAppend(env, PvCommands(devs[..i + 1]), PvCommands(devs[i + 1..]), old(st));
          assert PvCommands(devs) == PvCommands(devs[..i + 1]) + PvCommands(devs[i + 1..]);
          return;
        }
      }
      assert devs[..|devs|] == devs;
      ok := true;
    }

    method CreateLogicalVolumes(vg: string, lvs: seq<LogicalVolume>) returns (outcome: Outcome)
      modifies this
      ensures outcome != Rejected
      ensures outcome == RejectedByDriver ==> exists lv :: lv in lvs && !DriverAcceptsVolume(lv)
      ensures outcome != RejectedByDriver ==>
        (st, outcome == Done) == RunChain(env, LvCommands(vg, lvs), old(st))
    {
      for i := 0 to |lvs|
        invariant (st, true) == RunChain(env, LvCommands(vg, lvs[..i]), old(st))
      {
        if !DriverAcceptsVolume(lvs[i]) {
          return RejectedByDriver;
        }
        var c := LvCreate(vg, lvs[i].name, lvs[i].size);
        var ok := Call(c);
        RunChainOne(env, LvCommands(vg, lvs[..i]), c, old(st));
        LvCommandsSnoc(vg, lvs, i);
        if !ok {
          RunChainAppend(env, LvCommands(vg, lvs[..i + 1]), LvCommands(vg, lvs[i + 1..]), old(st));
          return CommandFailed;
        }
      }
      assert lvs[..|lvs|] == lvs;
      outcome := Done;
    }

    /** A rejected group issues no command, and a group that passes is never turned down by the
        driver's own validators later on. */
    method CreateVolumeGroup(vg: VolumeGroup) returns (outcome: Outcome)
      modifies this
      ensures st == BuildGroup(env, vg, old(st))
      ensures outcome == Rejected <==> !WellFormedGroup(vg)
      ensures outcome == Rejected ==> st == old(st)
      ensures outcome != RejectedByDriver
      ensures outcome == Done <==> WellFormedGroup(vg) && RunChain(env, GroupCommands(env, vg), old(st)).1
    {
      var e := ValidateVolumeGroup(vg);
      if e.Some? {
        return Rejected;
      }
      var devs := Pvs(env, vg);
      ghost var create, volumes := VgCreate(vg.name, devs), LvCommands(vg.name, vg.logicalVolumes);
      RunChainAppend(env, PvCommands(devs) + [create], volumes, st);
      RunChainOne(env, PvCommands(devs), create, st);
      var ok := CreatePhysicalVolumes(devs);
      if !ok {
        return CommandFailed;
      }
      if !DriverAcceptsGroup(vg) {
        return RejectedByDriver;
      }
      ok := Call(VgCreate(vg.name, devs));
      if !ok {
        return CommandFailed;
      }
      outcome := CreateLogicalVolumes(vg.name, vg.logicalVolumes);
    }

    method PartitionAllDisks(disks: seq<Disk>, mbr: bool)
      modifies this
      ensures st == RunEach(env, PartitionDisks(env, mbr, disks), old(st))
    {
      hide Issue, RunEach, DiskCommands, PlannedTable;
      assert st == RunEach(env, PartitionDisks(env, mbr, disks[..0]), st) by { NothingRuns(env, mbr, disks, st); }
      for i := 0 to |disks|
        invariant st == RunEach(env, PartitionDisks(env, mbr, disks[..i]), old(st))
      {
        ghost var before := st;
        if disks[i].wipeTable {
          var wiped := Call(WipeDisk(disks[i].device));
        }
        var ok := Partition(disks[i], mbr);
        RunDiskCommands(env, mbr, disks[i], before, st);
        RunEachAppend(env, PartitionDisks(env, mbr, disks[..i]), DiskCommands(env, mbr, disks[i]), old(st));
        assert disks[..i + 1][..i] == disks[..i];
      }
      assert disks[..|disks|] == disks;
    }

    method CreateAllArrays(raid: seq<Raid>)
      modifies this
      ensures st == RunEach(env, CreateArrays(env, raid), old(st))
    {
      for i := 0 to |raid|
        invariant st == RunEach(env, CreateArrays(env, raid[..i]), old(st))
      {
        ghost var cmds := CreateArrays(env, raid[..i]);
        var ok := CreateRAID(raid[i]);
        RunEachOne(env, cmds, MdCreate(NormalizeRaidDevice(raid[i].name), Members(env, raid[i])), old(st));
        assert raid[..i + 1][..i] == raid[..i];
        assert cmds + [] == cmds;
      }
      assert raid[..|raid|] == raid;
    }

    method CreateAllGroups(vgs: seq<VolumeGroup>)
      modifies this
      ensures st == BuildGroups(env, vgs, old(st))
    {
      for i := 0 to |vgs|
        invariant st == BuildGroups(env, vgs[..i], old(st))
      {
        var outcome := CreateVolumeGroup(vgs[i]);
        assert vgs[..i + 1][..i] == vgs[..i];
      }
      assert vgs[..|vgs|] == vgs;
    }

    method PartitionCommand(md: Storage, mbr: bool)
      modifies this
      ensures st == PartitionRun(env, md, mbr, old(st))
    {
      TeardownVolumeGroups(md.volumeGroups);
      ResetRaid(md.raid);
      PartitionAllDisks(md.disks, mbr);
      CreateAllArrays(md.raid);
      CreateAllGroups(md.volumeGroups);
    }

    method WipeCommand(md: Storage)
      modifies this
      ensures st == WipeRun(env, md, old(st))
    {
      TeardownVolumeGroups(md.volumeGroups);
      ResetRaid(md.raid);
      ghost var clean := st;
      for i := 0 to |md.disks|
        invariant st == RunEach(env, WipeDisks(md.disks[..i]), clean)
      {
        var wiped := Call(WipeDisk(md.disks[i].device));
        RunEachOne(env, WipeDisks(md.disks[..i]), WipeDisk(md.disks[i].device), clean);
        assert WipeDisks(md.disks[..i + 1]) == WipeDisks(md.disks[..i]) + [WipeDisk(md.disks[i].device)];
      }
      assert md.disks[..|md.disks|] == md.disks;
    }
  }

  lemma NothingRuns(env: Env, mbr: bool, disks: seq<Disk>, st: Run)
    ensures RunEach(env, PartitionDisks(env, mbr, disks[..0]), st) == st
  {
  }

  lemma RunDiskCommands(env: Env, mbr: bool, d: Disk, before: Run, after: Run)
    requires var mid := if d.wipeTable then Issue(env, before, WipeDisk(d.device)).0 else before;
      after == if d.device in env.disks then Issue(env, mid, WriteTable(d.device, PlannedTable(env, mbr, d))).0 else mid
    ensures after == RunEach(env, DiskCommands(env, mbr, d), before)
  {
    var wipe := if d.wipeTable then [WipeDisk(d.device)] else [];
    if d.wipeTable {
      RunEachOne(env, [], WipeDisk(d.device), before);
      assert [] + [WipeDisk(d.device)] == wipe;
    }
    if d.device in env.disks {
      RunEachOne(env, wipe, WriteTable(d.device, PlannedTable(env, mbr, d)), before);
    } else {
      assert wipe + [] == wipe;
    }
  }
}
