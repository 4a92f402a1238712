/** Crash-and-re-run convergence of the storage pipeline: what every killed or finished
    `partition` and `wipe` run keeps, and what one finished `partition` run always reaches. */
module Convergence {
  import opened Options
  import opened PartitionTables
  import opened Metadata
  import opened LvmRules
  import opened RaidRules
  import opened HostTools
  import opened Provision

  // ---------------------------------------------------------------- valid metadata

  /** Attached, distinct disks; arrays with distinct paths and separate, non-array members; and no
      disk that gets a partition table is also used whole. Volume groups may share names and
      physical volumes: those that cannot be built are not. */
  ghost predicate ValidStorage(env: Env, md: Storage) {
    && env.extentBytes > 0
    && (forall d :: d in md.disks ==> d.device in env.disks)
    && (forall i, j :: 0 <= i < j < |md.disks| ==> md.disks[i].device != md.disks[j].device)
    && (forall i, j :: 0 <= i < j < |md.raid| ==>
         NormalizeRaidDevice(md.raid[i].name) != NormalizeRaidDevice(md.raid[j].name))
    && (forall i, j, d :: 0 <= i < j < |md.raid| && d in Members(env, md.raid[i]) ==> d !in Members(env, md.raid[j]))
    && (forall r, d :: r in md.raid && d in Members(env, r) ==> !d.Md?)
    && (forall r, k :: r in md.raid && k in md.disks ==> Whole(k.device) !in Members(env, r))
    && (forall vg, k :: vg in md.volumeGroups && k in md.disks ==> Whole(k.device) !in Pvs(env, vg))
  }

  ghost predicate IsDisk(md: Storage, k: string) { exists d :: d in md.disks && d.device == k }

  ghost predicate IsArray(env: Env, md: Storage, a: string, members: seq<Device>) {
    exists r :: r in md.raid && NormalizeRaidDevice(r.name) == a && Members(env, r) == members
  }

  ghost predicate IsMember(env: Env, md: Storage, d: Device) { exists r :: r in md.raid && d in Members(env, r) }

  ghost predicate IsGroup(env: Env, md: Storage, v: string, pvs: seq<Device>) {
    exists vg :: vg in md.volumeGroups && vg.name == v && Pvs(env, vg) == pvs
  }

  ghost predicate IsPv(env: Env, md: Storage, d: Device) { exists vg :: vg in md.volumeGroups && d in Pvs(env, vg) }

  // ---------------------------------------------------------------- the invariant between runs

  /** No physical-volume signature sits inside an array that is not assembled. */
  ghost predicate NothingHidden(h: Host) {
    forall a :: Md(a) in h.pvs ==> a in h.arrays
  }

  ghost predicate SaneDisks(md: Storage, h: Host) {
    && (forall k :: k in h.tables ==> IsDisk(md, k))
    && (forall k :: k in h.nodes ==> IsDisk(md, k))
  }

  ghost predicate SaneArrays(env: Env, md: Storage, h: Host) {
    && (forall a :: a in h.arrays ==> IsArray(env, md, a, h.arrays[a]))
    && (forall d :: d in h.superblocks ==> IsMember(env, md, d) && Present(env, h, d))
  }

  ghost predicate ShownPvs(env: Env, md: Storage, h: Host) {
    forall d :: d in h.pvs ==> IsPv(env, md, d) && Present(env, h, d)
  }

  /** The groups are the metadata's, and each owns exactly the signatures that name it. */
  ghost predicate SaneGroups(env: Env, md: Storage, pvs: map<Device, Option<string>>, vgs: map<string, Vg>) {
    && (forall v :: v in vgs ==> IsGroup(env, md, v, vgs[v].pvs))
    && (forall v, d :: v in vgs && d in vgs[v].pvs ==> d in pvs && pvs[d] == Some(v))
    && (forall d :: d in pvs && pvs[d].Some? ==> pvs[d].value in vgs)
  }

  /** Everything on the host is visible and comes from this metadata. */
  ghost predicate Sane(env: Env, md: Storage, h: Host) {
    && SaneDisks(md, h)
    && SaneArrays(env, md, h)
    && ShownPvs(env, md, h)
    && SaneGroups(env, md, h.pvs, h.vgs)
  }

  ghost predicate NoLvm(h: Host) {
    && h.vgs == map[]
    && h.pvs == map[]
  }

  ghost predicate Bare(h: Host) {
    && NoLvm(h)
    && h.arrays == map[]
    && h.superblocks == map[]
  }

  lemma SaneHidesNothing(env: Env, md: Storage, h: Host)
    requires Sane(env, md, h)
    ensures NothingHidden(h)
  {
    forall a | Md(a) in h.pvs ensures a in h.arrays {
      assert Present(env, h, Md(a));
    }
  }

  // ---------------------------------------------------------------- single commands

  ghost predicate SameDisks(a: Host, b: Host) { a.tables == b.tables && a.nodes == b.nodes }

  /** A change of volume groups and signatures alone keeps the rest. */
  lemma LvmChanged(env: Env, md: Storage, h: Host, pvs: map<Device, Option<string>>, vgs: map<string, Vg>)
    requires Sane(env, md, h) && SaneGroups(env, md, pvs, vgs)
    requires forall d :: d in pvs ==> d in h.pvs || (IsPv(env, md, d) && Present(env, h, d))
    ensures Sane(env, md, h.(pvs := pvs, vgs := vgs))
  {
    hide SaneGroups, IsPv;
    var h' := h.(pvs := pvs, vgs := vgs);
    assert forall d :: Present(env, h', d) == Present(env, h, d);
  }

  lemma Deactivated(env: Env, md: Storage, h: Host, v: string)
    requires Sane(env, md, h) && v in h.vgs
    ensures Sane(env, md, h.(vgs := h.vgs[v := h.vgs[v].(active := false)]))
  {
    var vgs := h.vgs[v := h.vgs[v].(active := false)];
    hide IsGroup;
    assert SaneGroups(env, md, h.pvs, vgs);
    LvmChanged(env, md, h, h.pvs, vgs);
  }

  lemma DeactivateKeeps(env: Env, md: Storage, h: Host, v: string)
    requires Sane(env, md, h)
    ensures var h' := Exec(env, h, VgDeactivate(v)); Sane(env, md, h') && h'.vgs.Keys == h.vgs.Keys
  {
    hide Sane;
    if v in h.vgs {
      Deactivated(env, md, h, v);
    }
  }

  ghost function Orphaned(pvs: map<Device, Option<string>>, v: string): map<Device, Option<string>> {
    map d | d in pvs :: if pvs[d] == Some(v) then None else pvs[d]
  }

  lemma GroupDropped(env: Env, md: Storage, h: Host, v: string)
    requires Sane(env, md, h)
    ensures Sane(env, md, h.(vgs := h.vgs - {v}, pvs := Orphaned(h.pvs, v)))
  {
    hide IsGroup, IsPv, Present;
    assert SaneGroups(env, md, Orphaned(h.pvs, v), h.vgs - {v});
    LvmChanged(env, md, h, Orphaned(h.pvs, v), h.vgs - {v});
  }

  lemma GroupIsVisible(env: Env, md: Storage, h: Host, v: string)
    requires Sane(env, md, h) && v in h.vgs
    ensures Visible(env, h, v)
  {
    hide IsGroup, IsPv, Present, SaneArrays, SaneDisks;
  }

  lemma RemoveGroupKeeps(env: Env, md: Storage, h: Host, v: string)
    requires Sane(env, md, h)
    ensures var h' := Exec(env, h, VgRemove(v)); Sane(env, md, h') && h'.vgs.Keys == h.vgs.Keys - {v}
  {
    hide Sane;
    if v in h.vgs {
      GroupIsVisible(env, md, h, v);
      GroupDropped(env, md, h, v);
      hide Visible;
      assert Exec(env, h, VgRemove(v)) == h.(vgs := h.vgs - {v}, pvs := Orphaned(h.pvs, v));
    }
  }

  lemma PvIsPresent(env: Env, md: Storage, h: Host, d: Device)
    requires Sane(env, md, h) && d in h.pvs
    ensures Present(env, h, d)
  {
  }

  lemma PvDropped(env: Env, md: Storage, h: Host, d: Device)
    requires Sane(env, md, h) && h.vgs == map[]
    ensures Sane(env, md, h.(pvs := h.pvs - {d}))
  {
    hide IsPv, Present;
    assert SaneGroups(env, md, h.pvs - {d}, h.vgs);
    LvmChanged(env, md, h, h.pvs - {d}, h.vgs);
  }

  lemma RemovePvKeeps(env: Env, md: Storage, h: Host, d: Device)
    requires Sane(env, md, h) && h.vgs == map[]
    ensures var h' := Exec(env, h, PvRemove(d));
      Sane(env, md, h') && h'.vgs == map[] && h'.pvs.Keys == h.pvs.Keys - {d}
  {
    hide Sane;
    if d in h.pvs {
      PvIsPresent(env, md, h, d);
      PvDropped(env, md, h, d);
    }
  }

  lemma ArrayIsFree(env: Env, md: Storage, h: Host, a: string)
    requires ValidStorage(env, md) && SaneArrays(env, md, h) && NoLvm(h)
    ensures !InUse(h, Md(a))
  {
    forall b | b in h.arrays ensures Md(a) !in h.arrays[b] {
      assert IsArray(env, md, b, h.arrays[b]);
    }
  }

  lemma ArrayDropped(env: Env, md: Storage, h: Host, a: string)
    requires ValidStorage(env, md) && Sane(env, md, h) && NoLvm(h)
    ensures Sane(env, md, h.(arrays := h.arrays - {a}))
  {
    var h' := h.(arrays := h.arrays - {a});
    forall d | d in h'.superblocks ensures Present(env, h', d) {
      assert IsMember(env, md, d) && Present(env, h, d);
    }
  }

  lemma StopKeeps(env: Env, md: Storage, h: Host, a: string)
    requires ValidStorage(env, md) && Sane(env, md, h) && NoLvm(h)
    ensures var h' := Exec(env, h, MdStop(a));
      Sane(env, md, h') && NoLvm(h') && h'.arrays.Keys == h.arrays.Keys - {a} && h'.superblocks == h.superblocks
  {
    ArrayIsFree(env, md, h, a);
    ArrayDropped(env, md, h, a);
    hide Sane, ValidStorage, InUse;
  }

  lemma SuperblockDropped(env: Env, md: Storage, h: Host, d: Device)
    requires Sane(env, md, h)
    ensures d in h.superblocks ==> Present(env, h, d)
    ensures Sane(env, md, h.(superblocks := h.superblocks - {d}))
  {
    hide SaneGroups, IsDisk, IsMember, IsArray, IsPv;
    var h' := h.(superblocks := h.superblocks - {d});
    assert forall e :: Present(env, h', e) == Present(env, h, e);
  }

  lemma ZeroKeeps(env: Env, md: Storage, h: Host, d: Device)
    requires Sane(env, md, h) && NoLvm(h) && !InArray(h, d)
    ensures var h' := Exec(env, h, MdZero(d));
      Sane(env, md, h') && NoLvm(h') && h'.arrays == h.arrays && h'.superblocks.Keys == h.superblocks.Keys - {d}
  {
    SuperblockDropped(env, md, h, d);
    hide Sane, Present;
    assert !HeldByLvm(h, d);
  }

  ghost function ArrayOn(h: Host, a: string, members: seq<Device>): Host {
    h.(arrays := h.arrays[a := members], superblocks := h.superblocks + map d | d in members :: a)
  }

  lemma ArrayAdded(env: Env, md: Storage, h: Host, a: string, members: seq<Device>)
    requires Sane(env, md, h) && IsArray(env, md, a, members) && forall d :: d in members ==> Present(env, h, d)
    ensures Sane(env, md, ArrayOn(h, a, members))
  {
    hide SaneGroups, IsDisk, IsPv, IsArray, IsMember;
    var h' := ArrayOn(h, a, members);
    MembersOfArray(env, md, a, members);
    assert forall d :: Present(env, h, d) ==> Present(env, h', d);
    hide Present;
    forall d | d in h'.superblocks ensures IsMember(env, md, d) && Present(env, h', d) {
    }
  }

  lemma MembersOfArray(env: Env, md: Storage, a: string, members: seq<Device>)
    requires IsArray(env, md, a, members)
    ensures forall d :: d in members ==> IsMember(env, md, d)
  {
    var r :| r in md.raid && NormalizeRaidDevice(r.name) == a && Members(env, r) == members;
    forall d | d in members ensures IsMember(env, md, d) {
      assert d in Members(env, r);
    }
  }

  lemma CreateArrayKeeps(env: Env, md: Storage, h: Host, r: Raid)
    requires Sane(env, md, h) && r in md.raid
    ensures var h' := Exec(env, h, MdCreate(NormalizeRaidDevice(r.name), Members(env, r)));
      Sane(env, md, h') && SameDisks(h', h)
  {
    hide Sane;
    var a, members := NormalizeRaidDevice(r.name), Members(env, r);
    if Accepts(env, h, MdCreate(a, members)) {
      assert IsArray(env, md, a, members);
      ArrayAdded(env, md, h, a, members);
      assert Exec(env, h, MdCreate(a, members)) == ArrayOn(h, a, members);
    }
  }

  lemma PvAdded(env: Env, md: Storage, h: Host, d: Device)
    requires Sane(env, md, h) && IsPv(env, md, d) && Present(env, h, d) && d !in h.pvs
    ensures Sane(env, md, h.(pvs := h.pvs[d := None]))
  {
    hide IsGroup, SaneArrays, SaneDisks;
    assert SaneGroups(env, md, h.pvs[d := None], h.vgs);
    LvmChanged(env, md, h, h.pvs[d := None], h.vgs);
  }

  lemma CreatePvKeeps(env: Env, md: Storage, h: Host, d: Device)
    requires Sane(env, md, h) && IsPv(env, md, d)
    ensures var h' := Exec(env, h, PvCreate(d)); Sane(env, md, h') && SameDisks(h', h)
  {
    hide Sane;
    if Accepts(env, h, PvCreate(d)) {
      PvAdded(env, md, h, d);
    }
  }

  ghost function OwnedBy(pvs: map<Device, Option<string>>, devs: seq<Device>, v: string): map<Device, Option<string>> {
    pvs + map d | d in devs :: Some(v)
  }

  lemma GroupAdded(env: Env, md: Storage, h: Host, v: string, pvs: seq<Device>)
    requires Sane(env, md, h) && IsGroup(env, md, v, pvs) && v !in h.vgs
    requires forall d :: d in pvs ==> d in h.pvs && h.pvs[d] == None
    ensures Sane(env, md, h.(vgs := h.vgs[v := Vg(pvs, [], false)], pvs := OwnedBy(h.pvs, pvs, v)))
  {
    hide IsGroup, IsPv, SaneArrays, SaneDisks, ShownPvs, Present;
    var vgs, owned := h.vgs[v := Vg(pvs, [], false)], OwnedBy(h.pvs, pvs, v);
    forall w, d | w in vgs && d in vgs[w].pvs ensures d in owned && owned[d] == Some(w) {
      if w != v {
        assert d in h.pvs && h.pvs[d] == Some(w);
      }
    }
    assert SaneGroups(env, md, owned, vgs);
    LvmChanged(env, md, h, owned, vgs);
  }

  lemma CreateGroupKeeps(env: Env, md: Storage, h: Host, vg: VolumeGroup)
    requires Sane(env, md, h) && vg in md.volumeGroups
    ensures var h' := Exec(env, h, VgCreate(vg.name, Pvs(env, vg))); Sane(env, md, h') && SameDisks(h', h)
  {
    hide Sane;
    var devs := Pvs(env, vg);
    if Accepts(env, h, VgCreate(vg.name, devs)) {
      assert IsGroup(env, md, vg.name, devs);
      GroupAdded(env, md, h, vg.name, devs);
      assert Exec(env, h, VgCreate(vg.name, devs))
          == h.(vgs := h.vgs[vg.name := Vg(devs, [], false)], pvs := OwnedBy(h.pvs, devs, vg.name));
    }
  }

  lemma GroupGrown(env: Env, md: Storage, h: Host, v: string, lvs: seq<Lv>)
    requires Sane(env, md, h) && v in h.vgs
    ensures Sane(env, md, h.(vgs := h.vgs[v := h.vgs[v].(lvs := lvs, active := true)]))
  {
    var vgs := h.vgs[v := h.vgs[v].(lvs := lvs, active := true)];
    hide IsGroup, IsPv, SaneArrays, SaneDisks, ShownPvs, Present;
    assert SaneGroups(env, md, h.pvs, vgs);
    LvmChanged(env, md, h, h.pvs, vgs);
  }

  lemma CreateLvKeeps(env: Env, md: Storage, h: Host, v: string, name: string, size: nat)
    requires Sane(env, md, h)
    ensures var h' := Exec(env, h, LvCreate(v, name, size)); Sane(env, md, h') && SameDisks(h', h)
  {
    hide Sane, LvExtents;
    if Accepts(env, h, LvCreate(v, name, size)) {
      GroupGrown(env, md, h, v, h.vgs[v].lvs + [Lv(name, LvExtents(env, h.vgs[v], size).value)]);
    }
  }

  // ---------------------------------------------------------------- phases

  lemma {:induction false} RunEachDead(env: Env, cmds: seq<Cmd>, st: Run)
    requires !Live(st)
    ensures RunEach(env, cmds, st) == st
  {
    if cmds != [] {
      RunEachDead(env, cmds[..|cmds| - 1], st);
    }
  }

  lemma RemoveGroupsSnoc(vgs: seq<VolumeGroup>, n: nat)
    requires n < |vgs|
    ensures RemoveGroups(vgs[..n + 1]) == RemoveGroups(vgs[..n]) + [VgDeactivate(vgs[n].name)] + [VgRemove(vgs[n].name)]
  {
    assert vgs[..n + 1][..n] == vgs[..n];
  }

  lemma {:induction false} RemoveGroupsPhase(env: Env, md: Storage, n: nat, st: Run)
    requires n <= |md.volumeGroups| && Sane(env, md, st.host)
    ensures var r := RunEach(env, RemoveGroups(md.volumeGroups[..n]), st);
      Sane(env, md, r.host) && (Live(r) ==> forall j :: 0 <= j < n ==> md.volumeGroups[j].name !in r.host.vgs)
  {
    hide Exec, Accepts, Sane;
    if n > 0 {
      RemoveGroupsPhase(env, md, n - 1, st);
      var v, cmds := md.volumeGroups[n - 1].name, RemoveGroups(md.volumeGroups[..n - 1]);
      var r0 := RunEach(env, cmds, st);
      RunEachOne(env, cmds, VgDeactivate(v), st);
      var r1 := RunEach(env, cmds + [VgDeactivate(v)], st);
      RunEachOne(env, cmds + [VgDeactivate(v)], VgRemove(v), st);
      RemoveGroupsSnoc(md.volumeGroups, n - 1);
      hide RunEach, RemoveGroups;
      DeactivateKeeps(env, md, r0.host, v);
      RemoveGroupKeeps(env, md, r1.host, v);
    }
  }

  lemma {:induction false} ClearPvsPhase(env: Env, md: Storage, devs: seq<Device>, st: Run)
    requires Sane(env, md, st.host) && (Live(st) ==> st.host.vgs == map[])
    ensures var r := RunEach(env, ClearPvs(devs), st);
      && Sane(env, md, r.host)
      && (Live(r) ==> r.host.vgs == map[] && forall d :: d in devs ==> d !in r.host.pvs)
  {
    hide Exec, Accepts, Sane;
    if devs != [] {
      var n := |devs| - 1;
      ClearPvsPhase(env, md, devs[..n], st);
      assert ClearPvs(devs)[..n] == ClearPvs(devs[..n]);
      var r := RunEach(env, ClearPvs(devs[..n]), st);
      if Live(r) {
        RemovePvKeeps(env, md, r.host, devs[n]);
      }
    }
  }

  lemma {:induction false} AllPvsHas(env: Env, vgs: seq<VolumeGroup>, d: Device)
    requires exists vg :: vg in vgs && d in Pvs(env, vg)
    ensures d in AllPvs(env, vgs)
  {
    var n := |vgs| - 1;
    if d !in Pvs(env, vgs[n]) {
      AllPvsHas(env, vgs[..n], d);
    }
  }

  lemma TeardownPhase(env: Env, md: Storage, st: Run)
    requires Sane(env, md, st.host)
    ensures var r := Teardown(env, md, st); Sane(env, md, r.host) && (Live(r) ==> NoLvm(r.host))
  {
    var n := |md.volumeGroups|;
    RemoveGroupsPhase(env, md, n, st);
    assert md.volumeGroups[..n] == md.volumeGroups;
    var mid := RunEach(env, RemoveGroups(md.volumeGroups), st);
    if Live(mid) {
      forall v ensures v !in mid.host.vgs {
        assert v in mid.host.vgs ==> IsGroup(env, md, v, mid.host.vgs[v].pvs);
      }
    }
    ClearPvsPhase(env, md, AllPvs(env, md.volumeGroups), mid);
    var r := Teardown(env, md, st);
    if Live(r) {
      forall d ensures d !in r.host.pvs {
        assert d in r.host.pvs ==> IsPv(env, md, d);
        if IsPv(env, md, d) {
          AllPvsHas(env, md.volumeGroups, d);
        }
      }
    }
  }

  /** What zeroing superblocks leaves as it was. */
  ghost predicate OnlyZeroed(before: Host, after: Host) {
    NoLvm(after) && after.arrays == before.arrays && after.superblocks.Keys <= before.superblocks.Keys
  }

  lemma {:induction false} ZeroPhase(env: Env, md: Storage, devs: seq<Device>, st: Run)
    requires Live(st) && Sane(env, md, st.host) && NoLvm(st.host)
    requires forall d :: d in devs ==> !InArray(st.host, d)
    ensures var r := RunEach(env, ZeroMembers(devs), st);
      && Sane(env, md, r.host)
      && (Live(r) ==> OnlyZeroed(st.host, r.host) && forall d :: d in devs ==> d !in r.host.superblocks)
  {
    hide Exec, Accepts, Sane;
    if devs != [] {
      var n := |devs| - 1;
      ZeroPhase(env, md, devs[..n], st);
      assert ZeroMembers(devs)[..n] == ZeroMembers(devs[..n]);
      var r := RunEach(env, ZeroMembers(devs[..n]), st);
      if Live(r) {
        assert !InArray(st.host, devs[n]);
        assert !InArray(r.host, devs[n]);
        ZeroKeeps(env, md, r.host, devs[n]);
      }
    }
  }

  /** The arrays before index n are stopped and their members are clean. */
  ghost predicate ResetUpTo(env: Env, md: Storage, n: nat, h: Host)
    requires n <= |md.raid|
  {
    forall j :: 0 <= j < n ==>
      && NormalizeRaidDevice(md.raid[j].name) !in h.arrays
      && forall d :: d in Members(env, md.raid[j]) ==> d !in h.superblocks
  }

  lemma StoppedMembersAreFree(env: Env, md: Storage, n: nat, h: Host)
    requires ValidStorage(env, md) && Sane(env, md, h) && n < |md.raid|
    requires NormalizeRaidDevice(md.raid[n].name) !in h.arrays
    ensures forall d :: d in Members(env, md.raid[n]) ==> !InArray(h, d)
  {
    forall a, d | a in h.arrays && d in Members(env, md.raid[n]) ensures d !in h.arrays[a] {
      assert IsArray(env, md, a, h.arrays[a]);
      var r :| r in md.raid && NormalizeRaidDevice(r.name) == a && Members(env, r) == h.arrays[a];
      var j :| 0 <= j < |md.raid| && md.raid[j] == r;
      assert j != n;
    }
  }

  lemma {:induction false} ResetPhase(env: Env, md: Storage, n: nat, st: Run)
    requires ValidStorage(env, md) && n <= |md.raid| && Sane(env, md, st.host) && (Live(st) ==> NoLvm(st.host))
    ensures var r := RunEach(env, ResetArrays(env, md.raid[..n]), st);
      Sane(env, md, r.host) && (Live(r) ==> NoLvm(r.host) && ResetUpTo(env, md, n, r.host))
  {
    hide Exec, Accepts, Sane, ValidStorage, Members, NormalizeRaidDevice;
    if n > 0 {
      ResetPhase(env, md, n - 1, st);
      var raid, r := md.raid[..n], md.raid[n - 1];
      assert raid[..n - 1] == md.raid[..n - 1];
      var cmds, stop := ResetArrays(env, raid[..n - 1]), MdStop(NormalizeRaidDevice(r.name));
      var r0 := RunEach(env, cmds, st);
      RunEachOne(env, cmds, stop, st);
      var r1 := RunEach(env, cmds + [stop], st);
      RunEachAppend(env, cmds + [stop], ZeroMembers(Members(env, r)), st);
      if Live(r0) {
        StopKeeps(env, md, r0.host, NormalizeRaidDevice(r.name));
      }
      if Live(r1) {
        StoppedMembersAreFree(env, md, n - 1, r1.host);
        ZeroPhase(env, md, Members(env, r), r1);
      } else {
        RunEachDead(env, ZeroMembers(Members(env, r)), r1);
      }
    }
  }

  lemma CleanPhase(env: Env, md: Storage, st: Run)
    requires ValidStorage(env, md) && Sane(env, md, st.host)
    ensures var r := Reset(env, md, Teardown(env, md, st)); Sane(env, md, r.host) && (Live(r) ==> Bare(r.host))
  {
    TeardownPhase(env, md, st);
    ResetPhase(env, md, |md.raid|, Teardown(env, md, st));
    assert md.raid[..|md.raid|] == md.raid;
    var r := Reset(env, md, Teardown(env, md, st));
    if Live(r) {
      forall a ensures a !in r.host.arrays {
        assert a in r.host.arrays ==> IsArray(env, md, a, r.host.arrays[a]);
      }
      forall d ensures d !in r.host.superblocks {
        assert d in r.host.superblocks ==> IsMember(env, md, d);
      }
    }
  }

  ghost predicate Written(env: Env, mbr: bool, d: Disk, h: Host)
    requires d.device in env.disks
  {
    && d.device in h.tables && h.tables[d.device] == PlannedTable(env, mbr, d)
    && d.device in h.nodes && h.nodes[d.device] == PartitionCount(PlannedTable(env, mbr, d))
  }

  lemma WipeKeeps(env: Env, md: Storage, k: string, h: Host)
    requires Sane(env, md, h) && Bare(h)
    ensures var h' := Exec(env, h, WipeDisk(k));
      Sane(env, md, h') && Bare(h') && h'.tables - {k} == h.tables - {k} && h'.nodes - {k} == h.nodes - {k}
  {
  }

  lemma WriteKeeps(env: Env, md: Storage, mbr: bool, d: Disk, h: Host)
    requires Sane(env, md, h) && Bare(h) && d in md.disks && d.device in env.disks
    ensures var h' := Exec(env, h, WriteTable(d.device, PlannedTable(env, mbr, d)));
      && Sane(env, md, h') && Bare(h') && Written(env, mbr, d, h')
      && h'.tables - {d.device} == h.tables - {d.device} && h'.nodes - {d.device} == h.nodes - {d.device}
  {
    assert IsDisk(md, d.device);
  }

  /** The other disks' tables and partition nodes are as they were. */
  ghost predicate OthersKept(k: string, before: Host, after: Host) {
    after.tables - {k} == before.tables - {k} && after.nodes - {k} == before.nodes - {k}
  }

  lemma DiskKeeps(env: Env, md: Storage, mbr: bool, d: Disk, st: Run)
    requires Live(st) && d in md.disks && d.device in env.disks && Sane(env, md, st.host) && Bare(st.host)
    ensures var r := RunEach(env, DiskCommands(env, mbr, d), st);
      && Sane(env, md, r.host)
      && (Live(r) ==> Bare(r.host) && Written(env, mbr, d, r.host) && OthersKept(d.device, st.host, r.host))
  {
    var wipe, write := WipeDisk(d.device), WriteTable(d.device, PlannedTable(env, mbr, d));
    var mid := if d.wipeTable then Issue(env, st, wipe).0 else st;
    RunDiskCommands(env, mbr, d, st, Issue(env, mid, write).0);
    if d.wipeTable {
      WipeKeeps(env, md, d.device, st.host);
    }
    if Live(mid) {
      WriteKeeps(env, md, mbr, d, mid.host);
    }
  }

  /** The first n disks carry their planned tables. */
  ghost predicate WrittenUpTo(env: Env, md: Storage, mbr: bool, n: nat, h: Host)
    requires n <= |md.disks| && forall d :: d in md.disks ==> d.device in env.disks
  {
    forall j :: 0 <= j < n ==> Written(env, mbr, md.disks[j], h)
  }

  lemma WrittenNext(env: Env, md: Storage, mbr: bool, n: nat, before: Host, after: Host)
    requires ValidStorage(env, md) && n < |md.disks| && WrittenUpTo(env, md, mbr, n, before)
    requires OthersKept(md.disks[n].device, before, after) && Written(env, mbr, md.disks[n], after)
    ensures WrittenUpTo(env, md, mbr, n + 1, after)
  {
    forall j | 0 <= j < n ensures Written(env, mbr, md.disks[j], after) {
      var k := md.disks[j].device;
      assert Written(env, mbr, md.disks[j], before);
      assert k in (after.tables - {md.disks[n].device}) && k in (after.nodes - {md.disks[n].device});
    }
  }

  lemma {:induction false} DisksPhase(env: Env, md: Storage, mbr: bool, n: nat, st: Run)
    requires ValidStorage(env, md) && n <= |md.disks| && Sane(env, md, st.host) && (Live(st) ==> Bare(st.host))
    ensures var r := RunEach(env, PartitionDisks(env, mbr, md.disks[..n]), st);
      Sane(env, md, r.host) && (Live(r) ==> Bare(r.host) && WrittenUpTo(env, md, mbr, n, r.host))
  {
    hide Exec, Accepts, Sane, Written, DiskCommands, OthersKept;
    if n > 0 {
      DisksPhase(env, md, mbr, n - 1, st);
      var disks, d := md.disks[..n], md.disks[n - 1];
      assert disks[..n - 1] == md.disks[..n - 1];
      var cmds := PartitionDisks(env, mbr, disks[..n - 1]);
      var before := RunEach(env, cmds, st);
      RunEachAppend(env, cmds, DiskCommands(env, mbr, d), st);
      if Live(before) {
        DiskKeeps(env, md, mbr, d, before);
        var r := RunEach(env, DiskCommands(env, mbr, d), before);
        if Live(r) {
          WrittenNext(env, md, mbr, n - 1, before.host, r.host);
        }
      } else {
        RunEachDead(env, DiskCommands(env, mbr, d), before);
      }
    }
  }

  lemma {:induction false} WipePhase(env: Env, md: Storage, n: nat, st: Run)
    requires ValidStorage(env, md) && n <= |md.disks| && Sane(env, md, st.host) && (Live(st) ==> Bare(st.host))
    ensures var r := RunEach(env, WipeDisks(md.disks[..n]), st);
      Sane(env, md, r.host) && (Live(r) ==> Bare(r.host))
  {
    hide Exec, Accepts, Sane, Bare;
    if n > 0 {
      WipePhase(env, md, n - 1, st);
      var r := RunEach(env, WipeDisks(md.disks[..n - 1]), st);
      RunEachOne(env, WipeDisks(md.disks[..n - 1]), WipeDisk(md.disks[n - 1].device), st);
      if Live(r) {
        WipeKeeps(env, md, md.disks[n - 1].device, r.host);
      }
      assert WipeDisks(md.disks[..n]) == WipeDisks(md.disks[..n - 1]) + [WipeDisk(md.disks[n - 1].device)];
    }
  }

  lemma {:induction false} ArraysPhase(env: Env, md: Storage, n: nat, st: Run)
    requires n <= |md.raid| && Sane(env, md, st.host)
    ensures var r := RunEach(env, CreateArrays(env, md.raid[..n]), st);
      Sane(env, md, r.host) && SameDisks(r.host, st.host)
  {
    hide Exec, Accepts, Sane, Makeable, NormalizeRaidDevice, Members, CreateArrays, RunEach;
    if n == 0 {
      NoArraysToCreate(env, md.raid, st);
    } else {
      ArraysPhase(env, md, n - 1, st);
      var r, cmds := md.raid[n - 1], CreateArrays(env, md.raid[..n - 1]);
      CreateArraysNext(env, md.raid, n - 1);
      RunEachOne(env, cmds, MdCreate(NormalizeRaidDevice(r.name), Members(env, r)), st);
      CreateArrayKeeps(env, md, RunEach(env, cmds, st).host, r);
    }
  }

  lemma NoArraysToCreate(env: Env, raid: seq<Raid>, st: Run)
    ensures RunEach(env, CreateArrays(env, raid[..0]), st) == st
  {
  }

  lemma CreateArraysNext(env: Env, raid: seq<Raid>, n: nat)
    requires n < |raid|
    ensures CreateArrays(env, raid[..n + 1]) ==
      if Makeable(env, raid[n]) then
        CreateArrays(env, raid[..n]) + [MdCreate(NormalizeRaidDevice(raid[n].name), Members(env, raid[n]))]
      else CreateArrays(env, raid[..n])
  {
    hide Makeable, NormalizeRaidDevice, Members;
    assert raid[..n + 1][..n] == raid[..n];
    assert CreateArrays(env, raid[..n]) + [] == CreateArrays(env, raid[..n]);
  }

  /** A command of a group's own chain. */
  ghost predicate ChainCommand(env: Env, md: Storage, c: Cmd) {
    match c
    case PvCreate(d) => IsPv(env, md, d)
    case VgCreate(v, pvs) => exists vg :: vg in md.volumeGroups && vg.name == v && pvs == Pvs(env, vg)
    case LvCreate(_, _, _) => true
    case _ => false
  }

  lemma {:induction false} ChainKeeps(env: Env, md: Storage, cmds: seq<Cmd>, st: Run)
    requires Sane(env, md, st.host) && forall c :: c in cmds ==> ChainCommand(env, md, c)
    ensures var r := RunChain(env, cmds, st).0; Sane(env, md, r.host) && SameDisks(r.host, st.host)
  {
    if cmds != [] {
      var n := |cmds| - 1;
      ChainKeeps(env, md, cmds[..n], st);
      var h, c := RunChain(env, cmds[..n], st).0.host, cmds[n];
      assert ChainCommand(env, md, c);
      match c {
        case PvCreate(d) => CreatePvKeeps(env, md, h, d);
        case VgCreate(v, pvs) =>
          var vg :| vg in md.volumeGroups && vg.name == v && pvs == Pvs(env, vg);
          CreateGroupKeeps(env, md, h, vg);
        case LvCreate(v, name, size) => CreateLvKeeps(env, md, h, v, name, size);
        case _ =>
      }
    }
  }

  lemma {:induction false} GroupsPhase(env: Env, md: Storage, n: nat, st: Run)
    requires n <= |md.volumeGroups| && Sane(env, md, st.host)
    ensures var r := BuildGroups(env, md.volumeGroups[..n], st); Sane(env, md, r.host) && SameDisks(r.host, st.host)
  {
    if n > 0 {
      GroupsPhase(env, md, n - 1, st);
      var vg := md.volumeGroups[n - 1];
      assert md.volumeGroups[..n][..n - 1] == md.volumeGroups[..n - 1];
      forall c | c in GroupCommands(env, vg) ensures ChainCommand(env, md, c) {
      }
      ChainKeeps(env, md, GroupCommands(env, vg), BuildGroups(env, md.volumeGroups[..n - 1], st));
    }
  }

  lemma BuildKeeps(env: Env, md: Storage, st: Run)
    requires Sane(env, md, st.host)
    ensures var r := Build(env, md, st); Sane(env, md, r.host) && SameDisks(r.host, st.host)
  {
    ArraysPhase(env, md, |md.raid|, st);
    assert md.raid[..|md.raid|] == md.raid;
    GroupsPhase(env, md, |md.volumeGroups|, RunEach(env, CreateArrays(env, md.raid), st));
    assert md.volumeGroups[..|md.volumeGroups|] == md.volumeGroups;
  }

  // ---------------------------------------------------------------- whole runs

  /** One invocation of the tool: which command, which table format, and where it is killed. */
  datatype Attempt = Attempt(wipe: bool, mbr: bool, fuse: Fuse)

  ghost function RunAttempt(env: Env, md: Storage, a: Attempt, h: Host): Host {
    if a.wipe then WipeRun(env, md, Run(h, a.fuse)).host else PartitionRun(env, md, a.mbr, Run(h, a.fuse)).host
  }

  ghost function HostAfter(env: Env, md: Storage, attempts: seq<Attempt>): Host {
    if attempts == [] then BLANK
    else RunAttempt(env, md, attempts[|attempts| - 1], HostAfter(env, md, attempts[..|attempts| - 1]))
  }

  lemma AttemptKeeps(env: Env, md: Storage, a: Attempt, h: Host)
    requires ValidStorage(env, md) && Sane(env, md, h)
    ensures Sane(env, md, RunAttempt(env, md, a, h))
  {
    var st := Run(h, a.fuse);
    CleanPhase(env, md, st);
    var clean := Reset(env, md, Teardown(env, md, st));
    assert md.disks[..|md.disks|] == md.disks;
    if a.wipe {
      WipePhase(env, md, |md.disks|, clean);
    } else {
      DisksPhase(env, md, a.mbr, |md.disks|, clean);
      BuildKeeps(env, md, RunEach(env, PartitionDisks(env, a.mbr, md.disks), clean));
    }
  }

  lemma {:induction false} ReachableIsSane(env: Env, md: Storage, attempts: seq<Attempt>)
    requires ValidStorage(env, md)
    ensures Sane(env, md, HostAfter(env, md, attempts))
  {
    if attempts != [] {
      ReachableIsSane(env, md, attempts[..|attempts| - 1]);
      AttemptKeeps(env, md, attempts[|attempts| - 1], HostAfter(env, md, attempts[..|attempts| - 1]));
    }
  }

  /** Hidden-signature safety: whatever runs were made and wherever they were killed, no LVM
      signature is inside an array that is not assembled. */
  lemma NoSignatureIsEverHidden(env: Env, md: Storage, attempts: seq<Attempt>)
    requires ValidStorage(env, md)
    ensures NothingHidden(HostAfter(env, md, attempts))
  {
    ReachableIsSane(env, md, attempts);
    SaneHidesNothing(env, md, HostAfter(env, md, attempts));
  }

  /** The disks carry exactly the planned tables and nothing else is on the host. */
  ghost predicate Prepared(env: Env, md: Storage, mbr: bool, h: Host)
    requires ValidStorage(env, md)
  {
    Bare(h) && SaneDisks(md, h) && forall d :: d in md.disks ==> Written(env, mbr, d, h)
  }

  lemma PreparedIsUnique(env: Env, md: Storage, mbr: bool, a: Host, b: Host)
    requires ValidStorage(env, md) && Prepared(env, md, mbr, a) && Prepared(env, md, mbr, b)
    ensures a == b
  {
    hide PlannedTable, PartitionCount;
    forall k ensures k in a.tables <==> k in b.tables
             ensures k in a.nodes <==> k in b.nodes
             ensures k in a.tables ==> a.tables[k] == b.tables[k]
             ensures k in a.nodes ==> a.nodes[k] == b.nodes[k]
    {
      if k in a.tables || k in b.tables || k in a.nodes || k in b.nodes {
        assert IsDisk(md, k);
        var d :| d in md.disks && d.device == k;
        assert Written(env, mbr, d, a) && Written(env, mbr, d, b);
      }
    }
    assert a.tables == b.tables && a.nodes == b.nodes;
  }

  lemma {:induction false} FuseNever(env: Env, cmds: seq<Cmd>, st: Run)
    ensures st.fuse == Never ==> RunEach(env, cmds, st).fuse == Never
  {
    if cmds != [] {
      FuseNever(env, cmds[..|cmds| - 1], st);
    }
  }

  /** The state of a finishing run when the tables have been written. */
  ghost function Repartitioned(env: Env, md: Storage, mbr: bool, h: Host): Run {
    RunEach(env, PartitionDisks(env, mbr, md.disks), Reset(env, md, Teardown(env, md, Run(h, Never))))
  }

  lemma FinishedRunPrepares(env: Env, md: Storage, mbr: bool, h: Host)
    requires ValidStorage(env, md) && Sane(env, md, h)
    ensures var r := Repartitioned(env, md, mbr, h); r.fuse == Never && Prepared(env, md, mbr, r.host)
  {
    var st := Run(h, Never);
    CleanPhase(env, md, st);
    FuseNever(env, RemoveGroups(md.volumeGroups), st);
    FuseNever(env, ClearPvs(AllPvs(env, md.volumeGroups)), RunEach(env, RemoveGroups(md.volumeGroups), st));
    var torn := Teardown(env, md, st);
    FuseNever(env, ResetArrays(env, md.raid), torn);
    var clean := Reset(env, md, torn);
    FuseNever(env, PartitionDisks(env, mbr, md.disks), clean);
    assert md.disks[..|md.disks|] == md.disks;
    DisksPhase(env, md, mbr, |md.disks|, clean);
    assert WrittenUpTo(env, md, mbr, |md.disks|, RunEach(env, PartitionDisks(env, mbr, md.disks), clean).host);
  }

  /** Convergence: after any sequence of `partition` and `wipe` runs on the same metadata, each
      possibly killed after any command, one finished `partition` run ends in exactly the state
      that a single run on the blank host ends in. */
  lemma PartitionConverges(env: Env, md: Storage, attempts: seq<Attempt>, mbr: bool)
    requires ValidStorage(env, md)
    ensures PartitionRun(env, md, mbr, Run(HostAfter(env, md, attempts), Never))
         == PartitionRun(env, md, mbr, Run(BLANK, Never))
  {
    var h := HostAfter(env, md, attempts);
    ReachableIsSane(env, md, attempts);
    FinishedRunPrepares(env, md, mbr, h);
    FinishedRunPrepares(env, md, mbr, BLANK);
    PreparedIsUnique(env, md, mbr, Repartitioned(env, md, mbr, h).host, Repartitioned(env, md, mbr, BLANK).host);
  }
}
