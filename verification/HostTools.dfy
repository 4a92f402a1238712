/** The machine that `rootio` works on, and what each tool it calls does to it.
    Everything assumed about mdadm, LVM, the kernel and the partition writer is in `Accepts`,
    `Effect` and `Refused` below; nothing else in the project speaks about their behaviour. */
module HostTools {
  import opened Options
  import opened PartitionTables
  import opened LvmRules

  // What a device path denotes once the kernel has resolved it.
  datatype Device = Whole(disk: string) | Part(disk: string, number: nat) | Md(path: string)

  datatype Table = Gpt(gpt: seq<GptPartition>) | Mbr(mbr: seq<MbrPartition>)

  function PartitionCount(t: Table): nat {
    match t
    case Gpt(ps) => |ps|
    case Mbr(ps) => |ps|
  }

  datatype Lv = Lv(name: string, extents: nat)
  datatype Vg = Vg(pvs: seq<Device>, lvs: seq<Lv>, active: bool)

  /** tables: what is written on the disk; nodes: how many partitions the kernel shows for it;
      superblocks: members carrying an md superblock, with the array it belongs to;
      arrays: the assembled arrays and their members; pvs: devices whose contents begin with an
      LVM signature, with the group it belongs to. The signature of a PV on an array is stored
      inside the array, so it stays, unseen, when the array is stopped. */
  datatype Host = Host(
    tables: map<string, Table>,
    nodes: map<string, nat>,
    superblocks: map<Device, string>,
    arrays: map<string, seq<Device>>,
    pvs: map<Device, Option<string>>,
    vgs: map<string, Vg>)

  const BLANK := Host(map[], map[], map[], map[], map[], map[])

  /** The fixed surroundings: attached disks and their sizes, what lies in the first GiB of each
      disk, how device paths resolve, how many extents a PV on a device offers, and whether the
      directory /dev/md is there or can be made. */
  datatype Env = Env(
    disks: map<string, SectorCount>,
    firstGiB: string -> set<Device>,
    resolve: string -> Device,
    extents: Device -> nat,
    extentBytes: nat,
    devMd: bool)

  datatype Cmd =
    | VgDeactivate(vg: string)                                // vgchange -an
    | VgRemove(vg: string)                                    // vgremove -ff
    | PvRemove(dev: Device)                                   // pvremove -ff -y
    | MdStop(path: string)                                   // stat, then mdadm --stop
    | MdZero(dev: Device)                                     // stat, then mdadm --zero-superblock
    | WipeDisk(disk: string)                                  // write 1 GiB of zeros
    | WriteTable(disk: string, table: Table)                  // write the table, re-read it
    | MdCreate(path: string, members: seq<Device>)           // mdadm --create --run --force
    | PvCreate(dev: Device)                                   // pvcreate
    | VgCreate(vg: string, pvs: seq<Device>)                  // vgcreate
    | LvCreate(vg: string, name: string, size: nat)           // lvcreate -Wy --yes

  // ---------------------------------------------------------------- observations

  predicate Present(env: Env, h: Host, d: Device) {
    match d
    case Whole(k) => k in env.disks
    case Part(k, n) => k in h.nodes && 1 <= n <= h.nodes[k]
    case Md(a) => a in h.arrays
  }

  predicate InArray(h: Host, d: Device) {
    exists a | a in h.arrays :: d in h.arrays[a]
  }

  // Open because an active volume group maps onto it.
  predicate HeldByLvm(h: Host, d: Device) {
    exists v | v in h.vgs :: h.vgs[v].active && d in h.vgs[v].pvs
  }

  predicate InUse(h: Host, d: Device) { InArray(h, d) || HeldByLvm(h, d) }

  predicate OnDisk(d: Device, disk: string) { d == Whole(disk) || (d.Part? && d.disk == disk) }

  predicate DiskInUse(h: Host, disk: string) {
    || (exists a | a in h.arrays :: exists d | d in h.arrays[a] :: OnDisk(d, disk))
    || (exists v | v in h.vgs :: h.vgs[v].active && exists d | d in h.vgs[v].pvs :: OnDisk(d, disk))
  }

  // LVM sees a group only while all of its physical volumes are there.
  predicate Visible(env: Env, h: Host, vg: string) {
    vg in h.vgs && forall d | d in h.vgs[vg].pvs :: Present(env, h, d) && d in h.pvs
  }

  predicate Distinct<T(==)>(s: seq<T>) {
    forall i, j | 0 <= i < j < |s| :: s[i] != s[j]
  }

  function Capacity(env: Env, pvs: seq<Device>): nat {
    if pvs == [] then 0 else Capacity(env, pvs[..|pvs| - 1]) + env.extents(pvs[|pvs| - 1])
  }

  function Used(lvs: seq<Lv>): nat {
    if lvs == [] then 0 else Used(lvs[..|lvs| - 1]) + lvs[|lvs| - 1].extents
  }

  function LvExtents(env: Env, vg: Vg, size: nat): Option<nat>
    requires env.extentBytes > 0
  {
    Take(Capacity(env, vg.pvs) - Used(vg.lvs), ExtentsFor(size, env.extentBytes))
  }

  // ---------------------------------------------------------------- the tools

  /** When a command does its work and exits with status 0. */
  predicate Accepts(env: Env, h: Host, c: Cmd) {
    match c
    case VgDeactivate(v) => Visible(env, h, v)
    case VgRemove(v) => Visible(env, h, v)
    // no node, nothing to remove: an array that is not assembled hides the signature in it
    case PvRemove(d) => Present(env, h, d) && d in h.pvs && !HeldByLvm(h, d)
    case MdStop(a) => a in h.arrays && !InUse(h, Md(a))
    case MdZero(d) => Present(env, h, d) && d in h.superblocks && !InUse(h, d)
    case WipeDisk(k) => k in env.disks
    case WriteTable(k, _) => k in env.disks && !DiskInUse(h, k)
    case MdCreate(a, members) =>
      && a !in h.arrays && members != [] && Distinct(members)
      && forall d | d in members :: Present(env, h, d) && !InUse(h, d)
    // a signature that is already there is refused, whoever it belongs to
    case PvCreate(d) => Present(env, h, d) && d !in h.pvs && d !in h.superblocks && !InUse(h, d)
    case VgCreate(v, pvs) =>
      && v !in h.vgs && pvs != [] && Distinct(pvs)
      && forall d | d in pvs :: Present(env, h, d) && d in h.pvs && h.pvs[d] == None
    case LvCreate(v, name, size) =>
      && Visible(env, h, v) && env.extentBytes > 0
      && LvExtents(env, h.vgs[v], size).Some?
      && forall lv | lv in h.vgs[v].lvs :: lv.name != name
  }

  function Effect(env: Env, h: Host, c: Cmd): Host
    requires Accepts(env, h, c)
  {
    match c
    case VgDeactivate(v) => h.(vgs := h.vgs[v := h.vgs[v].(active := false)])
    // the group goes; its physical volumes stay behind as orphans
    case VgRemove(v) =>
      h.(vgs := h.vgs - {v}, pvs := map d | d in h.pvs :: if h.pvs[d] == Some(v) then None else h.pvs[d])
    case PvRemove(d) => h.(pvs := h.pvs - {d})
    case MdStop(a) => h.(arrays := h.arrays - {a})
    case MdZero(d) => h.(superblocks := h.superblocks - {d})
    // the kernel keeps showing the old partitions: nothing re-reads the table
    case WipeDisk(k) =>
      h.(tables := h.tables - {k},
         superblocks := h.superblocks - env.firstGiB(k),
         pvs := h.pvs - env.firstGiB(k))
    case WriteTable(k, t) => h.(tables := h.tables[k := t], nodes := h.nodes[k := PartitionCount(t)])
    case MdCreate(a, members) =>
      h.(arrays := h.arrays[a := members],
         superblocks := h.superblocks + map d | d in members :: a)
    case PvCreate(d) => h.(pvs := h.pvs[d := None])
    case VgCreate(v, pvs) =>
      h.(vgs := h.vgs[v := Vg(pvs, [], false)], pvs := h.pvs + map d | d in pvs :: Some(v))
    case LvCreate(v, name, size) =>
      var vg := h.vgs[v];
      h.(vgs := h.vgs[v := vg.(lvs := vg.lvs + [Lv(name, LvExtents(env, vg, size).value)], active := true)])
  }

  /** What a command leaves behind when it fails: a table written to a disk in use reaches the
      disk but the kernel does not take it up; everything else leaves the host alone. */
  function Refused(env: Env, h: Host, c: Cmd): Host {
    match c
    case WriteTable(k, t) => if k in env.disks then h.(tables := h.tables[k := t]) else h
    case _ => h
  }

  function Exec(env: Env, h: Host, c: Cmd): Host {
    if Accepts(env, h, c) then Effect(env, h, c) else Refused(env, h, c)
  }

  // ---------------------------------------------------------------- a run that may be killed

  // Never: the process finishes. After(n): it is killed once n more commands have run.
  datatype Fuse = Never | After(n: nat)
  datatype Run = Run(host: Host, fuse: Fuse)

  predicate Live(st: Run) { st.fuse != After(0) }

  function Burn(f: Fuse): Fuse {
    match f
    case Never => Never
    case After(n) => if n == 0 then After(0) else After(n - 1)
  }

  /** One command of a run; a killed run issues nothing. The flag says the command succeeded. */
  function Issue(env: Env, st: Run, c: Cmd): (r: (Run, bool)) {
    if Live(st) then (Run(Exec(env, st.host, c), Burn(st.fuse)), Accepts(env, st.host, c)) else (st, false)
  }
}
