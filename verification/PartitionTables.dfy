/** The sector allocators behind `rootio partition`: one pass over the metadata entries
    that keeps the next expected number, the running start sector and the table so far.
    GPT arithmetic is done modulo 2^64 and MBR arithmetic modulo 2^32, as in the source. */
module PartitionTables {

  const TWO_TO_32 := 0x1_0000_0000
  const TWO_TO_64 := 0x1_0000_0000_0000_0000
  const FIRST_SECTOR := 2048

  type uint32 = x: int | 0 <= x < 0x1_0000_0000
  type uint64 = x: int | 0 <= x < 0x1_0000_0000_0000_0000

  // A disk size in 512-byte sectors: an int64 number of bytes divided by 512.
  type SectorCount = x: int | 0 <= x < 0x40_0000_0000_0000

  // Reduction modulo the machine width; a value already in range is itself.
  function Wrap32(x: int): uint32 {
    if 0 <= x < TWO_TO_32 then x else x % 0x1_0000_0000
  }

  function Wrap64(x: int): uint64 {
    if 0 <= x < TWO_TO_64 then x else x % 0x1_0000_0000_0000_0000
  }

  lemma MultipleOutOfRange(m: int, d: int)
    requires m > 0
    ensures d >= 1 ==> m * d >= m
    ensures d <= -1 ==> m * d <= -m
  {
  }

  lemma ModIsUnique(x: int, q: int, r: int, m: int)
    requires 0 <= r < m && x == m * q + r
    ensures x % m == r
  {
    assert m * (q - x / m) == x % m - r;
    MultipleOutOfRange(m, q - x / m);
  }

  lemma ModAdd(x: int, y: int, m: int)
    requires m > 0
    ensures (x % m + y) % m == (x + y) % m
  {
    var z := x % m + y;
    assert x + y == m * (x / m + z / m) + z % m;
    ModIsUnique(x + y, x / m + z / m, z % m, m);
  }

  function Add32(a: uint32, b: uint32): uint32 { Wrap32(a + b) }
  function Add64(a: uint64, b: uint64): uint64 { Wrap64(a + b) }

  datatype Entry = Entry(name: string, number: int, size: uint64)

  datatype GptKind = LinuxSwap | BIOSBoot | EFISystemPartition | LinuxFilesystem
  datatype GptPartition = GptPartition(name: string, kind: GptKind, start: uint64, end: uint64)

  datatype MbrKind = Swap | Linux(bootable: bool) | Fat32LBA(bootable: bool)
  datatype MbrPartition = MbrPartition(kind: MbrKind, start: uint32, size: uint32)

  function GptKindOf(name: string): GptKind {
    match name
    case "SWAP" => LinuxSwap
    case "BIOS" => BIOSBoot
    case "EFI" => EFISystemPartition
    case _ => LinuxFilesystem
  }

  function MbrKindOf(name: string): MbrKind {
    match name
    case "SWAP" => Swap
    case "LINUX_ACTIVE" => Linux(true)
    case "FAT32" => Fat32LBA(false)
    case "FAT32_ACTIVE" => Fat32LBA(true)
    case _ => Linux(false)
  }

  /** The GPT types: three labels have their own, every other one is a Linux filesystem. */
  ghost predicate GptTyped(kind: GptKind, name: string) {
    && (kind == LinuxSwap <==> name == "SWAP")
    && (kind == BIOSBoot <==> name == "BIOS")
    && (kind == EFISystemPartition <==> name == "EFI")
  }

  /** The MBR types: every label without one of its own is Linux and not bootable. */
  ghost predicate MbrTyped(kind: MbrKind, name: string) {
    && (kind == Swap <==> name == "SWAP")
    && (kind == Linux(true) <==> name == "LINUX_ACTIVE")
    && (kind == Fat32LBA(false) <==> name == "FAT32")
    && (kind == Fat32LBA(true) <==> name == "FAT32_ACTIVE")
  }

  lemma TypesByLabel(name: string)
    ensures GptTyped(GptKindOf(name), name) && MbrTyped(MbrKindOf(name), name)
  {
  }

  // ---------------------------------------------------------------- which entries are taken

  /** Indices of the entries whose number is the next expected one, 1, 2, 3, ... */
  function Chosen(entries: seq<Entry>): (ix: seq<nat>)
    ensures forall j :: 0 <= j < |ix| ==> ix[j] < |entries|
  {
    if entries == [] then []
    else
      var last := |entries| - 1;
      var before := Chosen(entries[..last]);
      if entries[last].number == |before| + 1 then before + [last] else before
  }

  function Accepted(entries: seq<Entry>): seq<Entry> {
    var ix := Chosen(entries);
    seq(|ix|, k requires 0 <= k < |ix| => entries[ix[k]])
  }

  /** `ix` picks out 1, 2, ..., |ix| as a subsequence of the entries' numbers. */
  ghost predicate Numbers(entries: seq<Entry>, ix: seq<nat>) {
    && (forall j :: 0 <= j < |ix| ==> ix[j] < |entries| && entries[ix[j]].number == j + 1)
    && (forall i, j :: 0 <= i < j < |ix| ==> ix[i] < ix[j])
  }

  lemma AcceptedSnoc(entries: seq<Entry>, e: Entry)
    ensures Accepted(entries + [e]) ==
      if e.number == |Accepted(entries)| + 1 then Accepted(entries) + [e] else Accepted(entries)
  {
    assert (entries + [e])[..|entries|] == entries;
  }

  lemma {:induction false} ChosenNumbers(entries: seq<Entry>)
    ensures Numbers(entries, Chosen(entries))
  {
    if entries != [] {
      ChosenNumbers(entries[..|entries| - 1]);
    }
  }

  /** Greedy numbering is optimal: no other way of reading 1, 2, ... off the entries is longer,
      and none reaches its j-th partition earlier. */
  lemma {:induction false} GreedyIsOptimal(entries: seq<Entry>, other: seq<nat>)
    requires Numbers(entries, other)
    ensures Numbers(entries, Chosen(entries))
    ensures |other| <= |Chosen(entries)|
    ensures forall j :: 0 <= j < |other| ==> Chosen(entries)[j] <= other[j]
  {
    ChosenNumbers(entries);
    if other != [] {
      var n := |other| - 1;
      assert entries[other[n]].number == n + 1;
      if other[n] == |entries| - 1 {
        GreedyIsOptimal(entries[..|entries| - 1], other[..n]);
      } else {
        GreedyIsOptimal(entries[..|entries| - 1], other);
      }
    }
  }

  // ---------------------------------------------------------------- GPT

  /** Start of the k-th accepted partition in unbounded arithmetic: inclusive extents, so an
      entry of size n moves the running start by n + 1. */
  function GptStart(taken: seq<Entry>, k: nat): (start: int)
    requires k <= |taken|
    ensures start >= FIRST_SECTOR + k
  {
    if k == 0 then FIRST_SECTOR else GptStart(taken, k - 1) + taken[k - 1].size + 1
  }

  function GptSlot(taken: seq<Entry>, sectors: SectorCount, k: nat): GptPartition
    requires k < |taken|
  {
    var e := taken[k];
    GptPartition(e.name, GptKindOf(e.name), Wrap64(GptStart(taken, k)),
                 if e.size == 0 then Wrap64(sectors - 2048)
                 else Wrap64(GptStart(taken, k) + e.size))
  }

  function GptTable(entries: seq<Entry>, sectors: SectorCount): seq<GptPartition> {
    var taken := Accepted(entries);
    seq(|taken|, k requires 0 <= k < |taken| => GptSlot(taken, sectors, k))
  }

  lemma {:induction false} GptStartSnoc(taken: seq<Entry>, e: Entry, k: nat)
    requires k <= |taken|
    ensures GptStart(taken + [e], k) == GptStart(taken, k)
  {
    if k > 0 {
      GptStartSnoc(taken, e, k - 1);
    }
  }

  /** The running start after a prefix of the entries, as the 64-bit variable holds it. */
  function GptNext(entries: seq<Entry>): uint64 {
    Wrap64(GptStart(Accepted(entries), |Accepted(entries)|))
  }

  lemma Add64Wraps(x: int, y: uint64)
    ensures Add64(Wrap64(x), y) == Wrap64(x + y)
  {
    ModAdd(x, y, 0x1_0000_0000_0000_0000);
  }

  lemma GptNextWraps(start: int, size: uint64)
    ensures Add64(Wrap64(start), size) == Wrap64(start + size)
    ensures Add64(Add64(Wrap64(start), size), 1) == Wrap64(start + size + 1)
  {
    Add64Wraps(start, size);
    Add64Wraps(start + size, 1);
  }

  lemma GptNextStep(entries: seq<Entry>, e: Entry)
    ensures GptNext(entries + [e]) ==
      if e.number == |Accepted(entries)| + 1 then Add64(Add64(GptNext(entries), e.size), 1) else GptNext(entries)
  {
    AcceptedSnoc(entries, e);
    var taken := Accepted(entries);
    hide Accepted;
    if e.number == |taken| + 1 {
      GptStartSnoc(taken, e, |taken|);
      GptNextWraps(GptStart(taken, |taken|), e.size);
      hide Add64, Wrap64;
    }
  }

  // What the loop writes for an accepted entry at the running start.
  ghost function GptEntry(e: Entry, sectors: SectorCount, start: uint64): GptPartition {
    GptPartition(e.name, GptKindOf(e.name), start, if e.size == 0 then Wrap64(sectors - 2048) else Add64(start, e.size))
  }

  lemma GptTableStep(entries: seq<Entry>, e: Entry, sectors: SectorCount)
    ensures GptTable(entries + [e], sectors) ==
      GptTable(entries, sectors) +
      (if e.number != |Accepted(entries)| + 1 then []
       else [GptEntry(e, sectors, GptNext(entries))])
  {
    AcceptedSnoc(entries, e);
    var taken := Accepted(entries);
    hide Accepted;
    if e.number == |taken| + 1 {
      forall k | 0 <= k < |taken| ensures GptSlot(taken + [e], sectors, k) == GptSlot(taken, sectors, k) {
        GptStartSnoc(taken, e, k);
      }
      GptStartSnoc(taken, e, |taken|);
      GptNextWraps(GptStart(taken, |taken|), e.size);
      hide GptStart, Add64, Wrap64, GptKindOf;
    }
  }

  lemma NothingAccepted(entries: seq<Entry>, sectors: SectorCount)
    ensures Accepted(entries[..0]) == []
    ensures GptNext(entries[..0]) == 2048 && GptTable(entries[..0], sectors) == []
    ensures MbrNext(entries[..0]) == 2048 && MbrTable(entries[..0], sectors) == []
  {
  }

  lemma GptPrefixStep(entries: seq<Entry>, x: nat, sectors: SectorCount)
    requires x < |entries|
    ensures var e, before, after := entries[x], entries[..x], entries[..x + 1];
      if e.number == |Accepted(before)| + 1 then
        && |Accepted(after)| == |Accepted(before)| + 1
        && GptNext(after) == Add64(Add64(GptNext(before), e.size), 1)
        && GptTable(after, sectors) == GptTable(before, sectors)
             + [GptEntry(e, sectors, GptNext(before))]
      else
        && |Accepted(after)| == |Accepted(before)|
        && GptNext(after) == GptNext(before) && GptTable(after, sectors) == GptTable(before, sectors)
  {
    var e, before := entries[x], entries[..x];
    assert entries[..x + 1] == before + [e];
    AcceptedSnoc(before, e);
    GptNextStep(before, e);
    GptTableStep(before, e, sectors);
    hide Accepted, GptTable, GptNext, Wrap64, Add64, GptEntry;
  }

  method BuildGptTable(entries: seq<Entry>, sectors: SectorCount) returns (table: seq<GptPartition>)
    ensures table == GptTable(entries, sectors)
  {
    table := [];
    var partitionNumber := 1;
    var sectorStart: uint64 := 2048;
    NothingAccepted(entries, sectors);
    hide Accepted, GptTable, GptNext, MbrTable, MbrNext, Wrap64, Add64, GptKindOf;
    for x := 0 to |entries|
      invariant partitionNumber == |Accepted(entries[..x])| + 1
      invariant sectorStart == GptNext(entries[..x])
      invariant table == GptTable(entries[..x], sectors)
    {
      var e := entries[x];
      GptPrefixStep(entries, x, sectors);
      var sectorEnd := Add64(sectorStart, e.size);
      if e.number == partitionNumber {
        partitionNumber := partitionNumber + 1;
        var newPartition := GptPartition(e.name, GptKindOf(e.name), sectorStart, sectorEnd);
        sectorStart := Add64(sectorEnd, 1);
        if e.size == 0 {
          newPartition := newPartition.(end := Wrap64(sectors - 2048));
        }
        table := table + [newPartition];
      }
    }
    assert entries[..|entries|] == entries;
  }

  /** Every accepted entry ends at or before the last sector the tool hands out. */
  ghost predicate GptFits(taken: seq<Entry>, sectors: SectorCount) {
    forall k :: 0 <= k < |taken| ==> GptStart(taken, k) + taken[k].size <= sectors - 2048
  }

  ghost predicate FillOnlyLast(taken: seq<Entry>) {
    forall k :: 0 <= k < |taken| - 1 ==> taken[k].size != 0
  }

  ghost predicate GptDisjoint(table: seq<GptPartition>) {
    forall i, j :: 0 <= i < j < |table| ==> table[i].end < table[j].start || table[j].end < table[i].start
  }

  lemma {:induction false} GptStartMonotone(taken: seq<Entry>, i: nat, j: nat)
    requires i < j <= |taken|
    ensures GptStart(taken, i) + taken[i].size < GptStart(taken, j)
  {
    if i + 1 < j {
      GptStartMonotone(taken, i, j - 1);
    }
  }

  /** The k-th inclusive end without field widths. */
  function GptIdealEnd(taken: seq<Entry>, sectors: SectorCount, k: nat): int
    requires k < |taken|
  {
    if taken[k].size == 0 then sectors - 2048 else GptStart(taken, k) + taken[k].size
  }

  /** The k-th partition without field widths: the entry's name, its type, start and inclusive end. */
  ghost predicate GptSlotIdeal(taken: seq<Entry>, sectors: SectorCount, k: nat, p: GptPartition)
    requires k < |taken|
  {
    && p.name == taken[k].name && GptTyped(p.kind, taken[k].name)
    && p.start == GptStart(taken, k)
    && p.end == GptIdealEnd(taken, sectors, k)
  }

  ghost predicate GptIdeal(taken: seq<Entry>, sectors: SectorCount, table: seq<GptPartition>) {
    && |table| == |taken|
    && forall k :: 0 <= k < |table| ==> GptSlotIdeal(taken, sectors, k, table[k])
  }

  /** Every unbounded start and end fits 64 bits. */
  ghost predicate GptInRange(taken: seq<Entry>, sectors: SectorCount) {
    forall k :: 0 <= k < |taken| ==>
      GptStart(taken, k) < TWO_TO_64 && 0 <= GptIdealEnd(taken, sectors, k) < TWO_TO_64
  }

  /** The 64-bit loop agrees with unbounded allocation exactly when every value it should write
      fits the 64-bit fields of section 5.3.3 of the UEFI Specification. */
  lemma GptAgreesIffInRange(entries: seq<Entry>, sectors: SectorCount)
    ensures GptIdeal(Accepted(entries), sectors, GptTable(entries, sectors))
            <==> GptInRange(Accepted(entries), sectors)
  {
    var taken, table := Accepted(entries), GptTable(entries, sectors);
    if GptInRange(taken, sectors) {
      forall k | 0 <= k < |taken| ensures GptSlotIdeal(taken, sectors, k, table[k]) {
        assert GptStart(taken, k) < TWO_TO_64;
      }
    }
    if GptIdeal(taken, sectors, table) {
      forall k | 0 <= k < |taken|
        ensures GptStart(taken, k) < TWO_TO_64 && 0 <= GptIdealEnd(taken, sectors, k) < TWO_TO_64
      {
        assert GptSlotIdeal(taken, sectors, k, table[k]);
      }
    }
  }

  /** When the accepted entries fit, no 64-bit sum wraps: the k-th partition starts at 2048 plus
      the earlier sizes (each plus one) and lies between sector 2048 and 2048 sectors before the
      end, so clear of both GPT copies (section 5.3 of the UEFI Specification). */
  lemma GptLayout(entries: seq<Entry>, sectors: SectorCount)
    requires GptFits(Accepted(entries), sectors)
    ensures GptIdeal(Accepted(entries), sectors, GptTable(entries, sectors))
    ensures forall p :: p in GptTable(entries, sectors) ==>
      2048 <= p.start <= p.end && p.end <= sectors - 2048
  {
    var taken, table := Accepted(entries), GptTable(entries, sectors);
    assert forall k :: 0 <= k < |taken| ==> GptStart(taken, k) + taken[k].size <= sectors - 2048;
    GptAgreesIffInRange(entries, sectors);
    forall k | 0 <= k < |taken| ensures 2048 <= table[k].start <= table[k].end && table[k].end <= sectors - 2048 {
      assert GptSlotIdeal(taken, sectors, k, table[k]);
    }
  }

  /** The inclusive extents are disjoint exactly when no fill entry precedes another accepted entry. */
  lemma GptDisjointIffFillLast(entries: seq<Entry>, sectors: SectorCount)
    requires GptFits(Accepted(entries), sectors)
    ensures GptDisjoint(GptTable(entries, sectors)) <==> FillOnlyLast(Accepted(entries))
  {
    var taken, table := Accepted(entries), GptTable(entries, sectors);
    GptLayout(entries, sectors);
    if FillOnlyLast(taken) {
      forall i, j | 0 <= i < j < |table| ensures table[i].end < table[j].start {
        GptStartMonotone(taken, i, j);
      }
    } else {
      var k :| 0 <= k < |taken| - 1 && taken[k].size == 0;
      assert table[k] in table && table[k + 1] in table;
      GptStartMonotone(taken, k, k + 1);
      assert table[k].start < table[k + 1].start <= table[k].end;
      assert table[k + 1].end >= table[k + 1].start;
    }
  }

  // ---------------------------------------------------------------- MBR

  /** Start of the k-th accepted partition in unbounded arithmetic: half-open extents. */
  function MbrStart(taken: seq<Entry>, k: nat): (start: int)
    requires k <= |taken|
    ensures start >= FIRST_SECTOR
  {
    if k == 0 then FIRST_SECTOR else MbrStart(taken, k - 1) + taken[k - 1].size
  }

  /** What the k-th partition's size would be if no field had a width. */
  function MbrIdealSize(taken: seq<Entry>, sectors: SectorCount, k: nat): int
    requires k < |taken|
  {
    if taken[k].size == 0 then sectors - MbrStart(taken, k) else taken[k].size
  }

  /** The 32-bit table: the start wraps, and the remaining-sector count is taken from the wrapped start. */
  function MbrSlot(taken: seq<Entry>, sectors: SectorCount, k: nat): MbrPartition
    requires k < |taken|
  {
    var start := Wrap32(MbrStart(taken, k));
    MbrPartition(MbrKindOf(taken[k].name), start,
                 if taken[k].size == 0 then Wrap32(sectors - start) else Wrap32(taken[k].size))
  }

  function MbrTable(entries: seq<Entry>, sectors: SectorCount): seq<MbrPartition> {
    var taken := Accepted(entries);
    seq(|taken|, k requires 0 <= k < |taken| => MbrSlot(taken, sectors, k))
  }

  lemma {:induction false} MbrStartSnoc(taken: seq<Entry>, e: Entry, k: nat)
    requires k <= |taken|
    ensures MbrStart(taken + [e], k) == MbrStart(taken, k)
  {
    if k > 0 {
      MbrStartSnoc(taken, e, k - 1);
    }
  }

  /** The running start after a prefix of the entries, as the 32-bit variable holds it. */
  function MbrNext(entries: seq<Entry>): uint32 {
    Wrap32(MbrStart(Accepted(entries), |Accepted(entries)|))
  }

  lemma MbrNextWraps(start: int, size: uint64)
    ensures Add32(Wrap32(start), Wrap32(size)) == Wrap32(start + size)
  {
    ModAdd(start, Wrap32(size), 0x1_0000_0000);
    ModAdd(size, start, 0x1_0000_0000);
  }

  lemma MbrNextStep(entries: seq<Entry>, e: Entry)
    ensures MbrNext(entries + [e]) ==
      if e.number == |Accepted(entries)| + 1 then Add32(MbrNext(entries), Wrap32(e.size))
      else MbrNext(entries)
  {
    AcceptedSnoc(entries, e);
    var taken := Accepted(entries);
    hide Accepted;
    if e.number == |taken| + 1 {
      MbrStartSnoc(taken, e, |taken|);
      MbrNextWraps(MbrStart(taken, |taken|), e.size);
      hide Add32, Wrap32;
    }
  }

  ghost function MbrEntry(e: Entry, sectors: SectorCount, start: uint32): MbrPartition {
    MbrPartition(MbrKindOf(e.name), start, if e.size == 0 then Wrap32(sectors - start) else Wrap32(e.size))
  }

  lemma MbrTableStep(entries: seq<Entry>, e: Entry, sectors: SectorCount)
    ensures MbrTable(entries + [e], sectors) ==
      MbrTable(entries, sectors) +
      (if e.number != |Accepted(entries)| + 1 then []
       else [MbrEntry(e, sectors, MbrNext(entries))])
  {
    AcceptedSnoc(entries, e);
    var taken := Accepted(entries);
    hide Accepted, Wrap32, MbrKindOf;
    if e.number == |taken| + 1 {
      forall k | 0 <= k < |taken| ensures MbrSlot(taken + [e], sectors, k) == MbrSlot(taken, sectors, k) {
        MbrStartSnoc(taken, e, k);
      }
      MbrStartSnoc(taken, e, |taken|);
    }
  }

  lemma MbrPrefixStep(entries: seq<Entry>, x: nat, sectors: SectorCount)
    requires x < |entries|
    ensures var e, before, after := entries[x], entries[..x], entries[..x + 1];
      if e.number == |Accepted(before)| + 1 then
        && |Accepted(after)| == |Accepted(before)| + 1
        && MbrNext(after) == Add32(MbrNext(before), Wrap32(e.size))
        && MbrTable(after, sectors) == MbrTable(before, sectors)
             + [MbrEntry(e, sectors, MbrNext(before))]
      else
        && |Accepted(after)| == |Accepted(before)|
        && MbrNext(after) == MbrNext(before) && MbrTable(after, sectors) == MbrTable(before, sectors)
  {
    var e, before := entries[x], entries[..x];
    assert entries[..x + 1] == before + [e];
    AcceptedSnoc(before, e);
    MbrNextStep(before, e);
    MbrTableStep(before, e, sectors);
    hide Accepted, MbrTable, MbrNext, Wrap32, Add32, MbrEntry;
  }

  method BuildMbrTable(entries: seq<Entry>, sectors: SectorCount) returns (table: seq<MbrPartition>)
    ensures table == MbrTable(entries, sectors)
  {
    table := [];
    var partitionNumber := 1;
    var sectorStart: uint32 := 2048;
    NothingAccepted(entries, sectors);
    hide Accepted, GptTable, GptNext, MbrTable, MbrNext, Wrap32, Add32, MbrKindOf;
    for x := 0 to |entries|
      invariant partitionNumber == |Accepted(entries[..x])| + 1
      invariant sectorStart == MbrNext(entries[..x])
      invariant table == MbrTable(entries[..x], sectors)
    {
      var e := entries[x];
      MbrPrefixStep(entries, x, sectors);
      var remainingSectors: int := sectors - sectorStart;
      if e.number == partitionNumber {
        partitionNumber := partitionNumber + 1;
        var newPartition := MbrPartition(MbrKindOf(e.name), sectorStart, Wrap32(e.size));
        sectorStart := Add32(sectorStart, Wrap32(e.size));
        if e.size == 0 {
          newPartition := newPartition.(size := Wrap32(remainingSectors));
        }
        table := table + [newPartition];
      }
    }
    assert entries[..|entries|] == entries;
  }

  /** Every unbounded start, size and remaining-sector count fits an MBR field. */
  ghost predicate MbrInRange(taken: seq<Entry>, sectors: SectorCount) {
    forall k :: 0 <= k < |taken| ==>
      MbrStart(taken, k) < TWO_TO_32 && 0 <= MbrIdealSize(taken, sectors, k) < TWO_TO_32
  }

  ghost predicate MbrIdeal(taken: seq<Entry>, sectors: SectorCount, table: seq<MbrPartition>) {
    && |table| == |taken|
    && forall k :: 0 <= k < |table| ==>
         && MbrTyped(table[k].kind, taken[k].name)
         && table[k].start == MbrStart(taken, k)
         && table[k].size == MbrIdealSize(taken, sectors, k)
  }

  /** The 32-bit loop agrees with unbounded allocation exactly when every value it should write
      fits the 32-bit fields of section 5.2.1 of the UEFI Specification. */
  lemma MbrAgreesIffInRange(entries: seq<Entry>, sectors: SectorCount)
    ensures MbrIdeal(Accepted(entries), sectors, MbrTable(entries, sectors))
            <==> MbrInRange(Accepted(entries), sectors)
  {
    var taken, table := Accepted(entries), MbrTable(entries, sectors);
    if MbrInRange(taken, sectors) {
      forall k | 0 <= k < |taken|
        ensures MbrTyped(table[k].kind, taken[k].name)
        ensures table[k].start == MbrStart(taken, k) && table[k].size == MbrIdealSize(taken, sectors, k)
      {
        assert MbrStart(taken, k) < TWO_TO_32;
      }
    }
    if MbrIdeal(taken, sectors, table) {
      forall k | 0 <= k < |taken|
        ensures MbrStart(taken, k) < TWO_TO_32 && 0 <= MbrIdealSize(taken, sectors, k) < TWO_TO_32
      {
        assert table[k].start == MbrStart(taken, k);
      }
    }
  }

  ghost predicate MbrFits(taken: seq<Entry>, sectors: SectorCount) {
    forall k :: 0 <= k < |taken| ==>
      MbrStart(taken, k) < sectors && MbrStart(taken, k) + taken[k].size <= sectors
  }

  ghost predicate MbrDisjoint(table: seq<MbrPartition>) {
    forall i, j :: 0 <= i < j < |table| ==>
      || table[i].start + table[i].size <= table[j].start
      || table[j].start + table[j].size <= table[i].start
  }

  lemma {:induction false} MbrStartMonotone(taken: seq<Entry>, i: nat, j: nat)
    requires i < j <= |taken|
    ensures MbrStart(taken, i) + taken[i].size <= MbrStart(taken, j)
  {
    if i + 1 < j {
      MbrStartMonotone(taken, i, j - 1);
    }
  }

  /** Entries that fit the disk, and whose values fit the 32-bit fields, give contiguous extents
      inside the disk, however large that is. */
  lemma MbrLayout(entries: seq<Entry>, sectors: SectorCount)
    requires MbrFits(Accepted(entries), sectors) && MbrInRange(Accepted(entries), sectors)
    ensures var taken, table := Accepted(entries), MbrTable(entries, sectors);
      && MbrIdeal(taken, sectors, table)
      && (forall k :: 0 <= k < |table| ==>
           table[k].size > 0 && table[k].start + table[k].size <= sectors)
      && (forall k :: 0 <= k < |table| - 1 && taken[k].size != 0 ==>
           table[k].start + table[k].size == table[k + 1].start)
  {
    var taken, table := Accepted(entries), MbrTable(entries, sectors);
    MbrAgreesIffInRange(entries, sectors);
    forall k | 0 <= k < |table| - 1 && taken[k].size != 0
      ensures table[k].start + table[k].size == table[k + 1].start
    {
      assert table[k + 1].start == MbrStart(taken, k + 1);
    }
  }

  /** Those extents are disjoint exactly when no fill entry precedes another accepted entry. */
  lemma MbrDisjointIffFillLast(entries: seq<Entry>, sectors: SectorCount)
    requires MbrFits(Accepted(entries), sectors) && MbrInRange(Accepted(entries), sectors)
    ensures MbrDisjoint(MbrTable(entries, sectors)) <==> FillOnlyLast(Accepted(entries))
  {
    MbrLayout(entries, sectors);
    var taken, table := Accepted(entries), MbrTable(entries, sectors);
    if FillOnlyLast(taken) {
      forall i, j | 0 <= i < j < |table|
        ensures table[i].start + table[i].size <= table[j].start
      {
        MbrStartMonotone(taken, i, j);
      }
    } else {
      var k :| 0 <= k < |taken| - 1 && taken[k].size == 0;
      MbrEarlyFillOverlaps(taken, sectors, table, k);
    }
  }

  lemma MbrEarlyFillOverlaps(taken: seq<Entry>, sectors: SectorCount, table: seq<MbrPartition>, k: nat)
    requires MbrIdeal(taken, sectors, table) && MbrFits(taken, sectors)
    requires k < |taken| - 1 && taken[k].size == 0
    ensures !MbrDisjoint(table)
  {
    var p, q := table[k], table[k + 1];
    assert MbrStart(taken, k + 1) == MbrStart(taken, k);
    assert p.start == q.start && p.size > 0 && q.size > 0;
    assert !(p.start + p.size <= q.start || q.start + q.size <= p.start);
  }

  function SizeSum(table: seq<MbrPartition>, k: nat): int
    requires k <= |table|
  {
    if k == 0 then 0 else SizeSum(table, k - 1) + table[k - 1].size
  }

  lemma {:induction false} SizeSumIsStart(taken: seq<Entry>, table: seq<MbrPartition>, k: nat)
    requires k <= |table| == |taken|
    requires forall j :: 0 <= j < k ==> table[j].size == taken[j].size
    ensures FIRST_SECTOR + SizeSum(table, k) == MbrStart(taken, k)
  {
    if k > 0 {
      SizeSumIsStart(taken, table, k - 1);
    }
  }

  /** A final fill entry makes 2048 plus all written sizes equal the disk. */
  lemma MbrFillCoversDisk(entries: seq<Entry>, sectors: SectorCount)
    requires MbrFits(Accepted(entries), sectors) && MbrInRange(Accepted(entries), sectors)
    requires var taken := Accepted(entries); FillOnlyLast(taken) && taken != [] && taken[|taken| - 1].size == 0
    ensures FIRST_SECTOR + SizeSum(MbrTable(entries, sectors), |MbrTable(entries, sectors)|) == sectors
  {
    MbrLayout(entries, sectors);
    MbrFillCovers(Accepted(entries), sectors, MbrTable(entries, sectors));
  }

  lemma MbrFillCovers(taken: seq<Entry>, sectors: SectorCount, table: seq<MbrPartition>)
    requires MbrIdeal(taken, sectors, table)
    requires FillOnlyLast(taken) && taken != [] && taken[|taken| - 1].size == 0
    ensures FIRST_SECTOR + SizeSum(table, |table|) == sectors
  {
    SizeSumIsStart(taken, table, |taken| - 1);
  }

  // ---------------------------------------------------------------- both tables on every input

  /** The sizes of the first k entries. */
  ghost function SizesBefore(taken: seq<Entry>, k: nat): int
    requires k <= |taken|
  {
    if k == 0 then 0 else SizesBefore(taken, k - 1) + taken[k - 1].size
  }

  lemma {:induction false} StartsAreSums(taken: seq<Entry>, k: nat)
    requires k <= |taken|
    ensures GptStart(taken, k) == 2048 + SizesBefore(taken, k) + k
    ensures MbrStart(taken, k) == 2048 + SizesBefore(taken, k)
  {
    if k > 0 {
      StartsAreSums(taken, k - 1);
    }
  }

  // What a 32-bit and a 64-bit field hold of a value: its remainder.
  ghost predicate Held32(x: int, r: int) { 0 <= r < 0x1_0000_0000 && exists q :: Differ(x, r, q, 0x1_0000_0000) }
  ghost predicate Held64(x: int, r: int) {
    0 <= r < 0x1_0000_0000_0000_0000 && exists q :: Differ(x, r, q, 0x1_0000_0000_0000_0000)
  }
  ghost predicate Differ(x: int, r: int, q: int, m: int) { x == m * q + r }

  lemma WrapReduces(x: int)
    ensures Held32(x, Wrap32(x)) && Held64(x, Wrap64(x))
  {
    var q := if 0 <= x < TWO_TO_32 then 0 else x / 0x1_0000_0000;
    assert Differ(x, Wrap32(x), q, 0x1_0000_0000);
    var r := if 0 <= x < TWO_TO_64 then 0 else x / 0x1_0000_0000_0000_0000;
    assert Differ(x, Wrap64(x), r, 0x1_0000_0000_0000_0000);
  }

  lemma GptSlotModulo(taken: seq<Entry>, sectors: SectorCount, k: nat)
    requires k < |taken|
    ensures var p, start := GptSlot(taken, sectors, k), GptStart(taken, k);
      && p.name == taken[k].name && GptTyped(p.kind, taken[k].name)
      && Held64(start, p.start)
      && Held64(GptIdealEnd(taken, sectors, k), p.end)
  {
    TypesByLabel(taken[k].name);
    hide GptStart, GptIdealEnd, MbrStart, Held32, Held64, Wrap32, Wrap64, GptKindOf, MbrKindOf, GptTyped, MbrTyped;
    WrapReduces(GptStart(taken, k));
    WrapReduces(GptIdealEnd(taken, sectors, k));
  }

  lemma MbrSlotModulo(taken: seq<Entry>, sectors: SectorCount, k: nat)
    requires k < |taken|
    ensures var p, size := MbrSlot(taken, sectors, k), taken[k].size;
      && MbrTyped(p.kind, taken[k].name)
      && Held32(MbrStart(taken, k), p.start)
      && Held32(if size == 0 then sectors - p.start else size, p.size)
  {
    TypesByLabel(taken[k].name);
    hide GptStart, MbrStart, Held32, Held64, Wrap32, Wrap64, GptKindOf, MbrKindOf, GptTyped, MbrTyped;
    WrapReduces(MbrStart(taken, k));
    WrapReduces(sectors - Wrap32(MbrStart(taken, k)));
    WrapReduces(taken[k].size);
  }

  /** What the fields hold whether or not the values fit: everything modulo the field's range. */
  lemma TablesModuloWidth(entries: seq<Entry>, sectors: SectorCount, k: nat)
    requires k < |Accepted(entries)|
    ensures var taken, gpt, mbr := Accepted(entries), GptTable(entries, sectors), MbrTable(entries, sectors);
      && |gpt| == |mbr| == |taken|
      && gpt[k].name == taken[k].name && GptTyped(gpt[k].kind, taken[k].name) && MbrTyped(mbr[k].kind, taken[k].name)
      && Held64(GptStart(taken, k), gpt[k].start)
      && Held64(GptIdealEnd(taken, sectors, k), gpt[k].end)
      && Held32(MbrStart(taken, k), mbr[k].start)
      && Held32(if taken[k].size == 0 then sectors - mbr[k].start else taken[k].size, mbr[k].size)
  {
    GptSlotModulo(Accepted(entries), sectors, k);
    MbrSlotModulo(Accepted(entries), sectors, k);
    hide Accepted, GptStart, MbrStart, GptIdealEnd, GptSlot, MbrSlot, GptTyped, MbrTyped, Held32, Held64;
  }

  // ---------------------------------------------------------------- concrete disks

  lemma AcceptedPair(a: Entry, b: Entry)
    requires a.number == 1 && b.number == 2
    ensures Accepted([a, b]) == [a, b]
  {
    AcceptedSnoc([], a);
    AcceptedSnoc([a], b);
    assert [] + [a] == [a] && [a] + [b] == [a, b];
  }

  // A fill entry followed by another one, on a disk that both fit.
  const EARLY_FILL := [Entry("ROOT", 1, 0), Entry("DATA", 2, 4096)]

  /** The inclusive extents overlap. */
  lemma EarlyFillOverlapsGpt()
    ensures GptFits(Accepted(EARLY_FILL), 1_000_000) && !GptDisjoint(GptTable(EARLY_FILL, 1_000_000))
  {
    AcceptedPair(EARLY_FILL[0], EARLY_FILL[1]);
    assert GptStart(EARLY_FILL, 1) == 2049;
    GptDisjointIffFillLast(EARLY_FILL, 1_000_000);
    hide Accepted, GptTable, GptDisjoint;
    assert EARLY_FILL[0].size == 0;
  }

  lemma EarlyFillOverlapsMbr()
    ensures MbrFits(Accepted(EARLY_FILL), 1_000_000) && MbrInRange(Accepted(EARLY_FILL), 1_000_000)
    ensures !MbrDisjoint(MbrTable(EARLY_FILL, 1_000_000))
  {
    AcceptedPair(EARLY_FILL[0], EARLY_FILL[1]);
    assert MbrStart(EARLY_FILL, 1) == 2048;
    hide Accepted, MbrTable, MbrDisjoint;
    MbrDisjointIffFillLast(EARLY_FILL, 1_000_000);
    assert EARLY_FILL[0].size == 0;
  }

  /** A size of 2^32 sectors is written as 0. */
  lemma WideSizeIsLost()
    ensures var entries := [Entry("ROOT", 1, 0x1_0000_0000)];
      && MbrFits(Accepted(entries), 0x2_0000_0000)
      && MbrTable(entries, 0x2_0000_0000) == [MbrPartition(Linux(false), 2048, 0)]
      && !MbrIdeal(Accepted(entries), 0x2_0000_0000, MbrTable(entries, 0x2_0000_0000))
  {
    var entries := [Entry("ROOT", 1, 0x1_0000_0000)];
    AcceptedSnoc([], entries[0]);
    assert [] + entries == entries && Accepted(entries) == entries;
    assert MbrStart(entries, 0) == 2048;
    assert Wrap32(0x1_0000_0000) == 0;
    assert MbrKindOf("ROOT") == Linux(false);
    hide Accepted, MbrKindOf, MbrStart, Wrap32;
    assert Wrap32(2048) == 2048 by { SmallIsKept(2048); }
    assert MbrTable(entries, 0x2_0000_0000) == [MbrSlot(entries, 0x2_0000_0000, 0)];
  }

  lemma SmallIsKept(x: int)
    requires 0 <= x < TWO_TO_32
    ensures Wrap32(x) == x
  {
  }

  /** A disk above 2^32 sectors is still covered completely when every field's value fits. */
  lemma WideDiskIsCovered()
    ensures var entries := [Entry("ROOT", 1, 0xFFFF_F000), Entry("DATA", 2, 0)];
      var table := MbrTable(entries, 0x1_8000_0000);
      MbrDisjoint(table) && FIRST_SECTOR + SizeSum(table, |table|) == 0x1_8000_0000
  {
    var entries := [Entry("ROOT", 1, 0xFFFF_F000), Entry("DATA", 2, 0)];
    AcceptedPair(entries[0], entries[1]);
    assert MbrStart(entries, 1) == 0xFFFF_F800;
    MbrDisjointIffFillLast(entries, 0x1_8000_0000);
    MbrFillCoversDisk(entries, 0x1_8000_0000);
  }
}
