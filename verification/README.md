# Verification of the provisioning actions

This project models the logic of the bare-metal provisioning actions and proves what they are
meant to guarantee. Each module follows one part of the repository.

| modules | part of the repository |
|---|---|
| `PartitionTables` | the GPT and MBR sector allocators, in 64-bit and 32-bit arithmetic |
| `Metadata`, `LvmRules`, `RaidRules` | storage metadata, its validators, and the extent arithmetic of a volume plan |
| `HostTools`, `Provision` | the machine, what each external tool does to it, and `rootio partition` / `rootio wipe` over it |
| `Convergence`, `Realization` | crash-and-re-run behaviour of those two commands, and what a finished run builds |
| `MountTree`, `Fstab` | the mount tree the actions write into, and the generated `/etc/fstab` |
| `GrubConfig`, `GrubRoundTrip`, `GrubPrint` | the grub.cfg reader of the kexec action |
| `GrubDefaults`, `SshdConfig` | the rewriters of `/etc/default/grub` and `sshd_config` |
| `TarExtract`, `EnsureDir` | tar extraction with deferred hard links, and recursive directory creation |
| `Options`, `Paths`, `Sequences`, `Text` | shared vocabulary: optional values, paths, lists, and strings cut as Go's library cuts them |

Code that changes state step by step is a method, or a class whose methods change its fields; each
is proved equal to a specification function, and the theorems are about that function.

## The storage pipeline

A `Host` holds the partition tables on the disks, the partitions the kernel shows, md superblocks,
assembled arrays, LVM signatures and volume groups. Every external command is one step. The only
assumptions about mdadm, LVM, the kernel and the partition writer are `Accepts`, `Effect` and
`Refused` in `HostTools`. In particular:

- a signature inside an array is invisible and stays there while the array is stopped; `pvremove`
  on an array that is not assembled does nothing, and `pvcreate` refuses a device that carries a
  signature;
- `vgchange`, `vgremove` and `lvcreate` work only while all physical volumes of the group are seen;
- `mdadm --stop` and `--zero-superblock` fail on a device in use, and so does re-reading the table
  of a disk in use;
- wiping zeros the start of a disk but the kernel keeps showing the old partitions until a table is
  written.

A run carries a fuse: `After(n)` kills the process once `n` more commands have been issued, `Never`
lets it finish. So "killed anywhere" and "every state in the middle of a run" are the same
quantification, and `HostAfter` ranges over all sequences of runs from a blank host.

`ValidStorage` is what the metadata must satisfy: disks are attached and listed once, arrays have
paths and members of their own. Groups and arrays that the validators reject are allowed, and so are
groups that share a name or a physical volume; what cannot be built is not. `SoundPlan` adds that
the plan can be carried out.

## Findings

Some promises in the repository's comments and documentation hold only under a condition. The code
is modelled as it is, the condition is proved exact, and each finding has a lemma at a concrete
failing input (or a family of them).

- The sshd rewriter's comment says its result always has the new line between two newlines
  (user-manage/internal/users/users.go:42-44). It does if and only if no line named the directive or
  some line other than the last one did (`SshdConfig.SurroundedIff`; failing family:
  `SshdConfig.LastLineStaysOpen`).
- GPT extents are inclusive and a fill entry moves the running start by one sector only, so extents
  are disjoint if and only if no fill entry precedes another accepted one; the same holds for MBR
  (`PartitionTables.GptDisjointIffFillLast`, `PartitionTables.MbrDisjointIffFillLast`; failing input:
  `PartitionTables.EarlyFillOverlapsGpt`, `PartitionTables.EarlyFillOverlapsMbr`).
- 32-bit MBR arithmetic is right if and only if every value it should write fits in 32 bits, however
  large the disk (`PartitionTables.MbrAgreesIffInRange`; failing input:
  `PartitionTables.WideSizeIsLost`; a disk above 2^32 sectors on which it is right:
  `PartitionTables.WideDiskIsCovered`).
- A later rewrite of grub defaults undoes an earlier one for a `ttyS` console on all texts if and only
  if the earlier console's baud rate is not negative; in particular rewriting is idempotent exactly
  then (`GrubDefaults.LastConsoleWinsIff`, `GrubDefaults.IdempotentIffBaudNotNegative`; failing
  input: `GrubDefaults.NegativeBaudStays`).
- Every order of making the deferred hard links works if and only if no link's target is itself the
  name of a link (`TarExtract.EveryOrderWorksIffNoChains`; failing input:
  `TarExtract.ChainDependsOnOrder`). Orders that do succeed always agree on the tree
  (`TarExtract.SuccessfulExtractionsAgree`).
- Extracting an archive a second time over its own result works if and only if it holds no hard link
  (`TarExtract.ExtractAgainIff`; failing input: `TarExtract.HardLinkBlocksSecondExtraction`).
- The generated fstab reads back if and only if labels, mount points and formats are single words
  (`Fstab.RenderReadsBackIff`; failing family: `Fstab.SpacedLabelIsLost`).
- The example metadata labels a vfat filesystem with `-L` (rootio/README.md:70-80). The generated fstab
  leaves it out, because the label of a vfat filesystem is looked for after `-n` only
  (`Fstab.ReadBackSays` says which label counts; failing family: `Fstab.VfatIgnoresL`).
- A menu entry's name is cut at its first `--`, so printing and parsing is the identity if and only if
  no name contains one (`GrubPrint.PrintParseRoundTrip`; failing family: `GrubPrint.DashedNameIsCut`).
- Running the directory creation again after a failure repairs it, that is, gives what the second run
  alone would have given, if and only if what failed first was making a directory and not handing it
  over, and the target is not one of the joins made before (`EnsureDir.RepairedIff`; failing family:
  `EnsureDir.FailedChownStays`).

## Model

| member | source | states |
|---|---|---|
| PartitionTables.GreedyIsOptimal | rootio/storage/partition.go:80-113 | the entries the loop accepts are the longest way of reading 1, 2, 3, ... as a subsequence of the numbers, and each is reached as early as in any other way |
| PartitionTables.BuildGptTable | rootio/storage/partition.go:65-113 | the 64-bit loop writes, for the k-th accepted entry, the wrapped closed-form start and end; skipped entries never move the running start |
| PartitionTables.GptNextStep | rootio/storage/partition.go:82-92 | the running start wraps modulo 2^64, moves by size plus one for an accepted entry and not at all for a skipped one |
| PartitionTables.GptAgreesIffInRange | rootio/storage/partition.go:77-113 | the 64-bit table equals unbounded allocation, names and types included, if and only if every start and end fits a 64-bit field (section 5.3.3 of the UEFI Specification); only `SWAP`, `BIOS` and `EFI` have types of their own |
| PartitionTables.GptLayout | rootio/storage/partition.go:77-113 | if the accepted entries fit, nothing wraps, starts are 2048 plus earlier sizes plus one each, and extents lie in [2048, sectors-2048], clear of both GPT copies (section 5.3 of the UEFI Specification) |
| PartitionTables.GptDisjointIffFillLast | rootio/storage/partition.go:105-113 | inclusive extents are pairwise disjoint if and only if no Size-0 entry precedes another accepted entry |
| PartitionTables.BuildMbrTable | rootio/storage/partition.go:132-184 | the 32-bit loop writes the wrapped closed-form start and size for each accepted entry, a fill entry taking its size from the wrapped start |
| PartitionTables.MbrAgreesIffInRange | rootio/storage/partition.go:143-184 | the 32-bit table equals unbounded allocation, types by label included, if and only if every start, size and remaining count fits a 32-bit field (section 5.2.1 of the UEFI Specification) |
| PartitionTables.MbrLayout | rootio/storage/partition.go:143-184 | on a disk of any size, entries that fit it and whose values fit 32 bits give non-empty, contiguous extents inside the disk |
| PartitionTables.MbrDisjointIffFillLast | rootio/storage/partition.go:176-182 | those extents are disjoint if and only if no Size-0 entry precedes another accepted entry |
| PartitionTables.MbrFillCoversDisk | rootio/storage/partition.go:148-179 | with a final fill entry 2048 plus all written sizes is the disk size, whenever the values fit 32 bits |
| PartitionTables.StartsAreSums | rootio/storage/partition.go:77-92 | the k-th start is 2048 plus the earlier sizes, in a GPT plus one for each |
| PartitionTables.TablesModuloWidth | rootio/storage/partition.go:77-184 | on every input, fitting or not, each field holds the unbounded value modulo its range, and name and type are the label's |
| PartitionTables.EarlyFillOverlapsGpt | rootio/storage/partition.go:105-113 | two concrete entries that fit a disk and overlap as GPT partitions |
| PartitionTables.EarlyFillOverlapsMbr | rootio/storage/partition.go:176-182 | the same two as MBR partitions |
| PartitionTables.WideSizeIsLost | rootio/storage/partition.go:152-155 | a size of 2^32 sectors is written as 0 |
| PartitionTables.WideDiskIsCovered | rootio/storage/partition.go:148-179 | a disk above 2^32 sectors that the 32-bit loop partitions without overlap and covers completely |
| LvmRules.ValidateVolumeGroup | rootio/storage/lvm.go:15-46 | accepts exactly the well-formed groups; every rejection names something that really offends |
| LvmRules.NamesAndTags | rootio/lvm/lvm.go:12-79 | the patterns accept exactly one or more of the documented characters with no hyphen in front, for tags at most 1024 |
| LvmRules.AllocateIff | rootio/lvm/lvm.go:125-158 | creating volumes one after the other succeeds exactly when zero sizes come last only, the sum fits and a fill volume finds something left; a fill volume uses every extent |
| LvmRules.AllocationSucceedsIff | rootio/storage/lvm.go:79-83 | the same in terms of a volume group's entries, with sizes rounded up to extents |
| LvmRules.FillLastIsExactlyEnough | rootio/storage/lvm.go:41-43 | with room to spare, the validator's fill-last rule is exactly what allocation needs |
| RaidRules.NormalizedNames | rootio/storage/raid.go:55-61 | normalizing a valid name is idempotent, stays valid, and identifies exactly the short and long spelling of one array |
| RaidRules.RaidNameIff | rootio/storage/raid.go:18-21 | the recognizer accepts exactly the names that the pattern generates |
| RaidRules.ValidRaidIff | rootio/storage/raid.go:23-53 | an array is accepted when its name matches, its level is one of the seven and it has 2, 3 or 4 devices as that level asks |
| Provision.MembersInOrder | rootio/storage/raid.go:63-79 | an array's devices are the listed ones and then the spares |
| Provision.RemoveGroupsAt | rootio/storage/lvm.go:51-55 | the i-th group is deactivated and then removed |
| Provision.WipesTheFlagged | rootio/cmd/rootio.go:135-141 | the disks that are wiped before they are partitioned are exactly those with wipe_table set |
| Provision.CreatesTheAccepted | rootio/storage/raid.go:81-98 | an array is created for exactly the accepted entries, a named one only if /dev/md can be made |
| Provision.RootIO.TeardownVolumeGroups | rootio/storage/lvm.go:51-61 | deactivates and removes every group first, then clears every physical volume, issuing every command whatever fails |
| Provision.RootIO.StopRAID | rootio/storage/raid.go:101-115 | issues one stop for the normalized array path |
| Provision.RootIO.ResetRaid | rootio/cmd/rootio.go:114-123 | for each array in order one stop and then one zeroing per device and spare |
| Provision.RootIO.Partition | rootio/storage/partition.go:65-129 | writes the planned table, or does nothing when the disk cannot be opened; which table that is, by format and field, is `Realization.FinishedRunFormats` |
| Provision.RootIO.CreateRAID | rootio/storage/raid.go:81-98 | an array that is rejected, or a named one for which /dev/md cannot be made, issues no command; any other exactly one create over devices and spares |
| Provision.RootIO.CreateVolumeGroup | rootio/storage/lvm.go:63-86 | a rejected group issues no command; an accepted one runs the chain of commands up to the first failure, and no later validator of the driver rejects it |
| Provision.RootIO.PartitionCommand | rootio/cmd/rootio.go:109-172 | the partition command is teardown, array reset, disks, arrays, groups, in this order, with errors ending only what they end in the source |
| Provision.RootIO.WipeCommand | rootio/cmd/rootio.go:178-210 | the wipe command is teardown, array reset, wiping every disk |
| Provision.RunChainAppend | rootio/storage/lvm.go:68-83 | a fail-fast sequence stops at the first failing command, wherever it is split |
| Convergence.TeardownPhase | rootio/storage/lvm.go:51-61 | from any reachable state a teardown that is not killed removes every group and every signature, and a killed one keeps the invariant |
| Convergence.ResetPhase | rootio/cmd/rootio.go:114-123 | with LVM gone, the array loop stops every array and cleans every member, and keeps the invariant when killed |
| Convergence.CleanPhase | rootio/cmd/rootio.go:110-123 | the two phases leave a bare machine |
| Convergence.DisksPhase | rootio/cmd/rootio.go:125-151 | on a bare machine the disk loop writes every planned table, whichever disks are wiped first |
| Convergence.BuildKeeps | rootio/cmd/rootio.go:157-171 | building arrays and groups keeps the invariant at every step and leaves tables and partitions alone |
| Convergence.AttemptKeeps | rootio/cmd/rootio.go:106-210 | a partition or wipe run, killed after any command or finished, keeps the invariant |
| Convergence.ReachableIsSane | rootio/cmd/rootio.go:106-210 | every state reachable by any sequence of such runs satisfies the invariant |
| Convergence.NoSignatureIsEverHidden | rootio/storage/lvm.go:48-50 | in every reachable state no LVM signature sits inside a stopped array |
| Convergence.FinishedRunPrepares | rootio/cmd/rootio.go:110-151 | from any reachable state a finished run's first three phases leave exactly the planned tables and nothing else |
| Convergence.PreparedIsUnique | rootio/cmd/rootio.go:125-151 | that state does not depend on what was there before |
| Convergence.PartitionConverges | rootio/README.md:153-156 | after any sequence of partition and wipe runs on the same metadata, each killed after any command or finished, one finished partition run ends in exactly the state a single run from a blank host gives |
| Realization.ArraysRealized | rootio/cmd/rootio.go:157-161 | for a plan that can be carried out, every array is created over its members |
| Realization.WholeGroupRealized | rootio/storage/lvm.go:63-86 | a fresh, sound group is built completely: signatures, group, and every volume with the extents of the plan |
| Realization.FinishedRunRealizes | rootio/README.md:178-181 | from any reachable state a finished partition run on a plan that can be carried out builds exactly the described tables, arrays, groups and volumes |
| Realization.FinishedRunFormats | rootio/cmd/rootio.go:142-151 | from any reachable state, after a finished partition run every disk carries an MBR if and only if MBR is set, with unbounded allocation exactly when the values fit, and the kernel shows one partition per accepted entry |
| Realization.FinishedWipeClears | rootio/cmd/rootio.go:178-210 | from any reachable state a finished wipe leaves no table, array, superblock, signature or group |
| Realization.SwappedOnBlank | rootio/cmd/rootio.go:109-172 | on a blank host the command with its first two phases swapped does exactly what the command does |
| Realization.SwappedPhasesHide | rootio/storage/lvm.go:48-50 | two runs of the swapped command from a blank host, the second killed after its first command, leave a signature inside a stopped array: the documented order is necessary |
| MountTree.StableSortKeeps | pkg/chroot/filter.go:27-29 | the sort orders by depth and keeps the metadata order within every depth |
| MountTree.FilterExtras | pkg/chroot/filter.go:14-31 | the list is the stable sort by depth of the entries that are neither root, pointless, swap nor vfat |
| MountTree.MountedSiblings | pkg/chroot/filter.go:16-25 | mounted besides the primary device is exactly what has a point other than `/` and is neither swap nor vfat |
| MountTree.Namespace.MountExtras | pkg/chroot/chroot.go:51-62 | mounts a prefix of that list, all of it unless the host refuses the next entry |
| MountTree.Namespace.MountTree | pkg/chroot/chroot.go:32-40 | mounts the primary device first and then the siblings; stops at the first refusal |
| MountTree.DepthCountsSlashes | pkg/chroot/filter.go:33-35 | the depth of a clean mount point is the number of its slashes but the first |
| MountTree.AncestorIsShallower | pkg/chroot/filter.go:33-35 | a mount point strictly above another has a smaller depth |
| MountTree.MountView | archive2disk/main.go:67-72 | after a complete run the latest mount covering any path is the longest-prefix one of the metadata, the last entry of the metadata on equal points, mounted under /mountAction, or the primary device |
| MountTree.NothingIsShadowed | pkg/chroot/chroot.go:48-50 | after any prefix of the run each mounted sibling is visible at its point and everything listed above it is mounted already |
| MountTree.ViewIgnoresOrder | pkg/chroot/filter.go:10-13 | with distinct mount points the view does not depend on the order of the metadata |
| Fstab.LabelFromOptions | rootio/fstab/fstab.go:38-49 | the word after the first `-n` that has one for vfat, after the first `-L` for every other format |
| Fstab.Render | rootio/fstab/fstab.go:17-34 | the text is one line per labelled filesystem in order |
| Fstab.TextSnoc | rootio/fstab/fstab.go:17-34 | one more filesystem adds nothing when its label is empty, and else exactly its line: label, point, format, options, `0`, and `1` for the root or `2` |
| Fstab.RootAndEfi | rootio/fstab/fstab.go:20-31 | an ext4 root labelled by `-L` and a vfat partition labelled by `-n` both get their lines |
| Fstab.VfatIgnoresL | rootio/fstab/fstab.go:38-49 | a vfat filesystem labelled by `-L` gets no line |
| Fstab.RenderReadsBackIff | rootio/fstab/fstab.go:17-59 | parsing the text by fields gives back, in order, exactly the labelled filesystems with label, options, dump 0 and pass 1 precisely for the root, if and only if the columns are single words |
| Fstab.ReadBackSays | rootio/fstab/fstab.go:20-31 | read back, the k-th line says of the k-th labelled filesystem its first-match label, point, format and options by format, dump 0, and pass 1 precisely for the root |
| Fstab.BootView | rootio/fstab/fstab.go:17-34 | booting with ancestors first shows, for every path, the longest-prefix filesystem |
| Fstab.SwapIsQuiet | rootio/fstab/fstab.go:30-31 | a swap line, however many words its label or its possibly empty point have, adds nothing that boot mounts |
| Fstab.BootShowsTheSame | archive2disk/main.go:67-72 | outside vfat mount points every path belongs to the same filesystem in the provisioning mount tree and after booting from the text read back, when the columns of what boot mounts are single words |
| Fstab.SpacedLabelIsLost | rootio/fstab/fstab.go:30-31 | a label with whitespace in it does not read back |
| GrubConfig.ReadSet | kexec/cmd/grub/grub.go:42-51 | the `set` branch ends the program exactly on a bare `set` or `set default` without `=`, and changes the default exactly on `set default=` |
| GrubConfig.KindsByWord | kexec/cmd/grub/grub.go:79-104 | which words are which directive, and that no other word is one |
| GrubConfig.ReadDirective | kexec/cmd/grub/grub.go:73-104 | the directive switch absorbs one line into the open configuration |
| GrubConfig.PanicsIff | kexec/cmd/grub/grub.go:42-46 | reading a text ends the program if and only if some line is a bare `set` or begins `set default` |
| GrubConfig.ParseGrubCfg | kexec/cmd/grub/grub.go:29-113 | on every text the line machine equals the declarative reading, including where indexing ends the program |
| GrubConfig.GetDefaultConfig | kexec/cmd/grub/grub.go:20-26 | no entry, the entry at the default index, or an index out of range |
| GrubRoundTrip.SegmentsAreTheCut | kexec/cmd/grub/grub.go:52-72 | the segments are the file from its first menuentry line on, cut exactly at those lines |
| GrubRoundTrip.LastOfIsLast | kexec/cmd/grub/grub.go:79-94 | the line read for a kind is the last of that kind in the segment |
| GrubRoundTrip.BootableIff | kexec/cmd/grub/grub.go:54-61 | the configurations are exactly what the segments say that have a kernel and an initramfs |
| GrubRoundTrip.UnescapeLaws | kexec/cmd/grub/grub.go:67-67 | unescaping changes nothing where there is no `\$` and makes each `\$` a `$`, however the text around it is cut |
| GrubRoundTrip.ConcatenatedFiles | kexec/cmd/grub/grub.go:29-113 | reading a file continued by one that starts with menuentry concatenates the configurations; the later default and any fault carry over |
| GrubPrint.DefaultInGeneral | kexec/cmd/grub/grub.go:42-51 | `set default=` with a quote or none on either side, a sign or none, and octal digits sets their number, 0 when no int holds it; what follows another `=` is ignored |
| GrubPrint.OtherDefaultIsZero | kexec/cmd/grub/grub.go:46-50 | any other character in the default makes it 0 |
| GrubPrint.PrintedFileMeans | kexec/cmd/grub/grub.go:63-112 | a printed file, in any spelling of the directives and with the default quoted or not, reads back with every name cut at its first `--` |
| GrubPrint.PrintParseRoundTrip | kexec/cmd/grub/grub.go:20-112 | in any spelling, printing and parsing is the identity if and only if no name contains `--`; the default choice is then the printed one, none without entries and out of range beyond them |
| GrubPrint.DashedNameIsCut | kexec/cmd/grub/grub.go:66-68 | a one-word name with `--` in it does not come back |
| GrubDefaults.MatchIsLongest | serial-console/internal/serial/serial.go:34-40 | the scanner's match is a word of the regular expression's language and the longest one there |
| GrubDefaults.ReplaceIsJoin | serial-console/internal/serial/serial.go:34-41 | the leftmost, non-overlapping replacement is the text between the matches joined by the replacement |
| GrubDefaults.GapsKept | serial-console/internal/serial/serial.go:34-41 | replacing leaves the text around the tokens as it was |
| GrubDefaults.ScansCommute | serial-console/internal/serial/serial.go:33-41 | the two replacements can be made in either order |
| GrubDefaults.ReplacementIsValid | serial-console/internal/serial/serial.go:25-41 | for a `ttyS` number and a baud rate that is not negative each replacement is itself one whole match, in any context |
| GrubDefaults.UnitInGeneral | serial-console/internal/serial/serial.go:45-50 | the unit is the signed number after `ttyS` and blanks, whatever follows its digits, and 0 when no int holds it |
| GrubDefaults.NoNumberIsZero | serial-console/internal/serial/serial.go:43-50 | a TTY without digits behind `ttyS`, blanks and a sign has unit 0 |
| GrubDefaults.UnitIsTheNumber | serial-console/internal/serial/serial.go:45-50 | the unit of `ttyS` and digits is their number, 0 when no int holds it; printed digits give the printed number |
| GrubDefaults.LastConsoleWins | serial-console/internal/serial/serial.go:21-43 | rewriting for a `ttyS` console with a baud rate that is not negative and then for another one, of any baud rate and almost any TTY, is rewriting for the other one |
| GrubDefaults.LastConsoleWinsIff | serial-console/internal/serial/serial.go:21-43 | over a `ttyS` console the last write wins on all texts if and only if that console's baud rate is not negative |
| GrubDefaults.OnlyWordsChange | serial-console/internal/serial/serial.go:33-41 | the rewritten text, cut into tokens, commands and the characters outside them, is the text so cut with its tokens and commands reworded |
| GrubDefaults.EveryTokenCarriesTheConsole | serial-console/internal/serial/serial.go:16-42 | afterwards every console token, at any position, reads `console=`, the TTY, a comma and the baud rate (115200 for 0), every serial command has that rate as speed and the number of the TTY's digits as unit, and every other character of the input is where it was |
| GrubDefaults.IdempotentIffBaudNotNegative | serial-console/internal/serial/serial.go:25-41 | rewriting is idempotent on all texts if and only if the baud rate is not negative |
| GrubDefaults.NegativeBaudStays | serial-console/internal/serial/serial.go:25-41 | the minus sign and digits of a negative baud rate survive the next rewrite of `console=ttyS0` |
| SshdConfig.MatchIsLine | user-manage/internal/users/users.go:46-49 | at a line start the pattern matches exactly the whole line, and exactly when the line names the directive |
| SshdConfig.ScanIsLineMap | user-manage/internal/users/users.go:49-56 | the whole-text replacement is a line-by-line map, and something matches exactly when some line names the directive |
| SshdConfig.ReplaceDirectiveLines | user-manage/internal/users/users.go:45-62 | the result line by line: mapped with a blank line in front, or one line added at the end |
| SshdConfig.RewriteIsExact | user-manage/internal/users/users.go:18-39 | afterwards every line naming a requested directive, commented or not, reads exactly `directive value`, there is one, and all other non-blank lines survive in order |
| SshdConfig.OtherDirectiveKept | user-manage/internal/users/users.go:27-38 | rewriting one directive leaves the lines naming another exactly as they were |
| SshdConfig.SecondRunSettles | user-manage/internal/users/users.go:23-39 | a second run adds at most one leading newline, exactly when one is missing and something is requested, and a third changes nothing |
| SshdConfig.SurroundedIff | user-manage/internal/users/users.go:42-44 | the result holds the new line between two newlines if and only if no line named the directive or some line other than the last did |
| SshdConfig.LastLineStaysOpen | user-manage/internal/users/users.go:42-44 | a directive on a last line without a newline is left without one |
| TarExtract.Extraction.Process | archive2disk/archive/utils.go:22-69 | one entry: directories, symbolic links that give way to what is there, files created or truncated with missing parents made |
| TarExtract.Extraction.MakeLinks | archive2disk/archive/utils.go:72-78 | the link loop is some walk of the remembered names, stopped at the first failure |
| TarExtract.Extraction.ExtractTarDirectory | archive2disk/archive/utils.go:13-81 | the whole extraction is the entry loop and then the link loop in some order of the map |
| TarExtract.PerformIff | archive2disk/archive/utils.go:25-68 | an entry succeeds exactly when what is on the way is a directory and its name is free or of its kind (a symbolic link needs its directory and gives way), and then makes what is missing, stores its data, and changes nothing else |
| TarExtract.UnpackIff | archive2disk/archive/utils.go:16-69 | the entry loop succeeds exactly when each entry is feasible in its turn |
| TarExtract.DeferredNames | archive2disk/archive/utils.go:33-37 | remembered for a name is the target of its last hard link |
| TarExtract.LinkAllIff | archive2disk/archive/utils.go:72-78 | a walk of the links succeeds exactly when each name is free in a directory and each target is no directory of the tree or a link made before |
| TarExtract.ExtractIff | archive2disk/archive/utils.go:13-81 | the extraction succeeds exactly when both hold |
| TarExtract.MissingParentIsMade | archive2disk/archive/utils.go:48-53 | a file alone, one directory down, extracts on an empty tree |
| TarExtract.LinkOrderIsIrrelevant | archive2disk/archive/utils.go:72-78 | without chains the links come about in every order or in none, with the same tree |
| TarExtract.EveryOrderWorksIffNoChains | archive2disk/archive/utils.go:72-78 | links that can be made in some order can be made in every order if and only if no target is the name of a link |
| TarExtract.ChainDependsOnOrder | archive2disk/archive/utils.go:72-78 | two links, one to the other, that one order makes and the other does not |
| TarExtract.SuccessfulExtractionsAgree | archive2disk/archive/utils.go:13-81 | any two orders that both succeed leave the same tree, chains or not |
| TarExtract.ExtractionIgnoresMapOrder | archive2disk/archive/utils.go:13-81 | success, and on success the final tree, do not depend on the order of the map |
| TarExtract.DeferringIsFaithful | archive2disk/archive/utils.go:33-37 | when no later entry of another kind takes a link's name and no link targets a link, an archive that can be extracted in its own order gives, for every order of the map, that very tree, shared inodes included |
| TarExtract.ExtractionShows | archive2disk/archive/utils.go:22-78 | after any success directories are there, a file holds its data unless a later file entry goes to the same inode, symbolic links point where they should unless their name was taken, and every linked name is the inode of its target, chains included |
| TarExtract.FilesHoldTheirData | archive2disk/archive/utils.go:48-65 | with distinct names on a tree that shares no inodes every file holds its data |
| TarExtract.ExtractAgainIff | archive2disk/archive/utils.go:22-78 | extracting any archive again over its own result succeeds if and only if it holds no hard link, and then changes nothing, whatever inodes are shared and names repeated |
| TarExtract.HardLinkBlocksSecondExtraction | archive2disk/archive/utils.go:72-78 | a file and a hard link to it extract once and not again |
| TarExtract.ExtractionKeepsNames | archive2disk/archive/utils.go:13-81 | success or failure keeps the tree sound and never removes a name or points it elsewhere |
| EnsureDir.FileTree.Mkdir | writefile/main.go:174-176 | is only ever called for a free name in an existing directory |
| EnsureDir.FileTree.DirExists | writefile/main.go:119-133 | finds a directory, nothing, or an error when something else is there or on the way |
| EnsureDir.StatMeans | writefile/main.go:119-133 | a look finds what is there, and else whether something on the way is not a directory |
| EnsureDir.JoinCleans | writefile/main.go:151-153 | joining adds names, ignores `""` and `.`, goes up at `..` and stays at the top |
| EnsureDir.FileTree.EnsureDir | writefile/main.go:161-188 | one step: look, make, change the owner; an error leaves what was made |
| EnsureDir.FileTree.RecursiveEnsureDir | writefile/main.go:135-159 | the whole loop over the path's parts, with the early exit and the bad-path error |
| EnsureDir.EnsuredSoFar | writefile/main.go:151-157 | the loop succeeds exactly when every growing join is a directory or can be made and handed over, and has then added exactly the missing ones |
| EnsureDir.EnsureAddsExactlyTheMissing | writefile/main.go:135-188 | the action succeeds exactly when the target is there or all of that holds; it adds exactly the missing joins with the given mode and owner and touches nothing else |
| EnsureDir.FailureLeavesAnInitialRun | writefile/main.go:151-188 | a failure leaves the tree closed, with an initial run of the joins added; the last may still have its first owner, exactly when only the change of owner failed |
| EnsureDir.ExistingIsNeverChanged | writefile/main.go:167-169 | nothing that is there is changed, by success or failure |
| EnsureDir.RepairedIff | writefile/main.go:135-188 | a run after a failed one gives what it alone would have given if and only if the first join that could not be ensured failed to be made and was not left unowned, and the target is not one of the joins before it |
| EnsureDir.AskedForIff | writefile/main.go:161-188 | after a success that had something to add, every join has the given mode and owner if and only if every join already there had |
| EnsureDir.FailedChownStays | writefile/main.go:174-182 | a new directory whose change of owner fails keeps its first owner in a second run that succeeds |
| EnsureDir.SecondRunDoesNothing | writefile/main.go:135-159 | after a success a second run does nothing, for any host and any path |
| Text.SplitJoin | kexec/cmd/grub/grub.go:33-33 | cutting a text at newlines undoes joining lines that contain none |
| Text.FieldsOfJoin | kexec/cmd/grub/grub.go:37-37 | cutting at whitespace undoes joining words with whitespace |
| Text.ValueOfPrint | kexec/cmd/grub/grub.go:46-46 | reading printed octal or decimal digits gives the number back |

## Left out

- Provision.RootIO.CreateVolumeGroup: the `pvscan` and `vgscan` refreshes and the volumes' extra options are not issued, because they change nothing the model speaks about.
- Provision.RootIO.StopRAID: the forced unmount before a stop is left out, because no mounts exist in the storage model.
- Provision.RootIO.Partition: writing, syncing and closing the table is one step that succeeds or, on a disk in use, writes the table without the kernel taking it up; tables that the partition library itself would refuse to write are not modelled.
- Provision.RootIO.CreateRAID: the RAID level and the number of spares that mdadm is given, and the tags of groups and volumes, are validated but not recorded on the host.
- Provision.RootIO.WipeCommand: opening a missing device creates a regular file in the source; the model leaves the host alone. Wiping the backup GPT at the end of a disk is not done by the source either.
- Convergence.PartitionConverges: metadata that uses one disk both whole and with a partition table is excluded, because the step rules do not say which overwrites which; a reboot between runs is not a step.
- MountTree.MountView: mount points are clean absolute paths (no `.`, `..` or doubled slashes), and symbolic links under a mount point are not resolved.
- MountTree.FilterExtras: the library's stable sort is represented by a stable insertion sort; any stable sort by depth gives the same list.
- Fstab.BootShowsTheSame: boot is taken to skip lines that are not six fields, to mount every non-swap entry with ancestors first and to find a filesystem by its label. A swap label or point with a newline in it could read as a line of its own, so such lines are asked to add nothing that mounts (`Fstab.Quiet`).
- GrubDefaults.LastConsoleWins: a TTY holding `$` is excluded, because the replacement text would be expanded; the earlier console is a `ttyS` with digits, because any other token is not found again, and the later one's TTY holds no `se`, with which a serial command could begin in it.
- GrubDefaults.ReplaceIsJoin: the regular-expression engine itself is not modelled; the two patterns here and the one in `SshdConfig` are written out as scanners.
- SshdConfig.RewriteIsExact: values with `$` or a newline are excluded for the same reason; `Match` blocks, keyword case and `=` separators are not looked at by the source.
- TarExtract.Extraction.Process: no symbolic link is followed, paths have no `..`, and permissions and ownership are not recorded, so a file entry whose name is a symbolic link fails here.
- EnsureDir.FileTree.Mkdir: a directory as made is told apart from one handed over, even to the process's own user; the process's umask and symbolic links on the way are not modelled; what the host refuses beyond the tree is a parameter.
- Strings are sequences of characters; byte-level encoding is not modelled.
- Formatting and labelling filesystems, swap, and mounting in `rootio`: command wrappers.
- HTTP downloads, digests, decompression and JSON decoding: library code.
- image2disk, oci2disk, qemuimg2disk, slurp, syslinux: streaming through libraries whose behaviour is not visible here.
- cexec and the chroot's bind mounts: system calls whose outcome the kernel decides.
- grub2disk and the kexec reboot: foreign commands and constant argument lists.
- Users, passwords and authorized keys: thin wrappers around commands.
