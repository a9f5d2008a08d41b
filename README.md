# ZOS_SP virtual disk — a Dafny model

ZOS_SP keeps a FAT-style file system inside one host file. The file holds:

- a boot cluster;
- two copies of an allocation table, one `int32` entry per cluster;
- a data region of 1024-byte clusters.

A directory cluster holds fixed-size records: a 12-byte name, a size, a first cluster and a directory flag. A file's clusters are chained through the table. The shell keeps a session cursor: the current cluster and the current path.

This project models three parts of the repository:

1. **The volume engine** (`file_system.go`):
   - the layout arithmetic;
   - formatting;
   - first-fit allocation;
   - mirrored table writes;
   - the directory-record functions;
   - directory creation;
   - removal with chain freeing;
   - path resolution;
   - chained file reads and writes;
   - the cursor-path editing.
2. **The shell commands** built on the engine (`commands.go`): `cp`, `mv`, `rm`, `rmdir`, `cd`, `info`, `bug` and `check`.
3. **The earlier in-memory prototype** (`main.go`): a flat map of names, a 1024-entry table and 1024 buffers of 512 bytes.

Each part comes in two layers:

- **Values.** `DiskModel`, `CommandModel` and `ProtoModel` hold one function per operation, from the state to the new state and an outcome. The properties are proved about these functions as lemmas.
- **Objects.** `Engine.Volume`, the methods of `Commands`, and `Prototype.FileSystem` do the same work in place:
  - `Engine.Volume` holds the tables as fields, the clusters as a map field, and the cursor;
  - `Prototype.FileSystem` holds the table and the buffers as arrays, and the directory as a map field.

  Each method makes the source's steps in the source's order: its loops, its read-modify-write of a directory cluster, and its chain walks. Each method is proved to reach exactly the state that the value function gives.

Status messages become outcomes, values of `Outcomes.Outcome` (`Pass` or `Fail(error)`), instead of printed text.

Sentinels and constants:

- The table sentinels are FREE = -1, END = -2 and BAD = -3.
  - The engine's free-cluster scan tests the literal -1 (`file_system.go:418`).
  - The prototype defines FREE as -1 and END as -2 (`main.go:15-16`).
  - `structures.go:9-10` says FREE = 0 and END = -1. That contradicts the code that uses the values, so the model follows the code.
  - BAD has no definition in the repository, so a third negative value is used.
- A volume cluster is 1024 bytes, with 4 bytes per table entry and 12 bytes per name (`structures.go:5-7`).
- A directory record is taken to be 21 bytes, so a cluster holds 48 records.

The cluster index `c` of the volume sits at byte offset `data_start + (c - 2*fcc - 1)*1024`, which is `c*1024`. So the model addresses clusters by index and never by byte offset.

## Model

| member | source | states |
|---|---|---|
| Layout.CalculateFS | file_system.go:300-336 | the volume is cut into whole 1024-byte clusters; one table copy needs 4 bytes per cluster and takes the fewest clusters that hold it; table 1 starts at 1024; table 2 and the data region each follow one table length later |
| Layout.OffsetIsIdentity | file_system.go:366-367 | the root cluster is `2*fcc+1` and sits at `data_start`; every cluster's offset is `c*1024`, so distinct clusters never overlap |
| Layout.DataClusterInVolume | file_system.go:366-367 | every cluster from the root up to the cluster count lies inside the data region of the file |
| Layout.FormatGeometry | file_system.go:251-298 | a volume of `mb` mebibytes has `1024*mb` clusters, `4*mb` table clusters per copy, and its root `8*mb+1` inside the volume |
| Records.SlotsFillCluster | file_system.go:676 | the number of record slots is `CLUSTER_SIZE / R`, the most records that fit in a cluster |
| Records.NameOf | file_system.go:503-504 | copying a name into the zeroed 12-byte field keeps its first 12 bytes and pads with NUL |
| Records.TrimLeftShape | file_system.go:645 | trimming on the left removes exactly the leading NULs: what is left is a suffix that does not start with NUL |
| Records.TrimRightShape | file_system.go:645 | trimming on the right removes exactly the trailing NULs: what is left is a prefix that does not end with NUL |
| Records.NameRoundTrip | file_system.go:645 | a NUL-free name of at most 12 bytes is read back unchanged after the field is trimmed of NULs; a longer one comes back cut to 12 |
| Records.NewDirectory | file_system.go:542-625 | a new directory cluster holds `.` then `..`, and zero records in every other slot |
| Records.DotNames | file_system.go:563-592 | the `.` and `..` records answer to those names and are not zero records |
| Records.NewDirectoryIsEmpty | file_system.go:1018-1040 | a freshly made directory has no record other than `.`, `..` and zeros, so it counts as empty |
| Records.FindNamed | file_system.go:1131-1149 | the first record whose trimmed name matches, zero records included; none exactly when no record matches |
| Records.FindLiveNamed | commands.go:695-704 | the first non-zero record with the name; none exactly when every match is a zero record |
| Records.FindDirNamed | commands.go:392-403 | the first record with the directory flag and the name; none exactly when there is none |
| Records.FindZero | file_system.go:349-386 | the first zero slot; none exactly when every slot is taken |
| Records.FindOccupant | file_system.go:1018-1040 | a slot holding a non-zero record other than `.`/`..`; none exactly when the directory is empty |
| Records.Live | file_system.go:815-826 | the records kept by the write-back: only non-zero records, each one taken from the cluster |
| Records.WriteBack | file_system.go:815-826 | the packed write-back replaces a prefix of the cluster and keeps its record count |
| Records.WriteBackOfCompact | file_system.go:744-831 | when the records are already packed, inserting at the first zero slot and writing back packed is the plain slot update |
| Records.WriteBackDuplicates | file_system.go:815-826 | with a hole before the last record, the write-back leaves a stale copy of that record in the tail, because the tail is never zeroed |
| Paths.Split | file_system.go:917 | `strings.Split` by `/`: the components hold no slash and join back to the input |
| Paths.SplitHead | file_system.go:919-927 | the first component is empty exactly when the path is empty or starts with `/`, which selects the root as the start |
| Paths.TrimSlashes | file_system.go:916 | `strings.TrimRight(dest, "/")`: only trailing slashes are removed |
| Paths.TrimKeepsLeadingSlash | file_system.go:916-927 | trimming trailing slashes does not turn an absolute path into a relative one |
| Paths.LastSlash | file_system.go:898-903 | the position of the last `/`, after which no slash follows; none exactly when there is no slash |
| Paths.NextPathKeepsShape | file_system.go:885-910 | the cursor path keeps starting and ending with `/` after any edit |
| Paths.EnterThenLeave | file_system.go:885-910 | appending a name and then going up with `..` gives back the previous path |
| Fat.FirstFree | file_system.go:393-423 | the lowest index whose entry is FREE, counting from 0; none exactly when no entry is FREE |
| Fat.FreeWalk | file_system.go:1043-1080 | every cluster the freeing walk visits is FREE in both copies afterwards, every other entry is unchanged, and the walk starts at the given cluster |
| Fat.FreeWalkKeepsMirror | file_system.go:1043-1080 | freeing keeps two identical tables identical |
| Fat.FreeWalkFreesChain | file_system.go:1043-1080 | on a well-formed chain the walk ends at END having visited exactly the chain |
| Fat.FreeWalkStopsAtSentinel | file_system.go:1043-1062 | a freeing walk from a cluster linked to FREE or BAD frees just that cluster in both copies and stops as failed (where the model departs from the source; see Left out) |
| Fat.ChainFromStopsAtSentinel | commands.go:443-459 | a chain walk from a cluster linked to FREE or BAD lists just that cluster and stops as `Stray` at the sentinel (where the model departs from the source; see Left out) |
| Fat.ChainFrom | commands.go:442-459 | the listed clusters start at the first cluster, lie in the table, follow the table's links and exclude END; the stop is END, an index outside the table, or the step bound |
| Fat.ChainFromListsChain | commands.go:442-459 | a well-formed chain within the step bound is listed in full, ending at END |
| Fat.ClusterCountIsEnoughFuel | commands.go:442-459 | a bound equal to the cluster count lists every well-formed chain in full |
| Fat.BadBelow | commands.go:728-732 | the scan reports only indices below the bound that are BAD in either copy, in strictly ascending order |
| Fat.BadBelowComplete | commands.go:728-732 | every index below the bound that is BAD in either copy is reported |
| Fat.BadClustersComplete | commands.go:728-732 | the whole-table scan reports every BAD index |
| Fat.MarkedClusterReportedOnce | commands.go:713 | after a cluster is marked BAD in both copies, the scan reports it exactly once |
| DiskModel.SlotsAt | file_system.go:654-693 | a directory read returns the slots of the first cluster only, all 48 of them (zeros where nothing was written, and zeros for a cluster holding file bytes, which the source would decode as records) |
| DiskModel.UpdateFatEntry | file_system.go:699-742 | inside the volume the same value is written to both copies at the same index, and a later read of copy 1 returns it; nothing else changes; outside the volume nothing changes and the result is an error |
| DiskModel.WriteDirectoryEntryEffect | file_system.go:338-391 | the record lands in the first zero slot and every other slot, cluster and table entry is unchanged; without a zero slot, or outside the volume, nothing is written and the result is an error |
| DiskModel.FullParentFails | file_system.go:744-831 | with a full parent the update allocates the first FREE cluster, links the parent to it in both copies, and still reports failure |
| DiskModel.ParseStart | file_system.go:916-927 | a path that is empty or starts with `/` is resolved from the root cluster; any other path from the current cluster |
| DiskModel.AbsolutePathIgnoresCursor | file_system.go:919-927 | an absolute path resolves the same whatever the current cluster is |
| DiskModel.ParseStepsLast | file_system.go:940-957 | without `last_entry`, resolving is resolving with it and then descending into the last component, which fails if that component is not found |
| DiskModel.ReadFile | file_system.go:1186-1239 | a read never returns more than the size asked for; a shorter, successful result is a non-empty whole number of clusters |
| DiskModel.ReadFileLinks | file_system.go:1186-1239 | a read longer than one cluster is the cluster's bytes followed by the read from the cluster it links to |
| DiskModel.WriteFile | file_system.go:1241-1315 | the write keeps the table length, the format and the cursor; every cluster it uses is in the volume, the first being the start cluster |
| DiskModel.WriteFileUses | file_system.go:1258-1311 | an empty write changes nothing; a write uses distinct clusters; every one after the start was FREE; the second is the lowest FREE entry once the start is marked END; a completed write uses `ceil(len/1024)` clusters |
| DiskModel.WriteFileFrame | file_system.go:1241-1315 | table entries and clusters the write does not use are unchanged |
| DiskModel.WriteFileKeeps | file_system.go:1241-1315 | an allocated cluster other than the start is never touched by a write |
| DiskModel.WriteFileChain | file_system.go:1258-1311 | a completed write leaves its clusters as a well-formed chain in copy 1, mirrored in copy 2 |
| DiskModel.WriteThenRead | file_system.go:1186-1315 | reading the written size from the start cluster gives back exactly the bytes written |
| DiskModel.WriteThenReadLinked | file_system.go:1186-1315 | the same round trip for a write longer than one cluster: the first cluster's bytes followed by the rest read along the link |
| DiskModel.ReadChainFrame | file_system.go:1186-1239 | a read depends only on the table and on the clusters of the chain |
| DiskModel.WriteThenFree | file_system.go:1043-1080 | freeing from the start cluster of a completed write visits exactly the clusters it used and restores both tables |
| DiskModel.InitialTable | file_system.go:261-278 | a formatted table has one entry per cluster |
| DiskModel.FormattedVolume | file_system.go:251-298 | after format both tables are identical, clusters up to the root are END and the rest FREE, the root is the first FREE cluster at format time, and the root's `..` is itself |
| DiskModel.FormatMakesRoot | file_system.go:425-463 | creating the root directory on the blank tables gives exactly the formatted volume |
| DiskModel.CreateDirectoryRejects | file_system.go:465-481 | `.` and `..`, and a path that does not resolve, leave the volume unchanged; otherwise creation runs in the resolved parent |
| DiskModel.CreateInRejects | file_system.go:484-494 | a leaf name over 12 bytes or one already present among the non-zero records leaves the volume unchanged |
| DiskModel.CreateInMakes | file_system.go:496-540 | on success the new cluster is the first FREE one and is END in both copies. When it differs from the parent, it holds `.` and `..` then zeros, its parent is the given one, and the parent gains the new record through the packed write-back. When it is the parent itself (a record whose first cluster was still FREE), the `.`/`..` pair naming the new cluster is written over the root (`file_system.go:555`), and a non-root parent still gains the record |
| DiskModel.CreateInFullParent | file_system.go:522-533 | with a full parent the creation fails after linking the parent to the would-be cluster, which stays FREE |
| DiskModel.RemoveGuards | file_system.go:980-1013 | `.`, `..` and `/` change nothing, and neither does an absent name; a present name removes its slot |
| DiskModel.RemoveSlotStopsAtSentinel | file_system.go:1043-1080 | removing a file or an empty directory whose first cluster is linked to FREE or BAD frees that cluster in both copies, fails with `VolumeIoError` and keeps the record (where the model departs from the source; see Left out) |
| DiskModel.RemoveFrees | file_system.go:1043-1080 | removal frees exactly the clusters the walk visits, in both copies, and turns only the target slot into a zero record |
| DiskModel.RemoveFreesChain | file_system.go:1018-1080 | an empty directory or a file whose clusters form a well-formed chain is removed, and the walk frees exactly that chain |
| Engine.InitialFat | file_system.go:261-278 | the format loops fill the table: FREE everywhere, then END up to the root |
| Engine.Volume.Format | file_system.go:251-298 | a formatted volume is exactly the formatted value |
| Engine.Volume.FindFreeCluster | file_system.go:393-423 | the scan returns the lowest FREE index of copy 1, and nothing when there is none |
| Engine.Volume.ReadFatEntry | file_system.go:1086-1111 | copy 1's entry inside the volume, an error outside it |
| Engine.Volume.UpdateFatEntry | file_system.go:699-742 | the new state is the mirrored write of the value model |
| Engine.Volume.ReadDirectoryEntries | file_system.go:654-693 | the slots of the given cluster, an error outside the volume |
| Engine.Volume.WriteDirectoryEntry | file_system.go:338-391 | the slot scan and write reach the value model's state |
| Engine.Volume.CheckIfDirectoryExists | file_system.go:627-652 | true exactly when a non-zero record of the parent has the name |
| Engine.Volume.FindDirectoryCluster | file_system.go:1113-1129 | the first cluster of the first matching record, -1 when none |
| Engine.Volume.FindEntry | file_system.go:1131-1149 | the first matching record, an error when none |
| Engine.Volume.GetParentCluster | file_system.go:843-878 | slot 1's first cluster |
| Engine.Volume.SetCurrentCluster | file_system.go:838-841 | only the cursor cluster changes |
| Engine.Volume.SetCurrentPath | file_system.go:885-910 | only the cursor path changes, as `/`, `.`, `..` and a name edit it |
| Engine.Volume.SetCurrentAndParentDirectory | file_system.go:542-625 | the `.`/`..` cluster is written where the source writes it, the root when both clusters coincide |
| Engine.Volume.UpdateParentDirectory | file_system.go:744-831 | the insertion, the packed write-back and the full-parent path reach the value model's state |
| Engine.Volume.PackInto | file_system.go:815-826 | the cluster becomes the packed write-back of the records |
| Engine.Volume.ParsePath | file_system.go:912-976 | the component loop returns what the value-level resolution returns |
| Engine.Volume.FreeChain | file_system.go:1043-1080 | the freeing loop leaves the tables of the freeing walk and reports how it stopped |
| Engine.Volume.RemoveDirectoryEntry | file_system.go:978-1084 | the guards, the emptiness check, the freeing loop and the slot clearing reach the value model's state |
| Engine.Volume.RemoveAt | file_system.go:1015-1084 | removal of a found slot reaches the value model's state |
| Engine.Volume.ReadFileContents | file_system.go:1186-1239 | the read loop returns the value-level read |
| Engine.Volume.WriteFileContents | file_system.go:1241-1315 | the write loop reaches the value-level write's state and outcome |
| Engine.Volume.CreateRootDirectory | file_system.go:425-463 | the root is written and marked as the value model says |
| Engine.Volume.CreateDirectory | file_system.go:465-540 | the checks, allocation, parent update, END mark and `.`/`..` write reach the value model's state |
| CommandModel.CheckForBugs | commands.go:722-735 | every reported index is BAD in a copy, every BAD index is reported, in ascending order |
| CommandModel.CopyFileRejects | commands.go:15-50 | an unresolvable source, a missing source, a source directory, an unresolvable destination or a taken destination name return before any allocation or write |
| CommandModel.CopyIntoMakes | commands.go:53-89 | the new record has the source's size and directory flag and the first FREE cluster, lands in the first zero slot, and reading the source size from it gives back the source contents |
| CommandModel.CopyFileMakes | commands.go:11-97 | a completed copy passed every check and wrote the source contents, read by the source size, from the first FREE cluster under the destination name |
| CommandModel.MoveFileRejects | commands.go:111-148 | a missing source, a source directory, an unresolvable destination, or an existing destination that is not a directory change nothing |
| CommandModel.MoveFromBadPath | commands.go:102-116 | an unresolvable source path is only reported; the lookup then fails and nothing changes |
| CommandModel.MoveFileRenames | commands.go:182-199 | with an absent destination name, the moved record goes into the destination's parent under the destination name, then the source record is removed |
| CommandModel.MoveIntoDirectoryKeepsSourceArgument | commands.go:182-191 | moving into an existing directory names the new record after the whole source argument |
| CommandModel.RemoveFileRejects | commands.go:209-232 | an unresolvable path, a missing record or a zero record change nothing |
| CommandModel.RemoveFileFreesChain | commands.go:209-243 | removing a file with a well-formed chain frees exactly that chain in both copies and zeroes only its slot |
| CommandModel.RemoveDirectoryRefusesNonEmpty | commands.go:251-266 | a directory holding a record other than `.`/`..` is not removed and nothing changes |
| CommandModel.ChangeToRoot | commands.go:344-350 | `cd /` moves the cursor to the root cluster and the path to `/` |
| CommandModel.ChangePathFailureKeepsState | commands.go:405-408 | a failed `cd` leaves the cursor cluster and path unchanged |
| CommandModel.LeadingSlashIsRelative | commands.go:351-355 | a path with a leading `/` is walked from the current cluster, exactly like the same path without it |
| CommandModel.ChangePathOneStep | commands.go:385-413 | one component succeeds exactly when the current cluster has a directory record with that name; the cursor then moves to its first cluster and the path gains the name |
| CommandModel.ChangePathThenBack | commands.go:377-381 | entering a directory whose `..` points back and then `cd ..` restores the cursor and path |
| CommandModel.ChangeUp | commands.go:377-381 | `cd ..` moves to slot 1's cluster and drops the last path component |
| CommandModel.InformationListsChain | commands.go:442-459 | `info` on a record with a well-formed chain lists exactly that chain |
| CommandModel.ChainListingAtSentinel | commands.go:443-459 | the listing of `info` from a cluster linked to FREE or BAD is that cluster and the sentinel, with `VolumeIoError` (where the model departs from the source; see Left out) |
| CommandModel.ChainListingStops | commands.go:442-459 | wherever the chain loop stops (at END, at a value outside the table, or at the step bound), what it printed and its outcome are the listing of copy 1 from the first cluster |
| CommandModel.ListingFollowsTable | commands.go:442-459 | the listing starts at the first cluster, follows copy 1's links, never lists END, and a complete listing is no longer than the table |
| CommandModel.BugTestMarks | commands.go:695-719 | marking sets the found record's first cluster to BAD in both copies, leaves every cluster's contents unchanged, and the scan then reports that cluster once |
| CommandModel.BugTestNotFound | commands.go:707-710 | with no non-zero record of that name nothing changes |
| Commands.CopyInto | commands.go:53-89 | the read, allocation, write and record insertion reach the value model's state |
| Commands.CopyFile | commands.go:11-97 | the command reaches the value model's state and outcome |
| Commands.MoveFile | commands.go:99-207 | the command reaches the value model's state and outcome |
| Commands.RemoveFile | commands.go:209-243 | the command reaches the value model's state and outcome |
| Commands.RemoveDirectory | commands.go:251-266 | the command reaches the value model's state and outcome |
| Commands.Traverse | commands.go:365-409 | the component loop ends where the value-level walk ends, or fails as it does |
| Commands.FindDirectoryRecord | commands.go:392-403 | the scan finds the first directory record with the name |
| Commands.ChangePath | commands.go:338-416 | the cursor cluster and path end as the value model says |
| Commands.PrintInformation | commands.go:423-461 | the clusters printed and the outcome are the value-level listing |
| Commands.ListChain | commands.go:442-459 | the chain loop prints the value-level listing of copy 1 |
| Commands.BugTest | commands.go:679-720 | the command reaches the value model's state and outcome |
| Commands.FindLiveRecord | commands.go:695-704 | the scan finds the first non-zero record with the name |
| Commands.CheckForBugs | commands.go:722-735 | the index loop reports the value-level scan |
| ProtoModel.GoCopy | main.go:105 | `copy` overwrites the first `min(len(dst), len(src))` bytes of the buffer and keeps its length |
| ProtoModel.InCpRejects | main.go:72-86 | a name over 12 bytes or one already present changes nothing; with no FREE cluster at the start nothing changes |
| ProtoModel.InCpSmall | main.go:82-114 | data of at most 512 bytes goes into the lowest FREE cluster, which becomes END, and the entry records its length; empty data still takes one END cluster and writes nothing |
| ProtoModel.InCpSecondClusterOverwritesFirst | main.go:89-107 | for 513 to 1024 bytes the second allocation finds the first cluster still FREE: the file keeps one END cluster, and the second chunk is copied over the first |
| ProtoModel.FreshInCpThenCat | main.go:121-135 | on a fresh system a file of at most one cluster reads back as its bytes followed by the zero rest of the cluster |
| ProtoModel.InCpThenRmRestores | main.go:138-154 | `rm` after a one-cluster `inCp` restores the table and the directory |
| ProtoModel.RmFreesChain | main.go:138-154 | a missing name changes nothing; otherwise exactly the file's well-formed chain becomes FREE and its key is deleted |
| ProtoModel.MoveKeepsCount | main.go:472-490 | a missing source or a taken destination changes nothing; otherwise the destination holds the source's entry, the source key is gone, the other keys are kept, and the number of entries is the same |
| ProtoModel.MakeDirectoryAdds | main.go:453-463 | an existing name changes nothing; otherwise one key is added, whose entry has size 0 and first cluster END |
| ProtoModel.RemoveDirectoryNeverDeletes | main.go:439-451 | a present name is always refused as not empty, because every name is a prefix of itself; in no case does the map change |
| ProtoModel.CopyFileStoresWholeClusters | main.go:492-519 | a missing source or a taken destination changes nothing; otherwise `inCp` stores the whole buffers of the source chain, which is a whole number of clusters |
| Prototype.FileSystem.Init | main.go:39-54 | all 1024 table entries are FREE, the map is empty, and each of the 1024 buffers holds 512 zero bytes |
| Prototype.FileSystem.FindFreeCluster | main.go:57-66 | the scan returns the lowest FREE index, and nothing exactly when there is none |
| Prototype.FileSystem.InCp | main.go:69-118 | the checks, the allocation loop and its copies, the END mark and the new entry reach the value model's state, including a partly changed table when space runs out midway |
| Prototype.FileSystem.ReadChain | main.go:128-132 | the chain loop returns the buffers of the value-level walk |
| Prototype.FileSystem.Cat | main.go:121-135 | the printed bytes are those of the value model |
| Prototype.FileSystem.Rm | main.go:138-154 | the freeing loop and the key deletion reach the value model's state |
| Prototype.FileSystem.MakeDirectory | main.go:453-463 | the map changes as the value model says |
| Prototype.FileSystem.RemoveDirectory | main.go:439-451 | the prefix scan over every key and the deletion reach the value model's state |
| Prototype.FileSystem.MoveFile | main.go:472-490 | the map changes as the value model says |
| Prototype.FileSystem.CopyFile | main.go:492-519 | the chain read and the `inCp` reach the value model's state |

## Left out

- The host file: every open, seek, read and write, and `SaveFileSystem`, `LoadFileSystem`, `SaveFormat`, `LoadFormat`, `PrintFileSystem`, `PrintFormat` and `ReadCluster`. The volume is the `DiskModel.Disk` value with the tables and a map from cluster index to contents. A cluster never written reads as zeros.
- Short reads and EOF handling in `ReadFileContents` (`file_system.go:1209-1218`): these are host behaviour.
- A cluster or table position outside the volume is reported as `VolumeIoError`. Reading or writing a cluster there changes nothing. The source would seek to a negative offset, hit EOF, or grow the host file. The source's table reads and writes are different: at a negative sentinel index they stay inside the file. See the next two lines.
- Fat.FreeWalk: a removal walk stops as failed when a link is FREE (-1) or BAD (-3), after freeing the cluster that holds that link (`Fat.FreeWalkStopsAtSentinel`). The source's freeing loop (`file_system.go:1043-1062`) has no range check. Its `ReadFatEntry` reads the word at `fat1_start + 4*c` (`file_system.go:1085-1089`), so at -1 or -3 it reads a word of the boot cluster, and `UpdateFatEntry` writes FREE into the words just before each table copy. The loop then goes on from whatever cluster that word names (typically cluster 0, which is END). Two kinds of record reach this case. One is a zero-length file: `cp` allocates its cluster but writes no content (`commands.go:60-75`), so the cluster stays FREE. The other is a file whose first cluster `bug` marked BAD (`commands.go:713`). For both, `rm` and `mv` (which frees the source record) and `rmdir` on a BAD-marked directory succeed in the source and clear the record. In the model they fail with `VolumeIoError` and keep the record, with the first cluster already FREE (`DiskModel.RemoveSlotStopsAtSentinel`). The source's writes into the boot cluster and into the words beside the tables are not modelled.
- Fat.ChainFrom: a chain walk that reaches a FREE or BAD link stops there as `Stray`, having listed the cluster that holds it (`Fat.ChainFromStopsAtSentinel`). So `info` lists `[c, -1]` or `[c, -3]` and reports `VolumeIoError` (`CommandModel.ChainListingAtSentinel`). The source's `info` loop (`commands.go:443-459`) prints -1 and then reads the boot-cluster word at that offset, going on from there (for a zero-length file it prints `c -1 0`).
- Engine.Volume.FindFreeCluster: the scan stops at the cluster count. The source goes on reading past the table until the read fails, which can return an index that is not a table entry.
- Engine.Volume.ReadFatEntry: outside the table it reports an error. The source reads whatever bytes lie at that offset.
- Engine.Volume.UpdateFatEntry: outside the table it reports an error and writes nothing. The source writes into the neighbouring region.
- The byte layout of a directory record. Its struct is not part of this model, so a record is an abstract value occupying R = 21 bytes.
- Integer widths: cluster indices, sizes and offsets are unbounded integers, and `int32` wrap-around is not modelled, so the model is faithful only for volumes under 2048 MB. At that size `int32(file_size)` wraps when the format is computed (`file_system.go:326`). The cluster offsets `data_start + (c - 2*fcc - 1) * CLUSTER_SIZE` are also computed in `int32` (`file_system.go:367`, `665`, `1201`, `1260`) and overflow for clusters from 2^21 on, which only volumes over 2048 MB have.
- DiskModel.SlotsAt / DiskModel.BytesAt: a cluster holds either records or bytes. In the source both views are the same 1024 bytes. FindDirectoryCluster does not check the directory flag (`file_system.go:1122-1125`), so a path can descend through a file record, as in `cp a f/b` or `mkdir f/d` with `f` a file. The source then decodes f's bytes as 48 records (`file_system.go:674-685`) and writes the new record at the first slot that reads as zero, so f's bytes before that slot survive. The model reads a byte cluster as 48 zero records, so the record goes into slot 0 and the cluster becomes a record cluster. From then on its bytes read as zeros, so a later `cp f g` copies zeros where the source copies f's bytes.
- Name lengths are counted in characters of a `string`. The source counts bytes, which is the same for ASCII names.
- Commands.ChangePath: requires a non-empty path, because the source indexes `path[0]` and would panic on an empty one.
- Engine.Volume.Format: requires at least one mebibyte. With none, the source indexes an empty table.
- Engine.Volume.Format / DiskModel.Formatted: a formatted volume starts with the path `/`. The source's Format (`file_system.go:251-298`) never assigns the session global `current_path` (`file_system.go:13`). So after `cd a` and then `format`, the source keeps the path `/a/` while the current cluster moves to the new root (`file_system.go:839`). The model starts a fresh session instead.
- The unbounded chain walks are cut off after as many steps as the table has entries, and the cut-off is reported as `CorruptedChain`. This covers `info` (`commands.go:443`), and `cat` and `copyFile` (`main.go:129`, `main.go:509`). Where the source would loop forever on a cyclic chain, the model stops. Every well-formed chain fits the bound (`Fat.ClusterCountIsEnoughFuel`).
- Go run-time panics (an index outside an array in `main.go`) are reported as `IndexOutOfRange`. Text printed before the panic is not modelled.
- All printed text is replaced by outcomes. ProtoModel.MoveFile and ProtoModel.CopyFile report a taken destination as `AlreadyExists`, where the source prints "PATH NOT FOUND".
- `MakeDirectory` in `commands.go:245-249` only calls `CreateDirectory` and then prints OK whatever happened, so it has no model of its own.
- The CLI layer:
  - `Incp`, `Outcp`, `LoadFile`, `ExecuteCommand`, `PrintHelp`, `PrintDirectoryContents`, `PrintFileContents`, `PrintCurrentPath` and `FormatFileCmd` in `commands.go`;
  - the REPL of `main()`, `printHelp`, `formatFile`, `loadFile`, `printDirectoryContents` and `removeFile` in `main.go`.

  These are host file access, output or dispatch. `removeFile` only calls `rm`.
- The prototype's map operations work on a package-level `fs` pointer that `main()` never sets (`main.go:157`, `main.go:163`), so they would dereference nil. The model runs them as methods of `Prototype.FileSystem` on its own state.
- `help_funcs.go` (I/O wrappers and `Min`) and `structures.go` (declarations only; its conflicting sentinels and duplicate types are ignored).
- Concurrency: the source has none.
