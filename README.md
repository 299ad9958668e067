# backup-daily in Dafny

A model of the core of `backup-daily`, a set of Python scripts that back up
ZFS datasets (and, in a second variant, BTRFS subvolumes) as compressed
snapshot streams. Each new backup is incremental against the newest earlier
artifact that is still usable. Each incremental artifact gets a `.txt`
sidecar that names its base, and restore follows those sidecars back to a
full backup and replays the chain oldest first.

The model covers:

- **Artifact naming** (`naming.dfy`, `backup.dfy`, `backup_zfs_btrfs.dfy`):
  - the volume title (`/` becomes `--`) and the snapshot tag
    `{name}@{workname}_{date}`;
  - the full and incremental file names, the incremental one built by the
    `replace` the scripts use, as written (see Findings);
  - the `.doing.txt` marker and the `.incremental.txt` sidecar.
- **The chain resolver** `from_tag_incremental` (`resolver.dfy`,
  `backup.dfy`, `backup_zfs_btrfs.dfy`):
  - `glob` is a scan over the set of existing paths;
  - the in-place sorts are selection sorts on an `array`;
  - the loop with its early returns is a method proved equal to a
    specification function;
  - snapshot lookups go to an oracle `run: seq<string> -> Captured`. It
    stands for `subprocess.check_output`: it either raises or prints text.
- **`get_snapshot_data`, `get_snapshot` and the row filter of `zfs_list`**
  (`backup.py`).
- **The send step, `backup` and `do_the_job`** (`backupjob.dfy`):
  - a class `Host` holds the set of existing files, the directories, the
    text of the files the job wrote, and the trace of commands started;
  - its methods update these step by step, as the script does;
  - each method is proved equal to a function of the old state.
- **Restore** (`restore.dfy`): `find_previous_backup`,
  `restore_recursively` and `main` are pure functions. Their result is the sequence of
  log lines and `bash -c` commands restore produces.
- **Round trips between writer and reader** (`roundtrips.dfy`): the sidecar
  the send step writes is the one restore reads. Restore's parent of the new
  artifact is the base the resolver chose. Each incremental send lengthens
  the restore chain by exactly one artifact.

Inputs the scripts read from the world are parameters:
- the clock (`datetime.now()`) is a `DateTime`;
- the module globals `path`, `workname`, `test`, `filesystem` and `destiny`
  are plain values;
- the files restore reads are a map from path to content.

Commands the scripts start are recorded as `Run(argv)` effects and never
interpreted. The incremental pipeline is kept exactly as written, including
its `awk '{print 2}'`, which tells `pv` a size of two bytes.

In these points the model follows the code:
- **Marker removal.** The marker is removed after the transfer whatever its
  exit status, not only on success.
- **Restore errors.** Restore never reads a receive's exit status, never
  checks that a parent exists, and never detects a cycle.
- **Sidecar content.** The sidecar holds the base's full path, not its file
  name. Restore keeps only the base name.
- **Snapshot failures.** `take_snapshot` in `backup.py` always reports
  success.
- **The tag the resolver of `backup.py` returns.** It is the first word of
  the `zfs list` output, not the derived `{name}@{date}`. The resolver of
  `backup_zfs_btrfs.py` returns the derived tag.

## Model

| member | source | states |
|---|---|---|
| Naming.Title | opt/backup-daily/backup.py:30 | the title contains no `/` |
| Naming.TitleOfPlainName | opt/backup-daily/backup.py:30 | a name without `/` is its own title |
| Naming.TitleOfChild | opt/backup-daily/backup.py:30 | the title of `parent/child` is the parent, `--`, then the child's title |
| Naming.FormattedDate | opt/backup-daily/backup.py:31 | the formatted date is the work name followed by 21 characters of date stamp |
| Naming.FormattedDateAddsNoSeparator | opt/backup-daily/backup.py:31 | the stamp adds only digits, `-`, `_` and `T`, so never a `.`, `/` or `@` |
| Naming.StampOrder | opt/backup-daily/backup.py:31 | a strictly later time gives a strictly larger stamp in Python's string order |
| Naming.LaterBackupSortsHigher | opt/backup-daily/backup.py:31-32 | two artifact names of one volume compare as their times do, so the newest comes first after the reverse sort |
| Backup.FileName | opt/backup-daily/backup.py:32 | the full name starts with `{title}@` and ends with `.zfs.gz`; `part_type` plays no part in it |
| Backup.IncrementalNameAsWritten | opt/backup-daily/backup.py:33 | the name built as written is never shorter than the full name; `backup_zfs_btrfs.py` builds its incremental name with the same replace |
| Backup.AsWrittenAgrees | opt/backup-daily/backup.py:33 | when `zfs` occurs in neither the title nor the date, the name as written is the intended incremental name |
| Backup.AsWrittenEscapesGlob | opt/backup-daily/backup.py:33 | for a title that begins with `zfs`, the name as written is not matched by the resolver's glob `{title}*.zfs.gz` |
| Backup.IncrementalName | opt/backup-daily/backup.py:33 | the intended incremental name starts with `{title}@` and ends with `.incremental.zfs.gz` |
| Backup.NamesMatchGlob | opt/backup-daily/backup.py:9 | the glob `{title}*.zfs.gz` matches both the full and the intended incremental name |
| Backup.TagOf | opt/backup-daily/backup.py:15 | a candidate yields a tag exactly when its path contains `@`; otherwise the indexing raises |
| Backup.TagOfArtifact | opt/backup-daily/backup.py:15 | the tag read back from a full or incremental artifact name is the date it was named with |
| Backup.Judgement | opt/backup-daily/backup.py:15-26 | the verdict on a candidate raises exactly when its path has no `@`, stops exactly when the marker of its tag exists, and uses it only when the snapshot lookup printed |
| Backup.MarkerOfFull | opt/backup-daily/backup.py:84 | the marker of `{stem}.zfs.gz` is `{stem}.doing.txt` |
| Backup.MarkerOfIncremental | opt/backup-daily/backup.py:84 | the marker of `{stem}.incremental.zfs.gz` is `{stem}.doing.txt`, the same as the full artifact's |
| Backup.SidecarOfIncremental | opt/backup-daily/backup.py:85 | the sidecar of `{stem}.incremental.zfs.gz` is `{stem}.incremental.txt` |
| Backup.ArtifactPaths | opt/backup-daily/backup.py:83-84 | an artifact's path is the directory, the title, `@`, the date and the extension; its marker is the path the resolver tests at line 17 |
| Backup.WrittenMarkerStops | opt/backup-daily/backup.py:15-18 | when the marker the send step writes for an artifact exists, the resolver's verdict on that artifact is Stop |
| Backup.FromTagIncremental | opt/backup-daily/backup.py:8-27 | glob, sort, reverse and the loop give exactly the resolution of the descending candidates |
| Backup.NoArtifactNoBase | opt/backup-daily/backup.py:9-11 | with no file matching `{title}*.{part_type}.gz` the answer is the empty tag and file name |
| Backup.ResolvedBase | opt/backup-daily/backup.py:14-24 | a non-empty answer is a candidate: it has a tag and no marker, its lookup printed a word, and that first word is the answer's tag; every larger candidate was skipped |
| Backup.MarkerStopsSearch | opt/backup-daily/backup.py:17-18 | a marker on the first candidate not skipped makes the answer empty, so older candidates are never tried |
| Backup.GetSnapshotData | opt/backup-daily/backup.py:29-43 | the method returns the record the specification function defines (its incremental name is the replace as written), or the resolver's exception |
| Backup.SnapshotDataNames | opt/backup-daily/backup.py:29-43 | the record holds a slash-free title, the tag `{name}@{date}`, the full name, the incremental name built by the replace of line 33 as written (always filled in, and `{title}@{date}.incremental.zfs.gz` when `zfs` begins nowhere in `{title}@{date}`), the directory under `path`, and the resolver's answer |
| Backup.SnapshotDataEscapesGlob | opt/backup-daily/backup.py:9-33 | for a volume whose title contains `zfs` anywhere, the incremental name in the record is not matched by the resolver's glob `{title}*.zfs.gz`, because the first `zfs` of the title is rewritten |
| Backup.SnapshotDataFails | opt/backup-daily/backup.py:35 | `get_snapshot_data` fails exactly when the resolver raises |
| Backup.GetSnapshot | opt/backup-daily/backup.py:45-54 | the volume record takes the row's three fields and the snapshot data, or fails with it |
| Backup.VolumeCarriesSnapshot | opt/backup-daily/backup.py:45-54 | `get_snapshot` fails exactly when the resolver raises, with its exception; otherwise the volume keeps the row's name, mount point and mounted flag, and its snapshot is tagged `{name}@{date}`, titled from the name, and based on the resolver's answer |
| Backup.Selected | opt/backup-daily/backup.py:60 | every selected row has exactly three fields, and there are no more rows than lines |
| Backup.SelectedMembership | opt/backup-daily/backup.py:60-65 | a row is selected if and only if some line splits into it and it passes the filesystem or volume filter |
| Backup.SelectedAppend | opt/backup-daily/backup.py:60-61 | filtering distributes over concatenation, so the listing's order is kept |
| Backup.HeaderDropped | opt/backup-daily/backup.py:61 | the header row is dropped from both listings |
| Backup.FiltersIgnoreCase | opt/backup-daily/backup.py:61-65 | the filesystem filter (`legacy`, `tmp`, `yes`) and the volume filter (`swap`, `name`) keep a row exactly when they keep its lower-cased fields |
| Backup.GatherOk | opt/backup-daily/backup.py:61 | a comprehension succeeds if and only if every call does, and then holds each call's value at its position |
| Backup.GatherErr | opt/backup-daily/backup.py:61 | a failed comprehension raises the exception of its first failing call |
| Backup.GetSnapshots | opt/backup-daily/backup.py:65 | the loop over rows returns the gathered results of `get_snapshot` on each row, in order |
| Backup.ZfsList | opt/backup-daily/backup.py:56-66 | `zfs_list()`, with its command vector changed in place, returns the listing function's value |
| Backup.ListingFollowsRows | opt/backup-daily/backup.py:60-66 | when both commands print, the result is `get_snapshot` over the kept filesystem rows and then the kept volume rows, stopping at the first failure |
| Backup.ListingNeedsBothCommands | opt/backup-daily/backup.py:60-64 | if either listing command raises, `zfs_list()` raises |
| Resolver.ListCandidates | opt/backup-daily/backup.py:9 | the array holds each path the glob matches exactly once |
| Resolver.SortAscending | opt/backup-daily/backup.py:12 | `files.sort()` leaves the array ascending and a permutation of what it held |
| Resolver.Reverse | opt/backup-daily/backup.py:13 | `files.reverse()` leaves the array reversed |
| Resolver.ReversedAscending | opt/backup-daily/backup.py:12-13 | an ascending list reversed is descending and has the same elements |
| Resolver.SortDescending | opt/backup-daily/backup_zfs_btrfs.py:23 | `files.sort(reverse=True)` leaves the array descending and a permutation of what it held |
| Resolver.OrderedSorts | opt/backup-daily/backup.py:12-13 | the reference order of the candidates is descending and holds each candidate once |
| Resolver.DescendingUnique | opt/backup-daily/backup.py:12-13 | two descending arrangements of the same strings are equal |
| Resolver.FirstUsable | opt/backup-daily/backup.py:14-27 | the loop returns the scan's answer: the first non-skipped verdict, else the empty result |
| Resolver.ScanIsFirstDecision | opt/backup-daily/backup.py:14-27 | the answer is that of the first candidate whose verdict is not Skip |
| Resolver.ScanStopsAtDecision | opt/backup-daily/backup.py:18 | candidates after a deciding one are never examined |
| Resolver.ScanChoice | opt/backup-daily/backup.py:24 | a chosen candidate comes after only skipped candidates, and its verdict was Use with the answer's tag |
| Resolver.NoCandidatesNoBase | opt/backup-daily/backup.py:10-11 | no candidate gives the empty result |
| Resolver.DecidedBy | opt/backup-daily/backup.py:14-24 | a deciding candidate with every larger candidate skipped determines the answer |
| Resolver.ResolvedCandidate | opt/backup-daily/backup.py:14-24 | a non-empty answer names a candidate with a Use verdict, and every larger candidate was skipped |
| Resolver.OrderedStartsWithMax | opt/backup-daily/backup.py:12-14 | the largest candidate is examined first |
| BackupJob.Host.TakeSnapshot | opt/backup-daily/backup.py:68-77 | starts `zfs snapshot {tag}` and always answers true |
| BackupJob.Host.SendFile | opt/backup-daily/backup.py:79-96 | the new state is the send-step function of the old one |
| BackupJob.Host.Backup | opt/backup-daily/backup.py:98-105 | the new state adds the directory, then the send: incremental exactly when the base tag is non-empty |
| BackupJob.Host.DoTheJob | opt/backup-daily/backup.py:107-111 | the new state is the job function applied over the volumes in order |
| BackupJob.SendPipelines | opt/backup-daily/backup.py:91-92 | the full pipeline begins with `zfs send {tag}`, the incremental one with `zfs send -i {base} {tag}`, and both end with the artifact's path |
| BackupJob.SendLeavesArtifact | opt/backup-daily/backup.py:84-96 | after the send the marker is gone and the artifact is present; the sidecar is present exactly for an incremental send; no other file appears or vanishes, whatever the transfer's outcome |
| BackupJob.SidecarHoldsBase | opt/backup-daily/backup.py:88-90 | an incremental send leaves `{stem}.incremental.txt` holding the base's file name |
| BackupJob.UnfinishedSendStops | opt/backup-daily/backup.py:86-94 | while the transfer runs, the marker exists and the resolver's verdict on the artifact being written is Stop |
| BackupJob.BackupChoosesByTag | opt/backup-daily/backup.py:98-105 | `backup` starts exactly one command, the incremental pipeline if and only if the base tag is non-empty, and adds the directory |
| BackupJob.JobConcat | opt/backup-daily/backup.py:107-111 | running the job over `a` and then over `b` is running it over `a + b` |
| BackupJob.JobTrace | opt/backup-daily/backup.py:107-111 | the job appends two commands per volume, in volume order: the snapshot and then that volume's send |
| BackupZfsBtrfs.Extension | opt/backup-daily/backup_zfs_btrfs.py:19 | the extension is non-empty, does not begin with a dot, and holds neither `@` nor `/` |
| BackupZfsBtrfs.TagIn | opt/backup-daily/backup_zfs_btrfs.py:25 | a candidate yields a tag exactly when its path contains `@` |
| BackupZfsBtrfs.Judgement | opt/backup-daily/backup_zfs_btrfs.py:25-39 | the verdict raises exactly when the path has no `@`, stops exactly when the marker of its tag exists, and uses only `{name}@{tag}`, and only for `zfs` or `btrfs` |
| BackupZfsBtrfs.FromTagIncremental | opt/backup-daily/backup_zfs_btrfs.py:18-40 | glob, the reverse sort and the loop give exactly the resolution of the descending candidates |
| BackupZfsBtrfs.NoArtifactNoBase | opt/backup-daily/backup_zfs_btrfs.py:20-22 | no matching file gives the empty result |
| BackupZfsBtrfs.ResolvedBase | opt/backup-daily/backup_zfs_btrfs.py:23-37 | a non-empty answer is an unmarked candidate with tag `{name}@{date}`, live by the type's rule (a non-empty `zfs list`, or the tag inside the btrfs subvolume list); the type is zfs or btrfs; larger candidates were skipped |
| BackupZfsBtrfs.MarkerStopsSearch | opt/backup-daily/backup_zfs_btrfs.py:27-28 | a marker on the first candidate not skipped gives the empty result |
| BackupZfsBtrfs.UnknownTypeNoBase | opt/backup-daily/backup_zfs_btrfs.py:29-39 | on any other filesystem type no base is ever found, because the unbound command is caught and skipped |
| BackupZfsBtrfs.GetSnapshotData | opt/backup-daily/backup_zfs_btrfs.py:43-58 | the method returns the record the specification function defines (its incremental name is the replace as written), or the resolver's exception |
| BackupZfsBtrfs.IncrementalNameIffBase | opt/backup-daily/backup_zfs_btrfs.py:46-55 | the incremental name is non-empty if and only if the resolver's tag is; the full name is `{title}@{date}.{extension}`; the incremental name is the replace of line 48 as written, and `{title}@{date}.incremental.{extension}` when the extension begins nowhere in `{title}@{date}` |
| BackupZfsBtrfs.SnapshotDataEscapesGlob | opt/backup-daily/backup_zfs_btrfs.py:20-48 | for a title that contains the extension anywhere, the record's incremental name, when there is a base, is not matched by the resolver's glob |
| BackupZfsBtrfs.TagRoundTrip | opt/backup-daily/backup_zfs_btrfs.py:25-26 | for an artifact named by `get_snapshot_data`, the tag the resolver derives is the date, so `{name}@{tag}` is the record's tag |
| BackupZfsBtrfs.AsWrittenEscapesGlob | opt/backup-daily/backup_zfs_btrfs.py:48 | for a title that begins with the extension, the name as written is not matched by the glob `{title}*.{extension}` |
| BackupZfsBtrfs.AsWrittenAgrees | opt/backup-daily/backup_zfs_btrfs.py:48 | when the extension begins nowhere in `{title}@{date}`, the name as written is the intended incremental name |
| BackupZfsBtrfs.NamesMatchGlob | opt/backup-daily/backup_zfs_btrfs.py:20 | the glob matches both the full and the intended incremental name |
| OsPath.Basename | opt/backup-daily/restore.py:21 | a base name holds no slash |
| Restore.FindPreviousBackup | opt/backup-daily/restore.py:15-22 | there is a previous backup exactly when the sidecar exists, and it is a name without a slash |
| Restore.ParentOf | opt/backup-daily/restore.py:25-27 | restore recurses unless the previous backup is missing or empty, and the file it recurses on has the previous backup as its base name |
| Restore.RestoreRecursively | opt/backup-daily/restore.py:24-33 | the first thing restore does is log the oldest artifact of the chain, the one without a sidecar |
| Restore.ReceiveNamesArtifact | opt/backup-daily/restore.py:30-32 | the receive runs `bash -c` on a pipeline that decompresses the artifact; its length depends on the filesystem, and two artifacts share a receive command only when they are the same artifact |
| Restore.SessionEffects | opt/backup-daily/restore.py:35-37 | `main()` logs `Restoring to "{destiny}"` first and then exactly the lines and receives of restoring the given file along its chain |
| Restore.NoSidecarIsRoot | opt/backup-daily/restore.py:18-22 | an artifact without a sidecar has no previous backup and is a chain of its own |
| Restore.ParentInSameDirectory | opt/backup-daily/restore.py:20-27 | a parent is the non-empty, slash-free base name of the sidecar's content, joined onto the child's directory |
| Restore.SidecarPathOfArtifact | opt/backup-daily/restore.py:17 | the sidecar of `{stem}.zfs.gz` or `{stem}.btrfs.gz` is `{stem}.txt` |
| Restore.ParentIsSibling | opt/backup-daily/restore.py:17-27 | a sidecar holding a path resolves to the file of that base name in the child's own directory |
| Restore.ChainLinks | opt/backup-daily/restore.py:24-27 | the chain ends at the target, starts at an artifact without a parent, has each artifact preceded by its parent, and is at most the bound plus one long |
| Restore.ChainUnique | opt/backup-daily/restore.py:24-27 | any such linked sequence is the chain restore walks, and the target is rooted within exactly its length minus one hops |
| Restore.BoundIrrelevant | opt/backup-daily/restore.py:24-27 | the hop bound never changes the chain or the effects |
| Restore.CycleNeverRooted | opt/backup-daily/restore.py:25-27 | artifacts whose sidecars form a cycle are rooted within no bound, since the recursion does not end |
| Restore.RestoreReplaysChain | opt/backup-daily/restore.py:24-33 | `restore_recursively` performs the steps of its chain, oldest first |
| Restore.ReplayLogs | opt/backup-daily/restore.py:28 | the i-th log line is `Restoring "{basename}"...` for the i-th artifact of the chain |
| Restore.ReplayQuiet | opt/backup-daily/restore.py:29 | test mode starts no command |
| Restore.ReplayReceives | opt/backup-daily/restore.py:29-33 | outside test mode, the i-th command is the receive of the i-th artifact: `zfs receive -F` for zfs, `btrfs receive` otherwise |
| Restore.RestoreEffects | opt/backup-daily/restore.py:24-33 | restore logs each chain artifact in order and runs one receive per artifact outside test mode, none in it |
| Restore.TestModeSameLogs | opt/backup-daily/restore.py:28-29 | test mode logs the same lines as a real restore and runs nothing |
| RoundTrips.SidecarNamesAgree | opt/backup-daily/restore.py:17 | the sidecar restore reads for an incremental artifact is the one the send step writes |
| RoundTrips.RestoreFindsBase | opt/backup-daily/restore.py:15-27 | after an incremental send, restore's parent of the new artifact is the base the resolver chose |
| RoundTrips.SendKeepsOtherText | opt/backup-daily/backup.py:86-96 | the send changes no file's text except those of its marker, its sidecar and its artifact |
| RoundTrips.ChainExtends | opt/backup-daily/restore.py:24-27 | after an incremental send, the new artifact's chain is the base's chain followed by the new artifact |

## Left out

- Reading the filesystem type from `df` (`get_fs_type`) is not modelled. The type is a parameter. It is an external command whose output parsing plays no part in the chain logic.
- `mount_shares`, `umount_shares`, `fs_list` and the `__main__` blocks are not modelled. As written they call `fs_list` (in `backup.py`) and `zfs_list`, `mount_shares`, `do_the_job` and `umount_shares` (in `backup_zfs_btrfs.py`), none of which is defined where it is called.
- `take_snapshot` in `backup_zfs_btrfs.py` is left out. That file has no send step or job loop that would call it.
- `time.sleep`, `print` and `logging` in `backup.py`, and `argparse`, are not modelled. They produce only output or configuration; the log lines of `restore.py`'s `restore_recursively` and `main` are modelled.
- Naming.FormattedDate: treats the work name as literal text, while `strftime` would interpret a `%` in it as a directive.
- Artifact content is not modelled. An artifact is a path that exists; the bytes the pipelines stream are never modelled.
- Failures of `open`, `write`, `os.remove` and `os.makedirs` are not modelled. The model assumes every file operation succeeds.
- `Popen` failing to start is not modelled. The command is always started.
- Concurrency, other processes writing the destination, and interrupting the job are not modelled. `BackupJob.UnfinishedSendStops` states the state while the transfer runs; no state is modelled for a crash at that point.
- `glob` treats `*`, `?` and `[` as wildcards in every part of its pattern: the title, the directory built from `path`, and the tag in the marker test (`backup.py:17`, `backup_zfs_btrfs.py:27`). The model matches the directory and title as a literal prefix and tests the marker path by literal membership, which agree with `glob` only for paths and dataset names without those characters.
- `glob` skips hidden files, and the model does so only as far as a leading dot goes. Directory entries that are not regular files are not distinguished.
- Python's recursion limit is not modelled. Restore is modelled for chains that reach a root within a hop bound; `Restore.CycleNeverRooted` covers the chains that never do.
- `os.path.isfile` is not modelled separately. It is membership in the map of readable files, so a sidecar that exists but cannot be read is not modelled.
- The `part_type` passed to the `backup.py` resolver is a parameter. `zfs_list` always passes `zfs`, and the properties about written names assume it.
- RoundTrips.ChainExtends: assumes the send does not overwrite a sidecar along the base's chain, because the source never checks this.
- RoundTrips.RestoreFindsBase: assumes the base path has no white space at either end, because `strip()` would otherwise change it.

## Findings

| source | as written | input that shows it | evidently intended | confidence | as-written member | corrected member |
|---|---|---|---|---|---|---|
| opt/backup-daily/backup.py:33 | `file_name.replace(part_type, "incremental." + part_type)` rewrites every `zfs` in the name, those in the title and the work name included | a dataset `zfsdata`: the incremental name becomes `incremental.zfsdata@...incremental.zfs.gz`, which the next run's glob `zfsdata*.zfs.gz` never lists, so every later run bases its backup on the newest full artifact | put `incremental.` in front of the extension only: `{title}@{date}.incremental.zfs.gz` | high; not executed | Backup.SnapshotDataEscapesGlob | Backup.NamesMatchGlob |
| opt/backup-daily/backup_zfs_btrfs.py:48 | `file_name.replace(extension, "incremental." + extension)` rewrites every occurrence of `zfs.gz` or `btrfs.gz`, the title included | a subvolume titled `btrfs.gz-old` on btrfs: the incremental name begins `incremental.btrfs.gz-old@`, outside the glob `btrfs.gz-old*.btrfs.gz` | `{title}@{date}.incremental.{extension}` | low, titles beginning with the extension are unusual; not executed | BackupZfsBtrfs.SnapshotDataEscapesGlob | BackupZfsBtrfs.NamesMatchGlob |

The records `get_snapshot_data` builds keep the name as written, so the model
of each script does what the script does. The intended name is
`Backup.IncrementalName` and `BackupZfsBtrfs.IncrementalName`; the
`AsWrittenAgrees` lemmas show that the record holds it whenever the
extension begins nowhere in `{title}@{date}`. The send and restore round
trips are stated for records whose incremental name has that form.
