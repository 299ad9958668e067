/** The sending half of `backup.py`: `take_snapshot`, the send step
    `zfs_send_file_using_bash`, `backup` and the loop `do_the_job`. They act on
    the backup host step by step: files appear in and vanish from the volume's
    directory, and commands are started. */
module BackupJob {
  import opened Common
  import opened Text
  import opened OsPath
  import opened Resolver
  import opened Naming
  import opened Backup

  /** What the job changes on the host: the paths of the files that exist,
      the directories, the text of the files this process wrote, and the
      commands it started, in order. */
  datatype Disk = Disk(files: set<string>, dirs: set<string>, text: map<string, string>, trace: seq<Effect>)

  /** What the send step writes into its marker. */
  const MARKER_TEXT := "writing file"

  /** `['zfs', 'snapshot', snapshot_tag]`. */
  function SnapshotCommand(tag: string): seq<string>
  {
    ["zfs", "snapshot", tag]
  }

  /** The shell pipeline of a full send: the size hint for `pv` is the second
      field of the last line of the dry run. */
  function FullPipeline(tag: string, dest: string): string
  {
    "zfs send " + tag + " | pv -B 512M -s $(zfs send -nP " + tag
      + " | tail -n1 | awk '{print $2}') | pigz -c > " + dest
  }

  /** The shell pipeline of an incremental send from `base`; its `awk`
      program prints the constant `2`, so `pv` is told a size of two bytes. */
  function IncrementalPipeline(base: string, tag: string, dest: string): string
  {
    "zfs send -i " + base + " " + tag + " | pv -B 512M -s $(zfs send -i " + base + " -nP " + tag
      + " | awk '{print 2}' | tail -n1) | pigz -c > " + dest
  }

  /** Both pipelines begin with the `zfs send` of the snapshot, the
      incremental one from the base, and end by writing into the artifact. */
  lemma SendPipelines(base: string, tag: string, dest: string)
    ensures StartsWith(FullPipeline(tag, dest), "zfs send " + tag)
    ensures EndsWith(FullPipeline(tag, dest), dest)
    ensures StartsWith(IncrementalPipeline(base, tag, dest), "zfs send -i " + base + " " + tag)
    ensures EndsWith(IncrementalPipeline(base, tag, dest), dest)
  {
    var a := "zfs send " + tag;
    var l1 := " | pv -B 512M -s $(zfs send -nP ";
    var l2 := " | tail -n1 | awk '{print $2}') | pigz -c > ";
    assert FullPipeline(tag, dest) == a + l1 + tag + l2 + dest;
    Prefixes(a, l1, tag, l2, dest);
    var i := "zfs send -i " + base + " " + tag;
    var m1 := " | pv -B 512M -s $(zfs send -i ";
    var m2 := " -nP ";
    var m3 := " | awk '{print 2}' | tail -n1) | pigz -c > ";
    assert IncrementalPipeline(base, tag, dest) == i + m1 + base + m2 + tag + m3 + dest;
    Prefixes(i + m1 + base, m2, tag, m3, dest);
    Affixes(i, m1 + base, []);
    assert i + m1 + base + [] == i + m1 + base;
  }

  /** `a` begins and `e` ends the concatenation of `a` through `e`. */
  lemma Prefixes(a: string, b: string, c: string, d: string, e: string)
    ensures StartsWith(a + b + c + d + e, a) && EndsWith(a + b + c + d + e, e)
  {
    var s := a + b + c + d + e;
    assert s[..|a|] == a;
    assert s[|s| - |e|..] == e;
  }

  lemma Affixes(a: string, b: string, c: string)
    ensures StartsWith(a + b + c, a) && EndsWith(a + b + c, c)
  {
    var s := a + b + c;
    assert s[..|a|] == a;
    assert s[|s| - |c|..] == c;
  }

  /** `dest_file`: the artifact's path in the volume's directory. */
  function DestOf(s: SnapshotData, incremental: bool): string
  {
    Join(s.directory, if incremental then s.fileNameIncremental else s.fileName)
  }

  /** The command `bash -c` runs for the send. */
  function SendCommand(s: SnapshotData, incremental: bool): seq<string>
  {
    var dest := DestOf(s, incremental);
    ["bash", "-c", if incremental then IncrementalPipeline(s.fromTagIncremental.tag, s.tag, dest)
                   else FullPipeline(s.tag, dest)]
  }

  /** The host while the pipeline runs: the marker written, the sidecar naming
      the base if incremental, the command started and the artifact created
      by the shell's redirection. */
  function DuringSend(d: Disk, s: SnapshotData, incremental: bool): Disk
  {
    var dest := DestOf(s, incremental);
    var marker := MarkerOf(dest);
    var sidecar := SidecarOf(dest);
    var d1 := d.(files := d.files + {marker}, text := d.text[marker := MARKER_TEXT]);
    var d2 := if incremental then d1.(files := d1.files + {sidecar},
                                      text := d1.text[sidecar := s.fromTagIncremental.fileName])
              else d1;
    d2.(files := d2.files + {dest}, text := d2.text - {dest}, trace := d2.trace + [Run(SendCommand(s, incremental))])
  }

  /** The host once the pipeline has ended, however it ended: the marker is
      removed if it exists. */
  function AfterSend(d: Disk, s: SnapshotData, incremental: bool): Disk
  {
    var during := DuringSend(d, s, incremental);
    var marker := MarkerOf(DestOf(s, incremental));
    if marker in during.files then during.(files := during.files - {marker}, text := during.text - {marker})
    else during
  }

  /** `take_snapshot(i)`: the snapshot command is started. */
  function SnapshotTaken(d: Disk, v: Volume): Disk
  {
    d.(trace := d.trace + [Run(SnapshotCommand(v.snapshot.tag))])
  }

  /** `backup(i)`: make the directory, then send incrementally exactly when the
      resolver found a base. */
  function BackupOf(d: Disk, v: Volume): Disk
  {
    var d1 := d.(dirs := d.dirs + {v.snapshot.directory});
    AfterSend(d1, v.snapshot, v.snapshot.fromTagIncremental.tag != "")
  }

  /** `do_the_job(zfs_list)` over the volumes, in order: snapshot, then back up. */
  function JobOf(d: Disk, vs: seq<Volume>): Disk
  {
    if vs == [] then d
    else
      var before := JobOf(d, vs[..|vs| - 1]);
      BackupOf(SnapshotTaken(before, vs[|vs| - 1]), vs[|vs| - 1])
  }

  /** The host the scripts run on. */
  class Host {
    var files: set<string>
    var dirs: set<string>
    var text: map<string, string>
    var trace: seq<Effect>

    function State(): Disk
      reads this
    {
      Disk(files, dirs, text, trace)
    }

    /** A host with the given files and directories, before the job. */
    constructor (existing: set<string>, directories: set<string>)
      ensures State() == Disk(existing, directories, map[], [])
    {
      files, dirs, text, trace := existing, directories, map[], [];
    }

    /** `take_snapshot(i)`: starts the command and answers `True`; `Popen`
        never raises the `CalledProcessError` the function catches. */
    method TakeSnapshot(v: Volume) returns (started: bool)
      modifies this
      ensures started
      ensures State() == SnapshotTaken(old(State()), v)
    {
      trace := trace + [Run(SnapshotCommand(v.snapshot.tag))];
      started := true;
    }

    /** `zfs_send_file_using_bash(i, incremental)`. */
    method SendFile(s: SnapshotData, incremental: bool)
      modifies this
      ensures State() == AfterSend(old(State()), s, incremental)
    {
      var dest := Join(s.directory, if incremental then s.fileNameIncremental else s.fileName);
      var doing := MarkerOf(dest);
      var incrTxt := SidecarOf(dest);
      files, text := files + {doing}, text[doing := MARKER_TEXT];
      if incremental {
        files, text := files + {incrTxt}, text[incrTxt := s.fromTagIncremental.fileName];
      }
      trace := trace + [Run(SendCommand(s, incremental))];
      // the shell's redirection creates the artifact; `wait` ignores the status
      files, text := files + {dest}, text - {dest};
      if doing in files {
        files, text := files - {doing}, text - {doing};
      }
    }

    /** `backup(i)`. */
    method Backup(v: Volume)
      modifies this
      ensures State() == BackupOf(old(State()), v)
    {
      dirs := dirs + {v.snapshot.directory};
      if v.snapshot.fromTagIncremental.tag != "" {
        SendFile(v.snapshot, true);
      } else {
        SendFile(v.snapshot, false);
      }
    }

    /** `do_the_job(zfs_list)`. */
    method DoTheJob(volumes: seq<Volume>)
      modifies this
      ensures State() == JobOf(old(State()), volumes)
    {
      var i := 0;
      while i < |volumes|
        invariant 0 <= i <= |volumes|
        invariant State() == JobOf(old(State()), volumes[..i])
      {
        assert volumes[..i + 1][..i] == volumes[..i];
        var started := TakeSnapshot(volumes[i]);
        if started {
          Backup(volumes[i]);
        }
        i := i + 1;
      }
      assert volumes[..i] == volumes;
    }
  }

  // ------------------------------------------------------------ properties

  /** After the send, the marker is gone, the artifact is there, and the
      sidecar is there exactly for an incremental send; nothing else appears
      or disappears. The pipeline's outcome plays no part. */
  lemma SendLeavesArtifact(d: Disk, s: SnapshotData, incremental: bool, stem: string)
    requires PlainStem(stem)
    requires DestOf(s, incremental) == stem + (if incremental then ".incremental.zfs.gz" else ".zfs.gz")
    ensures var after := AfterSend(d, s, incremental);
      var dest := DestOf(s, incremental);
      && MarkerOf(dest) == stem + ".doing.txt"
      && MarkerOf(dest) !in after.files
      && dest in after.files
      && after.files == d.files - {stem + ".doing.txt"} + {dest} + (if incremental then {stem + ".incremental.txt"} else {})
  {
    var dest := DestOf(s, incremental);
    if incremental {
      MarkerOfIncremental(stem);
      SidecarOfIncremental(stem);
      assert (stem + ".doing.txt")[|stem| + 1] != dest[|stem| + 1];
      assert (stem + ".doing.txt")[|stem| + 1] != (stem + ".incremental.txt")[|stem| + 1];
    } else {
      MarkerOfFull(stem);
      assert (stem + ".doing.txt")[|stem| + 1] != dest[|stem| + 1];
    }
  }

  /** After an incremental send the sidecar holds the base's `file_name`. */
  lemma SidecarHoldsBase(d: Disk, s: SnapshotData, incremental: bool, stem: string)
    requires PlainStem(stem)
    requires DestOf(s, incremental) == stem + (if incremental then ".incremental.zfs.gz" else ".zfs.gz")
    ensures incremental ==>
      && stem + ".incremental.txt" in AfterSend(d, s, incremental).text
      && AfterSend(d, s, incremental).text[stem + ".incremental.txt"] == s.fromTagIncremental.fileName
  {
    var dest := DestOf(s, incremental);
    var sidecar := stem + ".incremental.txt";
    assert sidecar[|stem| + 1] == 'i';
    assert (stem + ".doing.txt")[|stem| + 1] == 'd';
    assert sidecar != stem + ".doing.txt";
    if incremental {
      MarkerOfIncremental(stem);
      SidecarOfIncremental(stem);
      assert sidecar != dest by {
        assert sidecar[|sidecar| - 1] == 't' && dest[|dest| - 1] == 'z';
      }
    } else {
      MarkerOfFull(stem);
      assert sidecar != dest by {
        assert sidecar[|stem| + 1] == 'i' && dest[|stem| + 1] == 'z';
      }
    }
  }

  /** While the pipeline runs, or after the process was killed during it, the
      marker stands next to the artifact, and the next run's resolver stops
      at that artifact instead of basing an incremental backup on it. */
  lemma UnfinishedSendStops(d: Disk, s: SnapshotData, incremental: bool, run: seq<string> -> Captured,
                            name: string, fd: string)
    requires '@' !in Sep(s.directory) + s.fileTitle && '@' !in fd && '/' !in s.fileTitle
    requires PlainStem(Sep(s.directory) + s.fileTitle + "@" + fd)
    requires s.fileName == FileName(s.fileTitle, fd)
    requires incremental ==> s.fileNameIncremental == IncrementalName(s.fileTitle, fd)
    ensures MarkerOf(DestOf(s, incremental)) in DuringSend(d, s, incremental).files
    ensures Judgement(DuringSend(d, s, incremental).files, run, name, s.fileTitle, "zfs", s.directory,
                      DestOf(s, incremental)) == Stop
  {
    WrittenMarkerStops(DuringSend(d, s, incremental).files, run, name, s.fileTitle, s.directory, fd, incremental);
  }

  /** `backup` sends to the incremental name with the incremental pipeline
      exactly when the resolver's tag is non-empty. */
  lemma BackupChoosesByTag(d: Disk, v: Volume)
    ensures var s := v.snapshot;
      var incremental := s.fromTagIncremental.tag != "";
      && BackupOf(d, v).trace == d.trace + [Run(SendCommand(s, incremental))]
      && BackupOf(d, v).dirs == d.dirs + {s.directory}
  {
  }

  /** One more volume adds its snapshot command and then its send command. */
  lemma JobStep(d: Disk, vs: seq<Volume>)
    requires vs != []
    ensures var last := vs[|vs| - 1];
      JobOf(d, vs).trace == JobOf(d, vs[..|vs| - 1]).trace + [Run(SnapshotCommand(last.snapshot.tag)),
        Run(SendCommand(last.snapshot, last.snapshot.fromTagIncremental.tag != ""))]
  {
    var last := vs[|vs| - 1];
    BackupChoosesByTag(SnapshotTaken(JobOf(d, vs[..|vs| - 1]), last), last);
  }

  /** The job is the volumes one after the other: running it on two lists is
      running it on their concatenation. */
  lemma {:induction false} JobConcat(d: Disk, a: seq<Volume>, b: seq<Volume>)
    ensures JobOf(JobOf(d, a), b) == JobOf(d, a + b)
    decreases |b|
  {
    if b == [] {
      assert a + b == a;
    } else {
      var last := b[|b| - 1];
      assert (a + b)[..|a + b| - 1] == a + b[..|b| - 1];
      assert (a + b)[|a + b| - 1] == last;
      JobConcat(d, a, b[..|b| - 1]);
    }
  }

  /** The commands of the job: for each volume in order, its snapshot and
      then its send; the earlier commands are kept. */
  lemma {:induction false} JobTrace(d: Disk, vs: seq<Volume>)
    ensures |JobOf(d, vs).trace| == |d.trace| + 2 * |vs|
    ensures JobOf(d, vs).trace[..|d.trace|] == d.trace
    ensures forall k :: 0 <= k < |vs| ==>
      && JobOf(d, vs).trace[|d.trace| + 2 * k] == Run(SnapshotCommand(vs[k].snapshot.tag))
      && JobOf(d, vs).trace[|d.trace| + 2 * k + 1]
         == Run(SendCommand(vs[k].snapshot, vs[k].snapshot.fromTagIncremental.tag != ""))
    decreases |vs|
  {
    if vs != [] {
      var init := vs[..|vs| - 1];
      JobTrace(d, init);
      JobStep(d, vs);
      var t, t0 := JobOf(d, vs).trace, JobOf(d, init).trace;
      forall k | 0 <= k < |vs|
        ensures t[|d.trace| + 2 * k] == Run(SnapshotCommand(vs[k].snapshot.tag))
        ensures t[|d.trace| + 2 * k + 1] == Run(SendCommand(vs[k].snapshot, vs[k].snapshot.fromTagIncremental.tag != ""))
      {
        if k < |init| {
          assert vs[k] == init[k];
          assert t[|d.trace| + 2 * k] == t0[|d.trace| + 2 * k];
          assert t[|d.trace| + 2 * k + 1] == t0[|d.trace| + 2 * k + 1];
        } else {
          assert k == |init| && |d.trace| + 2 * k == |t0|;
          assert t[|t0|] == Run(SnapshotCommand(vs[k].snapshot.tag));
          assert t[|t0| + 1] == Run(SendCommand(vs[k].snapshot, vs[k].snapshot.fromTagIncremental.tag != ""));
        }
      }
      assert t[..|d.trace|] == t0[..|d.trace|];
    }
  }
}
