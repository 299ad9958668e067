/** `restore.py`: replays a chain of backup artifacts, oldest first. Each
    incremental artifact has a `.txt` sidecar naming the artifact it was
    sent against; restore follows the sidecars back to a full backup, then
    logs and receives every artifact on the way forward.

    The files restore reads are `text`, a map from path to content (a path
    is a file exactly when it is a key). The globals `test`, `filesystem`
    and `destiny` that the command line sets are parameters. Python's
    recursion has no bound; the model carries a bound `n` on the number of
    sidecar hops and states which chains are within reach of some bound. */
module Restore {
  import opened Common
  import opened Text
  import opened OsPath

  /** `filename.replace(".zfs.gz", ".txt").replace(".btrfs.gz", ".txt")`. */
  function SidecarPathOf(f: string): string
  {
    Replace(Replace(f, ".zfs.gz", ".txt"), ".btrfs.gz", ".txt")
  }

  /** `find_previous_backup(filename)`: the base name of the stripped sidecar
      content, or `None` when there is no sidecar. */
  function FindPreviousBackup(text: map<string, string>, f: string): (r: Option<string>)
    ensures r.None? <==> SidecarPathOf(f) !in text
    ensures r.Some? ==> '/' !in r.value
  {
    var txt := SidecarPathOf(f);
    if txt in text then Some(Basename(Strip(text[txt]))) else None
  }

  /** The file `restore_recursively(filename)` recurses on: the previous
      backup, joined onto `filename`'s directory, unless it is `None` or the
      empty name, which Python's `if filename_before:` treats as false. */
  function ParentOf(text: map<string, string>, f: string): (r: Option<string>)
    ensures r.None? <==> FindPreviousBackup(text, f).None? || FindPreviousBackup(text, f).value == ""
    ensures r.Some? ==> Basename(r.value) == FindPreviousBackup(text, f).value
  {
    match FindPreviousBackup(text, f)
    case None => None
    case Some(b) =>
      if b == "" then None
      else
        BasenameOfJoin(Dirname(f), b);
        Some(Join(Dirname(f), b))
  }

  /** The relation `restore_recursively` follows, as a function value: the
      facts about chains below hold for any such relation, and restore's is
      `Parents(text)`. */
  function Parents(text: map<string, string>): string -> Option<string>
  {
    f => ParentOf(text, f)
  }

  /** Following `parent` from `f` reaches a file without one within `n` hops. */
  predicate Rooted(parent: string -> Option<string>, f: string, n: nat)
    decreases n
  {
    match parent(f)
    case None => true
    case Some(p) => n > 0 && Rooted(parent, p, n - 1)
  }

  /** The files visited from `f`, oldest first. */
  function Chain(parent: string -> Option<string>, f: string, n: nat): seq<string>
    requires Rooted(parent, f, n)
    decreases n
  {
    match parent(f)
    case None => [f]
    case Some(p) => Chain(parent, p, n - 1) + [f]
  }

  /** `c` is a chain: it starts at a file without a parent and each later
      file's parent is the one before it. */
  predicate Linked(parent: string -> Option<string>, c: seq<string>)
  {
    && |c| > 0
    && parent(c[0]).None?
    && forall i :: 0 < i < |c| ==> parent(c[i]) == Some(c[i - 1])
  }

  // ------------------------------------------------------------ effects

  /** The `logging.info('Restoring "%s"...', basename)` line. */
  function RestoringLine(f: string): string
  {
    "Restoring \"" + Basename(f) + "\"..."
  }

  /** The `bash -c` command `restore_recursively` starts for `f`: `zfs receive -F`
      for the `zfs` filesystem and `btrfs receive` for any other. */
  function ReceiveCommand(f: string, filesystem: string, destiny: string): seq<string>
  {
    var source := "pigz -dc \"" + f + "\" | pv -B 512M | ";
    ["bash", "-c",
     if filesystem == "zfs" then source + "zfs receive -F \"" + destiny + "\""
     else source + "btrfs receive " + destiny]
  }

  /** Each artifact is received by a command of its own: the receive reads
      the artifact named between its fixed words, so two artifacts sharing a
      command are the same artifact. */
  lemma ReceiveNamesArtifact(f: string, g: string, filesystem: string, destiny: string)
    ensures var r := ReceiveCommand(f, filesystem, destiny);
      && |r| == 3 && r[0] == "bash" && r[1] == "-c"
      && |r[2]| == |f| + |destiny| + (if filesystem == "zfs" then 44 else 41)
      && r[2][..10] == "pigz -dc \"" && r[2][10..10 + |f|] == f
    ensures ReceiveCommand(f, filesystem, destiny) == ReceiveCommand(g, filesystem, destiny) <==> f == g
  {
    var r := ReceiveCommand(f, filesystem, destiny);
    var q := ReceiveCommand(g, filesystem, destiny);
    ReceiveText(f, filesystem, destiny);
    ReceiveText(g, filesystem, destiny);
    if r == q {
      assert r[2][10..10 + |f|] == q[2][10..10 + |g|];
    }
  }

  lemma ReceiveText(f: string, filesystem: string, destiny: string)
    ensures var r := ReceiveCommand(f, filesystem, destiny)[2];
      && |r| == |f| + |destiny| + (if filesystem == "zfs" then 44 else 41)
      && r[..10] == "pigz -dc \"" && r[10..10 + |f|] == f
  {
    var source := "pigz -dc \"" + f + "\" | pv -B 512M | ";
    var r := ReceiveCommand(f, filesystem, destiny)[2];
    var tail := if filesystem == "zfs" then "zfs receive -F \"" + destiny + "\"" else "btrfs receive " + destiny;
    assert r == "pigz -dc \"" + (f + ("\" | pv -B 512M | " + tail));
  }

  /** What one call does after its recursion: log, then receive unless testing. */
  function Steps(f: string, test: bool, filesystem: string, destiny: string): seq<Effect>
  {
    [Log(RestoringLine(f))] + (if test then [] else [Run(ReceiveCommand(f, filesystem, destiny))])
  }

  /** `restore_recursively(filename)`: the parent's effects, then this
      artifact's. The receive's exit status is never read, so nothing stops
      the later artifacts. */
  function RestoreRecursively(text: map<string, string>, f: string, n: nat, test: bool,
                              filesystem: string, destiny: string): (es: seq<Effect>)
    requires Rooted(Parents(text), f, n)
    ensures |es| > 0 && es[0] == Log(RestoringLine(Chain(Parents(text), f, n)[0]))
    decreases n
  {
    match ParentOf(text, f)
    case None => Steps(f, test, filesystem, destiny)
    case Some(p) =>
      ParentStep(Parents(text), f, p, n);
      RestoreRecursively(text, p, n - 1, test, filesystem, destiny) + Steps(f, test, filesystem, destiny)
  }

  /** `main()`: announce the target dataset, then restore the given file. */
  function Session(text: map<string, string>, backupFile: string, n: nat, test: bool,
                   filesystem: string, destiny: string): seq<Effect>
    requires Rooted(Parents(text), backupFile, n)
  {
    [Log("Restoring to \"" + destiny + "\"")] + RestoreRecursively(text, backupFile, n, test, filesystem, destiny)
  }

  /** The effects of replaying the artifacts of `c` one after another. */
  function Replay(c: seq<string>, test: bool, filesystem: string, destiny: string): seq<Effect>
  {
    if c == [] then [] else Replay(c[..|c| - 1], test, filesystem, destiny) + Steps(c[|c| - 1], test, filesystem, destiny)
  }

  /** The log lines among the effects, in order. */
  function Logs(es: seq<Effect>): seq<string>
  {
    if es == [] then [] else (if es[0].Log? then [es[0].line] else []) + Logs(es[1..])
  }

  /** The commands among the effects, in order. */
  function Runs(es: seq<Effect>): seq<seq<string>>
  {
    if es == [] then [] else (if es[0].Run? then [es[0].argv] else []) + Runs(es[1..])
  }

  lemma {:induction false} LogsConcat(a: seq<Effect>, b: seq<Effect>)
    ensures Logs(a + b) == Logs(a) + Logs(b)
  {
    if a != [] {
      assert (a + b)[1..] == a[1..] + b;
      LogsConcat(a[1..], b);
    } else {
      assert a + b == b;
    }
  }

  lemma {:induction false} RunsConcat(a: seq<Effect>, b: seq<Effect>)
    ensures Runs(a + b) == Runs(a) + Runs(b)
  {
    if a != [] {
      assert (a + b)[1..] == a[1..] + b;
      RunsConcat(a[1..], b);
    } else {
      assert a + b == b;
    }
  }

  // ------------------------------------------------------------ the chain

  /** The chain ends at the file asked for, starts at an artifact without a
      sidecar parent, links each artifact to its parent, and is no longer
      than the bound allows. */
  lemma {:induction false} ChainLinks(parent: string -> Option<string>, f: string, n: nat)
    requires Rooted(parent, f, n)
    ensures var c := Chain(parent, f, n);
      && Linked(parent, c)
      && c[|c| - 1] == f
      && |c| <= n + 1
    decreases n
  {
    match parent(f)
    case None =>
    case Some(p) =>
      ChainLinks(parent, p, n - 1);
      var c := Chain(parent, p, n - 1);
      assert Chain(parent, f, n) == c + [f];
  }

  /** Conversely, every chain ending at `f` is the one restore walks: `f` is
      rooted exactly within `|c| - 1` hops or more, so the number of sidecar
      hops plus one is the chain's length. */
  lemma {:induction false} ChainUnique(parent: string -> Option<string>, c: seq<string>, n: nat)
    requires Linked(parent, c)
    ensures Rooted(parent, c[|c| - 1], n) <==> n + 1 >= |c|
    ensures Rooted(parent, c[|c| - 1], n) ==> Chain(parent, c[|c| - 1], n) == c
    decreases |c|
  {
    var f := c[|c| - 1];
    if |c| == 1 {
      assert c == [f];
    } else {
      var c' := c[..|c| - 1];
      var p := c'[|c'| - 1];
      LinkedPrefix(parent, c);
      ParentStep(parent, f, p, n);
      if n > 0 {
        ChainUnique(parent, c', n - 1);
        assert c' + [f] == c;
      }
    }
  }

  /** An artifact without a sidecar has no previous backup and is a chain of
      its own, whatever the bound. */
  lemma NoSidecarIsRoot(text: map<string, string>, f: string, n: nat)
    requires SidecarPathOf(f) !in text
    ensures FindPreviousBackup(text, f) == None
    ensures Rooted(Parents(text), f, n) && Chain(Parents(text), f, n) == [f]
  {
  }

  /** The previous backup is a name without a slash, so the parent is a file
      of the child's own directory. */
  lemma ParentInSameDirectory(text: map<string, string>, f: string)
    requires ParentOf(text, f).Some?
    ensures var b := FindPreviousBackup(text, f).value;
      && b != "" && '/' !in b
      && ParentOf(text, f) == Some(Join(Dirname(f), b))
  {
    var t := Strip(text[SidecarPathOf(f)]);
    assert Basename(t) == t[SlashEnd(t)..];
  }

  /** One hop of `Rooted` and `Chain`. */
  lemma ParentStep(parent: string -> Option<string>, f: string, p: string, n: nat)
    requires parent(f) == Some(p)
    ensures Rooted(parent, f, n) <==> n > 0 && Rooted(parent, p, n - 1)
    ensures Rooted(parent, f, n) ==> Chain(parent, f, n) == Chain(parent, p, n - 1) + [f]
  {
  }

  /** Dropping the newest artifact of a chain leaves a chain. */
  lemma LinkedPrefix(parent: string -> Option<string>, c: seq<string>)
    requires Linked(parent, c) && |c| > 1
    ensures Linked(parent, c[..|c| - 1])
  {
    var c' := c[..|c| - 1];
    forall i | 0 < i < |c'|
      ensures parent(c'[i]) == Some(c'[i - 1])
    {
      assert c'[i] == c[i] && c'[i - 1] == c[i - 1];
    }
  }

  /** The bound only decides whether restore finishes, never what it does. */
  lemma BoundIrrelevant(text: map<string, string>, f: string, n: nat, m: nat, test: bool,
                        filesystem: string, destiny: string)
    requires Rooted(Parents(text), f, n) && Rooted(Parents(text), f, m)
    ensures Chain(Parents(text), f, n) == Chain(Parents(text), f, m)
    ensures RestoreRecursively(text, f, n, test, filesystem, destiny)
         == RestoreRecursively(text, f, m, test, filesystem, destiny)
  {
    ChainLinks(Parents(text), f, n);
    ChainUnique(Parents(text), Chain(Parents(text), f, n), m);
    RestoreReplaysChain(text, f, n, test, filesystem, destiny);
    RestoreReplaysChain(text, f, m, test, filesystem, destiny);
  }

  /** Artifacts whose sidecars lead around a cycle are rooted within no
      bound: the recursion in the source, which keeps no record of what it
      has visited, does not end on them. A file that names itself is the
      cycle of length one. */
  lemma {:induction false} CycleNeverRooted(parent: string -> Option<string>, c: seq<string>, n: nat)
    requires |c| > 0
    requires forall i :: 0 <= i < |c| ==> parent(c[i]) == Some(c[(i + 1) % |c|])
    ensures forall i :: 0 <= i < |c| ==> !Rooted(parent, c[i], n)
    decreases n
  {
    if n > 0 {
      CycleNeverRooted(parent, c, n - 1);
      forall i | 0 <= i < |c|
        ensures !Rooted(parent, c[i], n)
      {
        var j := (i + 1) % |c|;
        assert !Rooted(parent, c[j], n - 1);
      }
    }
  }

  // ------------------------------------------------------------ the replay

  /** `restore_recursively` does the steps of its chain, oldest artifact first. */
  lemma {:induction false} RestoreReplaysChain(text: map<string, string>, f: string, n: nat, test: bool,
                                               filesystem: string, destiny: string)
    requires Rooted(Parents(text), f, n)
    ensures RestoreRecursively(text, f, n, test, filesystem, destiny)
         == Replay(Chain(Parents(text), f, n), test, filesystem, destiny)
    decreases n
  {
    match ParentOf(text, f)
    case None =>
      assert [f][..0] == [];
    case Some(p) =>
      RestoreReplaysChain(text, p, n - 1, test, filesystem, destiny);
      var c := Chain(Parents(text), p, n - 1) + [f];
      assert c[..|c| - 1] == Chain(Parents(text), p, n - 1);
  }

  lemma StepPair(line: string, argv: seq<string>, test: bool)
    ensures Logs([Log(line)] + (if test then [] else [Run(argv)])) == [line]
    ensures Runs([Log(line)] + (if test then [] else [Run(argv)])) == if test then [] else [argv]
  {
    var s := [Log(line)] + (if test then [] else [Run(argv)]);
    if test {
      assert s[1..] == [];
    } else {
      var t := s[1..];
      assert t == [Run(argv)];
      assert t[1..] == [];
      assert Logs(t) == [];
      assert Runs(t) == [argv];
    }
  }

  lemma StepsEffects(f: string, test: bool, filesystem: string, destiny: string)
    ensures Logs(Steps(f, test, filesystem, destiny)) == [RestoringLine(f)]
    ensures Runs(Steps(f, test, filesystem, destiny)) == if test then [] else [ReceiveCommand(f, filesystem, destiny)]
  {
    StepPair(RestoringLine(f), ReceiveCommand(f, filesystem, destiny), test);
  }

  /** Replaying a chain logs every artifact in order. */
  lemma {:induction false} ReplayLogs(c: seq<string>, test: bool, filesystem: string, destiny: string)
    ensures var ls := Logs(Replay(c, test, filesystem, destiny));
      |ls| == |c| && forall i :: 0 <= i < |c| ==> ls[i] == RestoringLine(c[i])
  {
    if c != [] {
      var c' := c[..|c| - 1];
      var f := c[|c| - 1];
      ReplayLogs(c', test, filesystem, destiny);
      LogsConcat(Replay(c', test, filesystem, destiny), Steps(f, test, filesystem, destiny));
      StepsEffects(f, test, filesystem, destiny);
      assert Logs(Replay(c, test, filesystem, destiny)) == Logs(Replay(c', test, filesystem, destiny)) + [RestoringLine(f)];
      LinesAlong(Logs(Replay(c', test, filesystem, destiny)), c', f);
      assert c' + [f] == c;
    }
  }

  /** One more log line, for one more artifact, keeps the two in step. */
  lemma LinesAlong(ls: seq<string>, c: seq<string>, f: string)
    requires |ls| == |c| && forall i :: 0 <= i < |c| ==> ls[i] == RestoringLine(c[i])
    ensures forall i :: 0 <= i < |c| + 1 ==> (ls + [RestoringLine(f)])[i] == RestoringLine((c + [f])[i])
  {
  }

  /** In test mode, replaying a chain starts no command. */
  lemma {:induction false} ReplayQuiet(c: seq<string>, filesystem: string, destiny: string)
    ensures Runs(Replay(c, true, filesystem, destiny)) == []
  {
    if c != [] {
      var c' := c[..|c| - 1];
      ReplayQuiet(c', filesystem, destiny);
      RunsConcat(Replay(c', true, filesystem, destiny), Steps(c[|c| - 1], true, filesystem, destiny));
      StepsEffects(c[|c| - 1], true, filesystem, destiny);
    }
  }

  /** Outside test mode, replaying a chain starts one receive per artifact,
      in the chain's order. */
  lemma {:induction false} ReplayReceives(c: seq<string>, filesystem: string, destiny: string)
    ensures var rs := Runs(Replay(c, false, filesystem, destiny));
      |rs| == |c| && forall i :: 0 <= i < |c| ==> rs[i] == ReceiveCommand(c[i], filesystem, destiny)
  {
    if c != [] {
      var c' := c[..|c| - 1];
      var f := c[|c| - 1];
      ReplayReceives(c', filesystem, destiny);
      var before := Runs(Replay(c', false, filesystem, destiny));
      RunsConcat(Replay(c', false, filesystem, destiny), Steps(f, false, filesystem, destiny));
      StepsEffects(f, false, filesystem, destiny);
      assert Runs(Replay(c, false, filesystem, destiny)) == before + [ReceiveCommand(f, filesystem, destiny)];
      AppendedAlong(before, c', f, ReceiveCommand(f, filesystem, destiny), filesystem, destiny);
      assert c' + [f] == c;
    }
  }

  /** One more receive, for one more artifact, keeps the two in step. */
  lemma AppendedAlong(rs: seq<seq<string>>, c: seq<string>, f: string, r: seq<string>, filesystem: string, destiny: string)
    requires |rs| == |c| && forall i :: 0 <= i < |c| ==> rs[i] == ReceiveCommand(c[i], filesystem, destiny)
    requires r == ReceiveCommand(f, filesystem, destiny)
    ensures forall i :: 0 <= i < |c| + 1 ==> (rs + [r])[i] == ReceiveCommand((c + [f])[i], filesystem, destiny)
  {
  }

  /** What `restore_recursively(f)` logs and runs, artifact by artifact along
      its chain. */
  lemma RestoreEffects(text: map<string, string>, f: string, n: nat, test: bool,
                       filesystem: string, destiny: string)
    requires Rooted(Parents(text), f, n)
    ensures var c := Chain(Parents(text), f, n);
      var es := RestoreRecursively(text, f, n, test, filesystem, destiny);
      && |Logs(es)| == |c|
      && (forall i :: 0 <= i < |c| ==> Logs(es)[i] == RestoringLine(c[i]))
      && (test ==> Runs(es) == [])
      && (!test ==> |Runs(es)| == |c| && forall i :: 0 <= i < |c| ==> Runs(es)[i] == ReceiveCommand(c[i], filesystem, destiny))
  {
    RestoreReplaysChain(text, f, n, test, filesystem, destiny);
    ReplayLogs(Chain(Parents(text), f, n), test, filesystem, destiny);
    if test {
      ReplayQuiet(Chain(Parents(text), f, n), filesystem, destiny);
    } else {
      ReplayReceives(Chain(Parents(text), f, n), filesystem, destiny);
    }
  }

  /** Test mode logs the same lines and runs nothing. */
  lemma TestModeSameLogs(text: map<string, string>, f: string, n: nat, filesystem: string, destiny: string)
    requires Rooted(Parents(text), f, n)
    ensures Logs(RestoreRecursively(text, f, n, true, filesystem, destiny))
         == Logs(RestoreRecursively(text, f, n, false, filesystem, destiny))
    ensures Runs(RestoreRecursively(text, f, n, true, filesystem, destiny)) == []
  {
    RestoreEffects(text, f, n, true, filesystem, destiny);
    RestoreEffects(text, f, n, false, filesystem, destiny);
  }

  /** `main()` logs the target dataset first, then exactly what restoring the
      given file logs and runs along its chain. */
  lemma SessionEffects(text: map<string, string>, backupFile: string, n: nat, test: bool,
                       filesystem: string, destiny: string)
    requires Rooted(Parents(text), backupFile, n)
    ensures var c := Chain(Parents(text), backupFile, n);
      var es := Session(text, backupFile, n, test, filesystem, destiny);
      && |Logs(es)| == |c| + 1
      && Logs(es)[0] == "Restoring to \"" + destiny + "\""
      && (forall i :: 0 <= i < |c| ==> Logs(es)[i + 1] == RestoringLine(c[i]))
      && (test ==> Runs(es) == [])
      && (!test ==> |Runs(es)| == |c| && forall i :: 0 <= i < |c| ==> Runs(es)[i] == ReceiveCommand(c[i], filesystem, destiny))
  {
    var head := [Log("Restoring to \"" + destiny + "\"")];
    var rest := RestoreRecursively(text, backupFile, n, test, filesystem, destiny);
    LogsConcat(head, rest);
    RunsConcat(head, rest);
    assert Logs(head) == ["Restoring to \"" + destiny + "\""] && Runs(head) == [] by {
      assert head[1..] == [];
    }
    RestoreEffects(text, backupFile, n, test, filesystem, destiny);
  }

  // ------------------------------------------------------------ sidecars

  lemma TxtKeptByBtrfs()
    ensures Replace(".txt", ".btrfs.gz", ".txt") == ".txt"
  {
    NoStartByFirstChar("txt", ".btrfs.gz");
    NoStartCons('.', "txt", ".btrfs.gz", 1);
    assert ['.'] + "txt" == ".txt";
    ReplaceAbsent(".txt", ".btrfs.gz", ".txt");
  }

  lemma GzNoZfs()
    ensures NoStart(".gz", ".zfs.gz")
  {
    NoStartByFirstChar("gz", ".zfs.gz");
    NoStartCons('.', "gz", ".zfs.gz", 1);
    assert ['.'] + "gz" == ".gz";
  }

  lemma BtrfsNoZfs()
    ensures NoStart(".btrfs.gz", ".zfs.gz")
  {
    GzNoZfs();
    NoStartByFirstChar("btrfs", ".zfs.gz");
    var b := "btrfs" + ".gz";
    NoStartConcat("btrfs", ".gz", ".zfs.gz");
    NoStartCons('.', b, ".zfs.gz", 1);
    assert ['.'] + b == ".btrfs.gz";
  }

  lemma BtrfsKeptByZfs()
    ensures Replace(".btrfs.gz", ".zfs.gz", ".txt") == ".btrfs.gz"
  {
    BtrfsNoZfs();
    ReplaceAbsent(".btrfs.gz", ".zfs.gz", ".txt");
  }

  /** Replacing a whole extension that ends the text. */
  lemma ReplaceEnding(stem: string, ext: string)
    requires |ext| > 0 && NoStart(stem, ext)
    ensures Replace(stem + ext, ext, ".txt") == stem + ".txt"
  {
    ReplaceAfter(stem, ext, ext, ".txt");
    ReplaceLeading(ext, "", ".txt");
    assert ext + "" == ext;
    assert ".txt" + "" == ".txt";
  }

  /** For an artifact `{stem}.zfs.gz` or `{stem}.btrfs.gz` the sidecar is
      `{stem}.txt`, when neither extension can begin inside the stem. */
  lemma SidecarPathOfArtifact(stem: string, btrfs: bool)
    requires NoStart(stem, ".zfs.gz") && NoStart(stem, ".btrfs.gz")
    ensures SidecarPathOf(stem + (if btrfs then ".btrfs.gz" else ".zfs.gz")) == stem + ".txt"
  {
    if btrfs {
      ReplaceAfter(stem, ".btrfs.gz", ".zfs.gz", ".txt");
      BtrfsKeptByZfs();
      ReplaceEnding(stem, ".btrfs.gz");
    } else {
      ReplaceEnding(stem, ".zfs.gz");
      ReplaceAfter(stem, ".txt", ".btrfs.gz", ".txt");
      TxtKeptByBtrfs();
    }
  }

  /** A sidecar holding the path of a file, with no white space at either
      end, makes that file's sibling with the same name the parent: only
      the base name of the stored path is kept and it is joined onto the
      child's directory. */
  lemma ParentIsSibling(text: map<string, string>, dir: string, n: string, stored: string, m: string)
    requires dir != [] && dir[|dir| - 1] != '/'
    requires '/' !in n && '/' !in m && m != ""
    requires SidecarPathOf(Join(dir, n)) in text && text[SidecarPathOf(Join(dir, n))] == stored
    requires Basename(stored) == m
    requires stored != [] ==> !IsSpace(stored[0]) && !IsSpace(stored[|stored| - 1])
    ensures ParentOf(text, Join(dir, n)) == Some(Join(dir, m))
  {
    StripUnchanged(stored);
    SiblingOfJoin(dir, n, m);
  }
}
