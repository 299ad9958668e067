/** The planning half of `backup.py`: how a volume's artifacts are named,
    which earlier artifact an incremental backup is based on
    (`from_tag_incremental`), the record `get_snapshot_data` builds for a
    volume, and which rows of the dataset listings `zfs_list` backs up. */
module Backup {
  import opened Common
  import opened Text
  import opened OsPath
  import opened Resolver
  import opened Naming

  // ---------------------------------------------------------------- names

  /** `f'{file_title}@{formatted_date}.zfs.gz'`: the full backup is named
      `.zfs.gz` whatever partition type the caller passed. */
  function FileName(title: string, fd: string): (n: string)
    ensures StartsWith(n, title + "@") && EndsWith(n, ".zfs.gz")
  {
    assert (title + "@" + fd + ".zfs.gz")[..|title + "@"|] == title + "@";
    title + "@" + fd + ".zfs.gz"
  }

  /** `file_name.replace(part_type, f"incremental.{part_type}")` as written:
      every occurrence of the partition type gains the prefix, those inside
      the title and the date included. */
  function IncrementalNameAsWritten(fileName: string, partType: string): (n: string)
    ensures |n| >= |fileName|
  {
    ReplaceNotShorter(fileName, partType, "incremental." + partType);
    Replace(fileName, partType, "incremental." + partType)
  }

  /** The incremental name the line above means to build: `incremental.` in
      front of the extension only. */
  function IncrementalName(title: string, fd: string): (n: string)
    ensures StartsWith(n, title + "@") && EndsWith(n, ".incremental.zfs.gz")
  {
    assert (title + "@" + fd + ".incremental.zfs.gz")[..|title + "@"|] == title + "@";
    title + "@" + fd + ".incremental.zfs.gz"
  }

  /** `.gz` holds no `zfs`. */
  lemma GzKeptByZfs()
    ensures Replace(".gz", "zfs", "incremental.zfs") == ".gz"
  {
    assert Replace([], "zfs", "incremental.zfs") == [];
    ReplaceSkip('z', [], "zfs", "incremental.zfs");
    ReplaceSkip('g', "z", "zfs", "incremental.zfs");
    ReplaceSkip('.', "gz", "zfs", "incremental.zfs");
    assert ['z'] + [] == "z" && ['g'] + "z" == "gz" && ['.'] + "gz" == ".gz";
  }

  lemma ExtensionGainsPrefix()
    ensures Replace(".zfs.gz", "zfs", "incremental.zfs") == ".incremental.zfs.gz"
  {
    GzKeptByZfs();
    NoStartByFirstChar(".", "zfs");
    ReplaceMiddle(".", "zfs", ".gz", "incremental.zfs");
    ExtensionPieces();
  }

  lemma ExtensionPieces()
    ensures "." + ("zfs" + ".gz") == ".zfs.gz"
    ensures "." + ("incremental.zfs" + ".gz") == ".incremental.zfs.gz"
  {
  }

  /** Where neither the title nor the date holds `zfs`, the name as written is
      the intended one. */
  lemma AsWrittenAgrees(title: string, fd: string)
    requires NoStart(title + "@" + fd, "zfs")
    ensures IncrementalNameAsWritten(FileName(title, fd), "zfs") == IncrementalName(title, fd)
  {
    assert FileName(title, fd) == (title + "@" + fd) + ".zfs.gz";
    assert IncrementalName(title, fd) == (title + "@" + fd) + ".incremental.zfs.gz";
    assert "incremental." + "zfs" == "incremental.zfs";
    ReplaceAfter(title + "@" + fd, ".zfs.gz", "zfs", "incremental.zfs");
    ExtensionGainsPrefix();
  }

  /** The name as written for a dataset whose title begins with `zfs` (a pool
      named `zfs`, say) does not begin with the title, so the resolver's glob
      `{title}*.zfs.gz` never lists it. */
  lemma AsWrittenEscapesGlob(rest: string, fd: string)
    ensures !GlobMatch(IncrementalNameAsWritten(FileName("zfs" + rest, fd), "zfs"), "zfs" + rest, ".zfs.gz")
  {
    var title := "zfs" + rest;
    assert FileName(title, fd) == "zfs" + (rest + "@" + fd + ".zfs.gz");
    assert "incremental." + "zfs" == "incremental.zfs";
    ReplaceLeading("zfs", rest + "@" + fd + ".zfs.gz", "incremental.zfs");
    var n := IncrementalNameAsWritten(FileName(title, fd), "zfs");
    assert n[0] == 'i';
    assert title[0] == 'z';
  }

  /** Both names the writer builds are listed by the resolver's glob. */
  lemma NamesMatchGlob(title: string, fd: string)
    ensures GlobMatch(FileName(title, fd), title, ".zfs.gz")
    ensures GlobMatch(IncrementalName(title, fd), title, ".zfs.gz")
  {
    assert FileName(title, fd)[|title|] == '@';
    assert IncrementalName(title, fd)[|title|] == '@';
  }

  /** `dest_file.replace(".incremental","").replace(".zfs.gz",".doing.txt")`:
      the marker that says a transfer into `dest` is in progress. */
  function MarkerOf(dest: string): string
  {
    Replace(Replace(dest, ".incremental", ""), ".zfs.gz", ".doing.txt")
  }

  /** `dest_file.replace(".zfs.gz",".txt")`: the file naming the base of an
      incremental artifact. */
  function SidecarOf(dest: string): string
  {
    Replace(dest, ".zfs.gz", ".txt")
  }

  /** Text before an artifact's extension in which neither `.incremental` nor
      `.zfs.gz` can begin. */
  predicate PlainStem(stem: string)
  {
    NoStart(stem, ".incremental") && NoStart(stem, ".zfs.gz")
  }

  lemma IncrementalNoExtension()
    ensures NoStart(".incremental", ".zfs.gz")
  {
    NoStartByFirstChar("incremental", ".zfs.gz");
    NoStartCons('.', "incremental", ".zfs.gz", 1);
    assert ['.'] + "incremental" == ".incremental";
  }

  lemma DropIncremental()
    ensures Replace(".zfs.gz", ".incremental", "") == ".zfs.gz"
    ensures Replace(".incremental.zfs.gz", ".incremental", "") == ".zfs.gz"
  {
    ReplaceLeading(".incremental", ".zfs.gz", "");
    assert ".incremental" + ".zfs.gz" == ".incremental.zfs.gz";
  }

  lemma ReplaceExtension(rep: string)
    ensures Replace(".zfs.gz", ".zfs.gz", rep) == rep
  {
    ReplaceLeading(".zfs.gz", "", rep);
    assert ".zfs.gz" + "" == ".zfs.gz";
  }

  /** The marker of a full artifact is the stem followed by `.doing.txt`. */
  lemma MarkerOfFull(stem: string)
    requires PlainStem(stem)
    ensures MarkerOf(stem + ".zfs.gz") == stem + ".doing.txt"
  {
    DropIncremental();
    ReplaceExtension(".doing.txt");
    ReplaceAfter(stem, ".zfs.gz", ".incremental", "");
    ReplaceAfter(stem, ".zfs.gz", ".zfs.gz", ".doing.txt");
  }

  /** The marker of an incremental artifact is the same as the full one's:
      `.incremental` is dropped first. */
  lemma MarkerOfIncremental(stem: string)
    requires PlainStem(stem)
    ensures MarkerOf(stem + ".incremental.zfs.gz") == stem + ".doing.txt"
  {
    DropIncremental();
    ReplaceExtension(".doing.txt");
    ReplaceAfter(stem, ".incremental.zfs.gz", ".incremental", "");
    ReplaceAfter(stem, ".zfs.gz", ".zfs.gz", ".doing.txt");
  }

  /** The sidecar of an incremental artifact is the stem followed by `.incremental.txt`. */
  lemma SidecarOfIncremental(stem: string)
    requires PlainStem(stem)
    ensures SidecarOf(stem + ".incremental.zfs.gz") == stem + ".incremental.txt"
  {
    IncrementalNoExtension();
    ReplaceExtension(".txt");
    NoStartConcat(stem, ".incremental", ".zfs.gz");
    assert stem + ".incremental.zfs.gz" == (stem + ".incremental") + ".zfs.gz";
    ReplaceAfter(stem + ".incremental", ".zfs.gz", ".zfs.gz", ".txt");
  }

  // ------------------------------------------------------------ resolver

  /** `i.split("@")[1].replace(".incremental","").replace(f".{part_type}.gz","")`,
      the date part of a candidate's name; `None` where the name has no `@`
      and the indexing raises `IndexError`. */
  function TagOf(path: string, partType: string): (r: Option<string>)
    ensures r.None? <==> '@' !in path
  {
    SplitHasSecond(path, '@');
    var parts := Split(path, '@');
    if |parts| < 2 then None
    else Some(Replace(Replace(parts[1], ".incremental", ""), "." + partType + ".gz", ""))
  }

  /** The tag read back from an artifact the writer named is the date it was
      named with. */
  lemma TagOfArtifact(prefix: string, fd: string, incremental: bool)
    requires '@' !in prefix && '@' !in fd && PlainStem(fd)
    ensures TagOf(prefix + "@" + fd + (if incremental then ".incremental.zfs.gz" else ".zfs.gz"), "zfs") == Some(fd)
  {
    var ext := if incremental then ".incremental.zfs.gz" else ".zfs.gz";
    assert '@' !in ext;
    AfterTheAt(prefix, fd + ext);
    assert prefix + "@" + fd + ext == prefix + "@" + (fd + ext);
    assert "." + "zfs" + ".gz" == ".zfs.gz";
    DateOfArtifactName(fd, incremental);
  }

  /** The second `@`-separated part of a name with one `@` is what follows it. */
  lemma AfterTheAt(prefix: string, rest: string)
    requires '@' !in prefix && '@' !in rest
    ensures |Split(prefix + "@" + rest, '@')| >= 2 && Split(prefix + "@" + rest, '@')[1] == rest
  {
    assert prefix + "@" + rest == prefix + ['@'] + rest;
    SplitAtFirst(prefix, '@', rest);
    SplitWithout(rest, '@');
  }

  /** Removing `.incremental` and then `.zfs.gz` from what follows the `@`
      leaves the date. */
  lemma DateOfArtifactName(fd: string, incremental: bool)
    requires PlainStem(fd)
    ensures var ext := if incremental then ".incremental.zfs.gz" else ".zfs.gz";
      Replace(Replace(fd + ext, ".incremental", ""), ".zfs.gz", "") == fd
  {
    var ext := if incremental then ".incremental.zfs.gz" else ".zfs.gz";
    ReplaceAfter(fd, ext, ".incremental", "");
    DropIncremental();
    assert Replace(fd + ext, ".incremental", "") == fd + ".zfs.gz";
    ReplaceAfter(fd, ".zfs.gz", ".zfs.gz", "");
    ReplaceExtension("");
    assert fd + "" == fd;
  }

  /** `['zfs','list','-t','snapshot','-o','name','-H',tag_name]`. */
  function ListSnapshot(tagName: string): seq<string>
  {
    ["zfs", "list", "-t", "snapshot", "-o", "name", "-H", tagName]
  }

  /** One pass of the loop body for the candidate `path`: a missing `@`
      raises; a marker for its date ends the search with no base; otherwise
      the snapshot lookup decides, a lookup that raises or prints nothing (or
      only white space, whose `split()[0]` raises inside the `try`) being
      skipped. `fs` is the set of existing files. */
  function Judgement(fs: set<string>, run: seq<string> -> Captured, name: string, title: string,
                     partType: string, dir: string, path: string): (v: Verdict)
    ensures v.Raise? <==> '@' !in path
    ensures v.Stop? <==> '@' in path && Join(dir, title + "@" + TagOf(path, partType).value + ".doing.txt") in fs
    ensures v.Use? ==> run(ListSnapshot(name + "@" + TagOf(path, partType).value)).Stdout?
  {
    match TagOf(path, partType)
    case None => Raise("IndexError")
    case Some(tag) =>
      if Join(dir, title + "@" + tag + ".doing.txt") in fs then Stop
      else match run(ListSnapshot(name + "@" + tag))
        case Raised => Skip
        case Stdout(out) => if |out| > 0 && Words(out) != [] then Use(Words(out)[0]) else Skip
  }

  function Judge(fs: set<string>, run: seq<string> -> Captured, name: string, title: string,
                 partType: string, dir: string): string -> Verdict
  {
    path => Judgement(fs, run, name, title, partType, dir, path)
  }

  /** `f'{file_title}*.{part_type}.gz'` without the title. */
  function Suffix(partType: string): string
  {
    "." + partType + ".gz"
  }

  /** The answer of `from_tag_incremental(name, file_title, part_type, directory)`. */
  ghost function BaseOf(fs: set<string>, run: seq<string> -> Captured, name: string, title: string,
                        partType: string, dir: string): Result<Base>
  {
    Resolution(fs, dir, title, Suffix(partType), Judge(fs, run, name, title, partType, dir))
  }

  /** `from_tag_incremental`: glob, return early on no match, `sort()` and
      `reverse()` in place, then the loop with its early returns. */
  method FromTagIncremental(fs: set<string>, run: seq<string> -> Captured, name: string, title: string,
                            partType: string, dir: string) returns (r: Result<Base>)
    ensures r == BaseOf(fs, run, name, title, partType, dir)
  {
    var c := Candidates(fs, dir, title, Suffix(partType));
    var files := ListCandidates(fs, dir, title, Suffix(partType));
    if files.Length == 0 {
      assert multiset(c) == multiset{};
      assert c == {};
      NoCandidatesNoBase(fs, dir, title, Suffix(partType), Judge(fs, run, name, title, partType, dir));
      return Ok(NO_BASE);
    }
    SortAscending(files);
    ghost var ascending := files[..];
    Reverse(files);
    ReversedAscending(ascending);
    OrderedSorts(c);
    DescendingUnique(files[..], Ordered(c));
    r := FirstUsable(files, Judge(fs, run, name, title, partType, dir));
  }

  /** What a non-empty answer is made of: a candidate artifact with no marker
      whose snapshot lookup printed a first word, which is the tag; every
      newer candidate (larger name) was skipped. */
  lemma ResolvedBase(fs: set<string>, run: seq<string> -> Captured, name: string, title: string,
                     partType: string, dir: string)
    requires BaseOf(fs, run, name, title, partType, dir).Ok?
    requires BaseOf(fs, run, name, title, partType, dir).value != NO_BASE
    ensures var b := BaseOf(fs, run, name, title, partType, dir).value;
      && b.fileName in Candidates(fs, dir, title, Suffix(partType))
      && TagOf(b.fileName, partType).Some?
      && var tag := TagOf(b.fileName, partType).value;
      && Join(dir, title + "@" + tag + ".doing.txt") !in fs
      && run(ListSnapshot(name + "@" + tag)).Stdout?
      && var out := run(ListSnapshot(name + "@" + tag)).text;
      && Words(out) != [] && b.tag == Words(out)[0]
      && forall g :: g in Candidates(fs, dir, title, Suffix(partType)) && Below(b.fileName, g) ==>
           Judgement(fs, run, name, title, partType, dir, g) == Skip
  {
    ResolvedCandidate(fs, dir, title, Suffix(partType), Judge(fs, run, name, title, partType, dir));
  }

  /** A marker on the newest candidates not skipped gives the empty answer,
      and older candidates are never looked up. */
  lemma MarkerStopsSearch(fs: set<string>, run: seq<string> -> Captured, name: string, title: string,
                          partType: string, dir: string, f: string, tag: string)
    requires f in Candidates(fs, dir, title, Suffix(partType))
    requires TagOf(f, partType) == Some(tag) && Join(dir, title + "@" + tag + ".doing.txt") in fs
    requires forall g :: g in Candidates(fs, dir, title, Suffix(partType)) && Below(f, g) ==>
               Judgement(fs, run, name, title, partType, dir, g) == Skip
    ensures BaseOf(fs, run, name, title, partType, dir) == Ok(NO_BASE)
  {
    DecidedBy(fs, dir, title, Suffix(partType), Judge(fs, run, name, title, partType, dir), f);
  }

  /** With no candidate artifact the answer is the empty result: a full backup. */
  lemma NoArtifactNoBase(fs: set<string>, run: seq<string> -> Captured, name: string, title: string,
                         partType: string, dir: string)
    requires Candidates(fs, dir, title, Suffix(partType)) == {}
    ensures BaseOf(fs, run, name, title, partType, dir) == Ok(NO_BASE)
  {
    NoCandidatesNoBase(fs, dir, title, Suffix(partType), Judge(fs, run, name, title, partType, dir));
  }

  /** A name that begins with a slash-free title is joined below `dir`. */
  lemma JoinTitled(dir: string, title: string, rest: string)
    requires '/' !in title
    ensures Join(dir, title + "@" + rest) == Sep(dir) + title + "@" + rest
  {
    var n := title + "@" + rest;
    if title == [] {
      assert n[0] == '@';
    } else {
      assert n[0] == title[0];
    }
  }

  /** The path of an artifact, full or incremental, and of its marker. */
  lemma ArtifactPaths(dir: string, title: string, fd: string, incremental: bool)
    requires '/' !in title && PlainStem(Sep(dir) + title + "@" + fd)
    ensures var n := if incremental then IncrementalName(title, fd) else FileName(title, fd);
      var ext := if incremental then ".incremental.zfs.gz" else ".zfs.gz";
      && Join(dir, n) == Sep(dir) + title + "@" + fd + ext
      && MarkerOf(Join(dir, n)) == Join(dir, title + "@" + fd + ".doing.txt")
  {
    var stem := Sep(dir) + title + "@" + fd;
    var ext := if incremental then ".incremental.zfs.gz" else ".zfs.gz";
    JoinTitled(dir, title, fd + ext);
    JoinTitled(dir, title, fd + ".doing.txt");
    assert title + "@" + fd + ext == title + "@" + (fd + ext);
    assert title + "@" + fd + ".doing.txt" == title + "@" + (fd + ".doing.txt");
    assert Sep(dir) + title + "@" + (fd + ext) == stem + ext;
    assert Sep(dir) + title + "@" + (fd + ".doing.txt") == stem + ".doing.txt";
    if incremental {
      MarkerOfIncremental(stem);
    } else {
      MarkerOfFull(stem);
    }
  }

  /** The marker the send step creates for an artifact, full or incremental,
      is the file the resolver looks for when it reaches that artifact, so an
      unfinished transfer stops the search. */
  lemma WrittenMarkerStops(fs: set<string>, run: seq<string> -> Captured, name: string, title: string,
                           dir: string, fd: string, incremental: bool)
    requires '@' !in Sep(dir) + title && '@' !in fd && '/' !in title
    requires PlainStem(Sep(dir) + title + "@" + fd)
    requires var n := if incremental then IncrementalName(title, fd) else FileName(title, fd);
      MarkerOf(Join(dir, n)) in fs
    ensures var n := if incremental then IncrementalName(title, fd) else FileName(title, fd);
      Judgement(fs, run, name, title, "zfs", dir, Join(dir, n)) == Stop
  {
    ArtifactPaths(dir, title, fd, incremental);
    NoStartSuffix(Sep(dir) + title + "@", fd, ".incremental");
    NoStartSuffix(Sep(dir) + title + "@", fd, ".zfs.gz");
    TagOfArtifact(Sep(dir) + title, fd, incremental);
  }

  // --------------------------------------------------------- snapshot data

  /** The record `get_snapshot_data(name, part_type)` returns, with the
      globals `path` and `workname` and the time `datetime.now()` read as
      parameters; an exception from the resolver leaves the function. The
      `file_name_incremental` test compares the resolver's dictionary with
      `None` and `""`, which it never equals, so the incremental name is
      always filled in, built by the replace of line 33 as written. */
  ghost function SnapshotDataOf(fs: set<string>, run: seq<string> -> Captured, path: string,
                                workname: string, name: string, partType: string, t: DateTime): Result<SnapshotData>
    requires t.Valid()
  {
    var title := Title(name);
    var fd := FormattedDate(workname, t);
    var directory := Join(path, title);
    match BaseOf(fs, run, name, title, partType, directory)
    case Err(e) => Err(e)
    case Ok(base) =>
      Ok(SnapshotData(title, name + "@" + fd, FileName(title, fd),
                      IncrementalNameAsWritten(FileName(title, fd), partType), base, directory))
  }

  method GetSnapshotData(fs: set<string>, run: seq<string> -> Captured, path: string,
                         workname: string, name: string, partType: string, t: DateTime)
    returns (r: Result<SnapshotData>)
    requires t.Valid()
    ensures r == SnapshotDataOf(fs, run, path, workname, name, partType, t)
  {
    var title := Title(name);
    var fd := FormattedDate(workname, t);
    var fileName := FileName(title, fd);
    var fileNameIncremental := IncrementalNameAsWritten(fileName, partType);
    var directory := Join(path, title);
    var fromTag := FromTagIncremental(fs, run, name, title, partType, directory);
    if fromTag.Err? {
      return Err(fromTag.error);
    }
    return Ok(SnapshotData(title, name + "@" + fd, fileName, fileNameIncremental, fromTag.value, directory));
  }

  /** The record's names: a title without `/`, the snapshot tag
      `{name}@{workname}_{date}`, a full name ending in `.zfs.gz` whatever the
      partition type, an incremental name always present, and the volume's
      directory under `path`. The incremental name is the replace as written;
      it is `{title}@{date}.incremental.zfs.gz` when the partition type is
      `zfs` and no `zfs` can begin in the title or the date. */
  lemma SnapshotDataNames(fs: set<string>, run: seq<string> -> Captured, path: string,
                          workname: string, name: string, partType: string, t: DateTime)
    requires t.Valid()
    requires SnapshotDataOf(fs, run, path, workname, name, partType, t).Ok?
    ensures var d := SnapshotDataOf(fs, run, path, workname, name, partType, t).value;
      var fd := FormattedDate(workname, t);
      && '/' !in d.fileTitle
      && d.tag == name + "@" + fd
      && d.fileName == d.fileTitle + "@" + fd + ".zfs.gz"
      && d.fileNameIncremental == IncrementalNameAsWritten(d.fileName, partType)
      && d.fileNameIncremental != ""
      && (partType == "zfs" && NoStart(d.fileTitle + "@" + fd, "zfs") ==>
            d.fileNameIncremental == d.fileTitle + "@" + fd + ".incremental.zfs.gz")
      && d.directory == Join(path, d.fileTitle)
      && Ok(d.fromTagIncremental) == BaseOf(fs, run, name, d.fileTitle, partType, d.directory)
  {
    var d := SnapshotDataOf(fs, run, path, workname, name, partType, t).value;
    var fd := FormattedDate(workname, t);
    if partType == "zfs" && NoStart(d.fileTitle + "@" + fd, "zfs") {
      AsWrittenAgrees(d.fileTitle, fd);
    }
  }

  /** For a dataset whose title begins with `zfs`, the record's incremental
      name is one the resolver's glob never lists: later runs cannot base an
      incremental backup on an artifact sent under it. */
  lemma SnapshotDataEscapesGlob(fs: set<string>, run: seq<string> -> Captured, path: string,
                                workname: string, name: string, t: DateTime)
    requires t.Valid()
    requires SnapshotDataOf(fs, run, path, workname, name, "zfs", t).Ok?
    requires Contains(Title(name), "zfs")
    ensures var d := SnapshotDataOf(fs, run, path, workname, name, "zfs", t).value;
      !GlobMatch(d.fileNameIncremental, d.fileTitle, ".zfs.gz")
  {
    var title := Title(name);
    var fd := FormattedDate(workname, t);
    assert FileName(title, fd)[..|title|] == title;
    ReplaceBreaksPrefix(FileName(title, fd), title, "zfs", "incremental." + "zfs");
    assert SnapshotDataOf(fs, run, path, workname, name, "zfs", t).value.fileNameIncremental
        == Replace(FileName(title, fd), "zfs", "incremental." + "zfs");
  }

  /** `get_snapshot_data` fails exactly when the resolver raises. */
  lemma SnapshotDataFails(fs: set<string>, run: seq<string> -> Captured, path: string,
                          workname: string, name: string, partType: string, t: DateTime)
    requires t.Valid()
    ensures SnapshotDataOf(fs, run, path, workname, name, partType, t).Err? <==>
      BaseOf(fs, run, name, Title(name), partType, Join(path, Title(name))).Err?
  {
  }

  // ------------------------------------------------------------- listing

  /** A dataset to back up: `get_snapshot`'s dictionary. */
  datatype Volume = Volume(name: string, mountpoint: string, mounted: string, snapshot: SnapshotData)

  /** `get_snapshot(i, part_type)` for the fields `i` of a listing row. */
  ghost function VolumeOf(fs: set<string>, run: seq<string> -> Captured, path: string, workname: string,
                          row: seq<string>, partType: string, t: DateTime): Result<Volume>
    requires |row| >= 3 && t.Valid()
  {
    match SnapshotDataOf(fs, run, path, workname, row[0], partType, t)
    case Err(e) => Err(e)
    case Ok(d) => Ok(Volume(row[0], row[1], row[2], d))
  }

  /** `get_snapshot` fails exactly when the resolver raises, with its
      exception; otherwise the volume keeps the row's fields and its
      snapshot is tagged and titled from the row's dataset name. */
  lemma VolumeCarriesSnapshot(fs: set<string>, run: seq<string> -> Captured, path: string, workname: string,
                              row: seq<string>, partType: string, t: DateTime)
    requires |row| >= 3 && t.Valid()
    ensures var v := VolumeOf(fs, run, path, workname, row, partType, t);
      var base := BaseOf(fs, run, row[0], Title(row[0]), partType, Join(path, Title(row[0])));
      && (v.Err? <==> base.Err?)
      && (v.Err? ==> v.error == base.error)
      && (v.Ok? ==> && v.value.name == row[0] && v.value.mountpoint == row[1] && v.value.mounted == row[2]
                    && v.value.snapshot.tag == row[0] + "@" + FormattedDate(workname, t)
                    && v.value.snapshot.fileTitle == Title(row[0])
                    && v.value.snapshot.fromTagIncremental == base.value)
  {
  }

  method GetSnapshot(fs: set<string>, run: seq<string> -> Captured, path: string, workname: string,
                     row: seq<string>, partType: string, t: DateTime) returns (r: Result<Volume>)
    requires |row| >= 3 && t.Valid()
    ensures r == VolumeOf(fs, run, path, workname, row, partType, t)
  {
    var d := GetSnapshotData(fs, run, path, workname, row[0], partType, t);
    if d.Err? {
      return Err(d.error);
    }
    return Ok(Volume(row[0], row[1], row[2], d.value));
  }

  /** The filesystem filter: mountpoint not `legacy`, no `tmp` in the name,
      mounted `yes`, all compared in lower case. */
  predicate KeepFilesystem(w: seq<string>)
    requires |w| == 3
  {
    Lower(w[1]) != "legacy" && !Contains(Lower(w[0]), "tmp") && Lower(w[2]) == "yes"
  }

  /** The volume filter: no `swap` in the name and not the header's `NAME`. */
  predicate KeepVolume(w: seq<string>)
    requires |w| == 3
  {
    !Contains(Lower(w[0]), "swap") && Lower(w[0]) != "name"
  }

  /** Both filters read their fields through `.lower()`, so a row is kept or
      dropped whatever the case of its letters. */
  lemma {:induction false} FiltersIgnoreCase(w: seq<string>)
    requires |w| == 3
    ensures KeepFilesystem(w) <==> KeepFilesystem([Lower(w[0]), Lower(w[1]), Lower(w[2])])
    ensures KeepVolume(w) <==> KeepVolume([Lower(w[0]), Lower(w[1]), Lower(w[2])])
  {
    LowerTwice(w[0]);
    LowerTwice(w[1]);
    LowerTwice(w[2]);
  }

  lemma LowerTwice(s: string)
    ensures Lower(Lower(s)) == Lower(s)
  {
  }

  predicate Keeps(w: seq<string>, volumes: bool)
  {
    |w| == 3 && if volumes then KeepVolume(w) else KeepFilesystem(w)
  }

  /** The fields of the listing lines that have exactly three fields and pass
      the filter, in listing order. */
  function Selected(lines: seq<string>, volumes: bool): (rows: seq<seq<string>>)
    ensures |rows| <= |lines|
    ensures forall r :: r in rows ==> |r| == 3
  {
    if lines == [] then []
    else
      var w := Words(lines[0]);
      (if Keeps(w, volumes) then [w] else []) + Selected(lines[1..], volumes)
  }

  /** A row is selected exactly when some line splits into it and it passes. */
  lemma {:induction false} SelectedMembership(lines: seq<string>, volumes: bool, w: seq<string>)
    ensures w in Selected(lines, volumes) <==>
      Keeps(w, volumes) && exists i :: 0 <= i < |lines| && Words(lines[i]) == w
  {
    if lines != [] {
      SelectedMembership(lines[1..], volumes, w);
      if exists i :: 0 <= i < |lines| && Words(lines[i]) == w {
        var i :| 0 <= i < |lines| && Words(lines[i]) == w;
        if i > 0 {
          assert Words(lines[1..][i - 1]) == w;
        }
      }
      if exists i :: 0 <= i < |lines[1..]| && Words(lines[1..][i]) == w {
        var i :| 0 <= i < |lines[1..]| && Words(lines[1..][i]) == w;
        assert Words(lines[i + 1]) == w;
      }
    }
  }

  /** Filtering keeps the listing's order: it distributes over concatenation. */
  lemma {:induction false} SelectedAppend(a: seq<string>, b: seq<string>, volumes: bool)
    ensures Selected(a + b, volumes) == Selected(a, volumes) + Selected(b, volumes)
  {
    if a == [] {
      assert a + b == b;
    } else {
      assert (a + b)[1..] == a[1..] + b;
      SelectedAppend(a[1..], b, volumes);
    }
  }

  /** The header row of either listing is never backed up. */
  lemma HeaderDropped(mountpoint: string, mounted: string)
    ensures !Keeps(["NAME", mountpoint, "MOUNTED"], false)
    ensures !Keeps(["NAME", mountpoint, mounted], true)
  {
    assert Lower("MOUNTED") == "mounted";
    assert Lower("NAME") == "name";
  }

  /** `['zfs', 'list', '-t', 'filesystem', '-o' ,'name,mountpoint,mounted']`. */
  const FILESYSTEM_LISTING := ["zfs", "list", "-t", "filesystem", "-o", "name,mountpoint,mounted"]
  /** The same command after `zfs_list[3]='volume'`. */
  const VOLUME_LISTING := FILESYSTEM_LISTING[3 := "volume"]

  /** The list `vs` followed by the outcome `r` of the rest of a
      comprehension, or the exception that ended it. */
  function Prepend(vs: seq<Volume>, r: Result<seq<Volume>>): Result<seq<Volume>>
  {
    if r.Err? then r else Ok(vs + r.value)
  }

  lemma PrependEmpty(r: Result<seq<Volume>>)
    ensures Prepend([], r) == r
  {
    if r.Ok? {
      assert [] + r.value == r.value;
    }
  }

  lemma PrependTwice(vs: seq<Volume>, ws: seq<Volume>, r: Result<seq<Volume>>)
    ensures Prepend(vs, Prepend(ws, r)) == Prepend(vs + ws, r)
  {
    if r.Ok? {
      assert vs + (ws + r.value) == vs + ws + r.value;
    }
  }

  /** A list comprehension whose element calls came out as `attempts`, in
      order: the first exception leaves it, else it is the list of values. */
  function Gather(attempts: seq<Result<Volume>>): Result<seq<Volume>>
  {
    if attempts == [] then Ok([])
    else if attempts[0].Err? then Err(attempts[0].error)
    else Prepend([attempts[0].value], Gather(attempts[1..]))
  }

  /** The comprehension succeeds exactly when every call does, and then holds
      each call's value at its position. */
  lemma {:induction false} GatherOk(attempts: seq<Result<Volume>>)
    ensures Gather(attempts).Ok? <==> forall k :: 0 <= k < |attempts| ==> attempts[k].Ok?
    ensures Gather(attempts).Ok? ==>
      |Gather(attempts).value| == |attempts| &&
      forall k :: 0 <= k < |attempts| ==> Ok(Gather(attempts).value[k]) == attempts[k]
  {
    if attempts != [] {
      GatherOk(attempts[1..]);
      if !attempts[0].Ok? {
        assert !(forall k :: 0 <= k < |attempts| ==> attempts[k].Ok?);
      } else if forall k :: 0 <= k < |attempts| ==> attempts[k].Ok? {
        forall k | 0 <= k < |attempts[1..]|
          ensures attempts[1..][k].Ok?
        {
          assert attempts[1..][k] == attempts[k + 1];
        }
        var rest := Gather(attempts[1..]).value;
        forall k | 0 < k < |attempts|
          ensures Ok(([attempts[0].value] + rest)[k]) == attempts[k]
        {
          assert attempts[1..][k - 1] == attempts[k];
        }
      } else {
        var k :| 0 <= k < |attempts| && !attempts[k].Ok?;
        assert attempts[1..][k - 1] == attempts[k];
      }
    }
  }

  /** A failed comprehension raises the exception of its first failing call. */
  lemma {:induction false} GatherErr(attempts: seq<Result<Volume>>)
    requires Gather(attempts).Err?
    ensures exists k :: 0 <= k < |attempts| && attempts[k] == Err(Gather(attempts).error) &&
                        forall j :: 0 <= j < k ==> attempts[j].Ok?
  {
    if attempts[0].Err? {
      assert attempts[0] == Err(Gather(attempts).error);
    } else {
      GatherErr(attempts[1..]);
      var k :| 0 <= k < |attempts[1..]| && attempts[1..][k] == Err(Gather(attempts[1..]).error) &&
        forall j :: 0 <= j < k ==> attempts[1..][j].Ok?;
      forall j | 0 <= j < k + 1
        ensures attempts[j].Ok?
      {
        if j > 0 {
          assert attempts[j] == attempts[1..][j - 1];
        }
      }
      assert attempts[k + 1] == Err(Gather(attempts).error);
    }
  }

  /** The comprehension from its `i`-th call on. */
  lemma GatherFrom(attempts: seq<Result<Volume>>, i: nat)
    requires i < |attempts|
    ensures Gather(attempts[i..]) ==
      if attempts[i].Err? then Err(attempts[i].error) else Prepend([attempts[i].value], Gather(attempts[i + 1..]))
  {
    assert attempts[i..][0] == attempts[i];
    assert attempts[i..][1..] == attempts[i + 1..];
  }

  /** `get_snapshot(i, 'zfs')` for a row `i` at the `n`-th reading of the
      clock; a row of fewer than three fields raises on its indexing. */
  ghost function Snapshots(fs: set<string>, run: seq<string> -> Captured, path: string, workname: string,
                           clock: nat -> Instant): (seq<string>, nat) -> Result<Volume>
  {
    (row: seq<string>, n: nat) =>
      if |row| < 3 then Err("IndexError") else VolumeOf(fs, run, path, workname, row, "zfs", clock(n))
  }

  lemma SnapshotsAt(fs: set<string>, run: seq<string> -> Captured, path: string, workname: string,
                    clock: nat -> Instant, row: seq<string>, n: nat)
    requires |row| >= 3
    ensures Snapshots(fs, run, path, workname, clock)(row, n) == VolumeOf(fs, run, path, workname, row, "zfs", clock(n))
  {
  }

  /** The calls `snap` makes for the comprehension over `rows`, the `k`-th row
      at clock reading `from + k`. */
  function Attempts(rows: seq<seq<string>>, snap: (seq<string>, nat) -> Result<Volume>, from: nat)
    : (attempts: seq<Result<Volume>>)
    ensures |attempts| == |rows|
    ensures forall k :: 0 <= k < |rows| ==> attempts[k] == snap(rows[k], from + k)
  {
    seq(|rows|, k requires 0 <= k < |rows| => snap(rows[k], from + k))
  }

  /** `[get_snapshot(i, 'zfs') for i in rows]`, a loop over the rows. */
  method GetSnapshots(fs: set<string>, run: seq<string> -> Captured, path: string, workname: string,
                      rows: seq<seq<string>>, clock: nat -> Instant, from: nat)
    returns (r: Result<seq<Volume>>)
    requires forall r :: r in rows ==> |r| >= 3
    ensures r == Gather(Attempts(rows, Snapshots(fs, run, path, workname, clock), from))
  {
    ghost var attempts := Attempts(rows, Snapshots(fs, run, path, workname, clock), from);
    var vs: seq<Volume> := [];
    var i := 0;
    assert attempts[0..] == attempts;
    PrependEmpty(Gather(attempts));
    while i < |rows|
      invariant 0 <= i <= |rows|
      invariant Gather(attempts) == Prepend(vs, Gather(attempts[i..]))
    {
      GatherFrom(attempts, i);
      var v := GetSnapshot(fs, run, path, workname, rows[i], "zfs", clock(from + i));
      SnapshotsAt(fs, run, path, workname, clock, rows[i], from + i);
      if v.Err? {
        return Err(v.error);
      }
      PrependTwice(vs, [v.value], Gather(attempts[i + 1..]));
      vs := vs + [v.value];
      i := i + 1;
    }
    assert attempts[i..] == [] && vs + [] == vs;
    return Ok(vs);
  }

  /** What `zfs_list()` returns when `snap` is `get_snapshot`: the kept
      filesystems, then the kept volumes; a listing command that raises, or a
      `get_snapshot` call that raises, leaves the function. */
  function ListingOf(run: seq<string> -> Captured, snap: (seq<string>, nat) -> Result<Volume>)
    : Result<seq<Volume>>
  {
    match run(FILESYSTEM_LISTING)
    case Raised => Err("CalledProcessError")
    case Stdout(out1) =>
      var rows1 := Selected(Split(out1, '\n'), false);
      match Gather(Attempts(rows1, snap, 0))
      case Err(e) => Err(e)
      case Ok(filesystem) =>
        match run(VOLUME_LISTING)
        case Raised => Err("CalledProcessError")
        case Stdout(out2) =>
          var rows2 := Selected(Split(out2, '\n'), true);
          match Gather(Attempts(rows2, snap, |rows1|))
          case Err(e) => Err(e)
          case Ok(volume) => Ok(filesystem + volume)
  }

  /** `zfs_list()`: one listing command, its argument vector then changed in
      place for the second. */
  method ZfsList(fs: set<string>, run: seq<string> -> Captured, path: string, workname: string,
                 clock: nat -> Instant) returns (r: Result<seq<Volume>>)
    ensures r == ListingOf(run, Snapshots(fs, run, path, workname, clock))
  {
    var argv := FILESYSTEM_LISTING;
    var out := run(argv);
    match out {
      case Raised => r := Err("CalledProcessError");
      case Stdout(text) =>
        var rows := Selected(Split(text, '\n'), false);
        var filesystem := GetSnapshots(fs, run, path, workname, rows, clock, 0);
        match filesystem {
          case Err(e) => r := Err(e);
          case Ok(filesystems) =>
            argv := argv[3 := "volume"];
            out := run(argv);
            match out {
              case Raised => r := Err("CalledProcessError");
              case Stdout(text2) =>
                var rows2 := Selected(Split(text2, '\n'), true);
                var volume := GetSnapshots(fs, run, path, workname, rows2, clock, |rows|);
                match volume {
                  case Err(e) => r := Err(e);
                  case Ok(volumes) => r := Ok(filesystems + volumes);
                }
            }
        }
    }
  }

  /** Gathering a concatenation: the first failure in the first part, or the
      first part's values before the gathering of the second. */
  lemma {:induction false} GatherConcat(a: seq<Result<Volume>>, b: seq<Result<Volume>>)
    ensures Gather(a + b) == if Gather(a).Err? then Gather(a) else Prepend(Gather(a).value, Gather(b))
  {
    if a == [] {
      assert a + b == b;
      PrependEmpty(Gather(b));
    } else {
      assert (a + b)[0] == a[0] && (a + b)[1..] == a[1..] + b;
      GatherConcat(a[1..], b);
      if a[0].Ok? && Gather(a[1..]).Ok? {
        PrependTwice([a[0].value], Gather(a[1..]).value, Gather(b));
      }
    }
  }

  /** The calls for two row lists, the second numbered after the first, are
      the calls for their concatenation. */
  lemma AttemptsConcat(rows1: seq<seq<string>>, rows2: seq<seq<string>>, snap: (seq<string>, nat) -> Result<Volume>)
    ensures Attempts(rows1 + rows2, snap, 0) == Attempts(rows1, snap, 0) + Attempts(rows2, snap, |rows1|)
  {
    var whole, parts := Attempts(rows1 + rows2, snap, 0), Attempts(rows1, snap, 0) + Attempts(rows2, snap, |rows1|);
    forall k | 0 <= k < |whole|
      ensures whole[k] == parts[k]
    {
      if k >= |rows1| {
        assert (rows1 + rows2)[k] == rows2[k - |rows1|];
      }
    }
  }

  /** When both listing commands print, `zfs_list()` is `get_snapshot` over
      the kept filesystem rows followed by the kept volume rows, numbered in
      that order, stopping at the first that raises. */
  lemma ListingFollowsRows(run: seq<string> -> Captured, snap: (seq<string>, nat) -> Result<Volume>,
                           out1: string, out2: string)
    requires run(FILESYSTEM_LISTING) == Stdout(out1) && run(VOLUME_LISTING) == Stdout(out2)
    ensures ListingOf(run, snap) ==
      Gather(Attempts(Selected(Split(out1, '\n'), false) + Selected(Split(out2, '\n'), true), snap, 0))
  {
    var rows1, rows2 := Selected(Split(out1, '\n'), false), Selected(Split(out2, '\n'), true);
    AttemptsConcat(rows1, rows2, snap);
    GatherConcat(Attempts(rows1, snap, 0), Attempts(rows2, snap, |rows1|));
  }

  /** `zfs_list()` fails when either listing command raises. */
  lemma ListingNeedsBothCommands(run: seq<string> -> Captured, snap: (seq<string>, nat) -> Result<Volume>)
    requires run(FILESYSTEM_LISTING).Raised? || run(VOLUME_LISTING).Raised?
    ensures ListingOf(run, snap).Err?
    ensures run(FILESYSTEM_LISTING).Raised? ==> ListingOf(run, snap) == Err("CalledProcessError")
  {
  }
}
