/** `backup_zfs_btrfs.py`: the planning functions of `backup.py` made aware
    of the filesystem type. The artifacts of a btrfs volume end in
    `.btrfs.gz`, and a candidate is usable when its snapshot name appears in
    the subvolume listing of the volume's directory. */
module BackupZfsBtrfs {
  import opened Common
  import opened Text
  import opened OsPath
  import opened Resolver
  import opened Naming
  import Backup

  /** `'zfs.gz' if fs_type == 'zfs' else 'btrfs.gz'`: any type but `zfs`
      gets the btrfs extension. Neither begins with a dot or holds a
      separator of the artifact names. */
  function Extension(fsType: string): (e: string)
    ensures |e| > 0 && e[0] != '.' && '@' !in e && '/' !in e
  {
    if fsType == "zfs" then "zfs.gz" else "btrfs.gz"
  }

  /** `i.split("@")[1].replace(".incremental", "").replace(f".{extension}", "")`;
      `None` where the name has no `@` and the indexing raises. */
  function TagIn(path: string, ext: string): (r: Option<string>)
    ensures r.None? <==> '@' !in path
  {
    SplitHasSecond(path, '@');
    var parts := Split(path, '@');
    if |parts| < 2 then None
    else Some(Replace(Replace(parts[1], ".incremental", ""), "." + ext, ""))
  }

  /** `['btrfs', 'subvolume', 'list', directory]`. */
  function SubvolumeList(dir: string): seq<string>
  {
    ["btrfs", "subvolume", "list", dir]
  }

  /** One pass of the loop body for the candidate `path`. A marker for its
      date ends the search; otherwise zfs asks for the snapshot and takes a
      non-empty answer, btrfs lists the subvolumes and takes a listing that
      contains the snapshot name, and any other type skips: `list_cmd` is
      then unbound and the `NameError` it raises is swallowed by the bare
      `except`, like a failing lookup. The tag returned is the snapshot name. */
  function Judgement(fs: set<string>, run: seq<string> -> Captured, name: string, title: string,
                     dir: string, fsType: string, path: string): (v: Verdict)
    ensures v.Raise? <==> '@' !in path
    ensures v.Stop? <==> '@' in path && Join(dir, title + "@" + TagIn(path, Extension(fsType)).value + ".doing.txt") in fs
    ensures v.Use? ==> v.tag == name + "@" + TagIn(path, Extension(fsType)).value && fsType in {"zfs", "btrfs"}
  {
    match TagIn(path, Extension(fsType))
    case None => Raise("IndexError")
    case Some(tag) =>
      var tagName := name + "@" + tag;
      if Join(dir, title + "@" + tag + ".doing.txt") in fs then Stop
      else if fsType == "zfs" then
        match run(Backup.ListSnapshot(tagName))
        case Raised => Skip
        case Stdout(out) => if |out| > 0 then Use(tagName) else Skip
      else if fsType == "btrfs" then
        match run(SubvolumeList(dir))
        case Raised => Skip
        case Stdout(out) => if Contains(out, tagName) then Use(tagName) else Skip
      else Skip
  }

  function Judge(fs: set<string>, run: seq<string> -> Captured, name: string, title: string,
                 dir: string, fsType: string): string -> Verdict
  {
    path => Judgement(fs, run, name, title, dir, fsType, path)
  }

  /** The answer of `from_tag_incremental(name, file_title, directory, fs_type)`. */
  ghost function BaseOf(fs: set<string>, run: seq<string> -> Captured, name: string, title: string,
                        dir: string, fsType: string): Result<Base>
  {
    Resolution(fs, dir, title, "." + Extension(fsType), Judge(fs, run, name, title, dir, fsType))
  }

  /** `from_tag_incremental`: glob, return early on no match,
      `sort(reverse=True)` in place, then the loop with its early returns. */
  method FromTagIncremental(fs: set<string>, run: seq<string> -> Captured, name: string, title: string,
                            dir: string, fsType: string) returns (r: Result<Base>)
    ensures r == BaseOf(fs, run, name, title, dir, fsType)
  {
    var suffix := "." + Extension(fsType);
    var c := Candidates(fs, dir, title, suffix);
    var files := ListCandidates(fs, dir, title, suffix);
    if files.Length == 0 {
      assert multiset(c) == multiset{};
      assert c == {};
      NoCandidatesNoBase(fs, dir, title, suffix, Judge(fs, run, name, title, dir, fsType));
      return Ok(NO_BASE);
    }
    SortDescending(files);
    OrderedSorts(c);
    DescendingUnique(files[..], Ordered(c));
    r := FirstUsable(files, Judge(fs, run, name, title, dir, fsType));
  }

  /** With no candidate artifact the answer is the empty result. */
  lemma NoArtifactNoBase(fs: set<string>, run: seq<string> -> Captured, name: string, title: string,
                         dir: string, fsType: string)
    requires Candidates(fs, dir, title, "." + Extension(fsType)) == {}
    ensures BaseOf(fs, run, name, title, dir, fsType) == Ok(NO_BASE)
  {
    NoCandidatesNoBase(fs, dir, title, "." + Extension(fsType), Judge(fs, run, name, title, dir, fsType));
  }

  /** What a non-empty answer is made of: a candidate with no marker whose
      date gives the snapshot name `{name}@{tag}`, which is the answer's tag
      and which is live by the type's rule (a non-empty `zfs list` answer, or
      an occurrence in the btrfs subvolume listing); every newer candidate
      was skipped. Other filesystem types never give a base. */
  lemma ResolvedBase(fs: set<string>, run: seq<string> -> Captured, name: string, title: string,
                     dir: string, fsType: string)
    requires BaseOf(fs, run, name, title, dir, fsType).Ok?
    requires BaseOf(fs, run, name, title, dir, fsType).value != NO_BASE
    ensures var b := BaseOf(fs, run, name, title, dir, fsType).value;
      && b.fileName in Candidates(fs, dir, title, "." + Extension(fsType))
      && TagIn(b.fileName, Extension(fsType)).Some?
      && var tag := TagIn(b.fileName, Extension(fsType)).value;
      && b.tag == name + "@" + tag
      && Join(dir, title + "@" + tag + ".doing.txt") !in fs
      && (fsType == "zfs" || fsType == "btrfs")
      && (fsType == "zfs" ==> run(Backup.ListSnapshot(b.tag)).Stdout? && |run(Backup.ListSnapshot(b.tag)).text| > 0)
      && (fsType == "btrfs" ==> run(SubvolumeList(dir)).Stdout? && Contains(run(SubvolumeList(dir)).text, b.tag))
      && forall g :: g in Candidates(fs, dir, title, "." + Extension(fsType)) && Below(b.fileName, g) ==>
           Judgement(fs, run, name, title, dir, fsType, g) == Skip
  {
    ResolvedCandidate(fs, dir, title, "." + Extension(fsType), Judge(fs, run, name, title, dir, fsType));
  }

  /** A marker on the newest candidate not skipped gives the empty answer. */
  lemma MarkerStopsSearch(fs: set<string>, run: seq<string> -> Captured, name: string, title: string,
                          dir: string, fsType: string, f: string, tag: string)
    requires f in Candidates(fs, dir, title, "." + Extension(fsType))
    requires TagIn(f, Extension(fsType)) == Some(tag) && Join(dir, title + "@" + tag + ".doing.txt") in fs
    requires forall g :: g in Candidates(fs, dir, title, "." + Extension(fsType)) && Below(f, g) ==>
               Judgement(fs, run, name, title, dir, fsType, g) == Skip
    ensures BaseOf(fs, run, name, title, dir, fsType) == Ok(NO_BASE)
  {
    DecidedBy(fs, dir, title, "." + Extension(fsType), Judge(fs, run, name, title, dir, fsType), f);
  }

  /** On a filesystem that is neither zfs nor btrfs the resolver never finds a
      base: it answers empty or raises. */
  lemma UnknownTypeNoBase(fs: set<string>, run: seq<string> -> Captured, name: string, title: string,
                          dir: string, fsType: string)
    requires fsType != "zfs" && fsType != "btrfs"
    ensures BaseOf(fs, run, name, title, dir, fsType).Ok? ==> BaseOf(fs, run, name, title, dir, fsType).value == NO_BASE
  {
    if BaseOf(fs, run, name, title, dir, fsType).Ok? && BaseOf(fs, run, name, title, dir, fsType).value != NO_BASE {
      ResolvedBase(fs, run, name, title, dir, fsType);
    }
  }

  // ---------------------------------------------------------------- names

  /** `f'{file_title}@{formatted_date}.{extension}'`. */
  function FileName(title: string, fd: string, ext: string): string
  {
    title + "@" + fd + "." + ext
  }

  /** The incremental name `file_name.replace(extension, f"incremental.{extension}")`
      means to build: `incremental.` in front of the extension only. */
  function IncrementalName(title: string, fd: string, ext: string): string
  {
    title + "@" + fd + ".incremental." + ext
  }

  /** The record `get_snapshot_data(name, fs_type)` returns, with the globals
      `path` and `workname` and the time `datetime.now()` read as parameters.
      The incremental name, built by the replace of line 48 as written, is
      filled in only when the resolver found a base. */
  ghost function SnapshotDataOf(fs: set<string>, run: seq<string> -> Captured, path: string,
                                workname: string, name: string, fsType: string, t: Instant): Result<SnapshotData>
  {
    var title := Title(name);
    var fd := FormattedDate(workname, t);
    var ext := Extension(fsType);
    var directory := Join(path, title);
    match BaseOf(fs, run, name, title, directory, fsType)
    case Err(e) => Err(e)
    case Ok(base) =>
      Ok(SnapshotData(title, name + "@" + fd, FileName(title, fd, ext),
                      if base.tag != "" then Backup.IncrementalNameAsWritten(FileName(title, fd, ext), ext) else "",
                      base, directory))
  }

  method GetSnapshotData(fs: set<string>, run: seq<string> -> Captured, path: string,
                         workname: string, name: string, fsType: string, t: Instant)
    returns (r: Result<SnapshotData>)
    ensures r == SnapshotDataOf(fs, run, path, workname, name, fsType, t)
  {
    var title := Title(name);
    var fd := FormattedDate(workname, t);
    var ext := Extension(fsType);
    var fileName := FileName(title, fd, ext);
    var fileNameIncremental := Backup.IncrementalNameAsWritten(fileName, ext);
    var directory := Join(path, title);
    var fromTag := FromTagIncremental(fs, run, name, title, directory, fsType);
    if fromTag.Err? {
      return Err(fromTag.error);
    }
    return Ok(SnapshotData(title, name + "@" + fd, fileName,
                           if fromTag.value.tag != "" then fileNameIncremental else "", fromTag.value, directory));
  }

  /** `file_name_incremental` is non-empty exactly when the resolver's tag
      is; it is then the replace as written, which is the intended
      `{title}@{date}.incremental.{extension}` when the extension cannot
      begin in the title or the date. */
  lemma IncrementalNameIffBase(fs: set<string>, run: seq<string> -> Captured, path: string,
                               workname: string, name: string, fsType: string, t: Instant)
    requires SnapshotDataOf(fs, run, path, workname, name, fsType, t).Ok?
    ensures var d := SnapshotDataOf(fs, run, path, workname, name, fsType, t).value;
      && (d.fileNameIncremental != "" <==> d.fromTagIncremental.tag != "")
      && d.fileName == d.fileTitle + "@" + FormattedDate(workname, t) + "." + Extension(fsType)
      && (d.fileNameIncremental != "" ==>
            d.fileNameIncremental == Backup.IncrementalNameAsWritten(d.fileName, Extension(fsType)))
      && (d.fileNameIncremental != "" && NoStart(d.fileTitle + "@" + FormattedDate(workname, t), Extension(fsType)) ==>
            d.fileNameIncremental == d.fileTitle + "@" + FormattedDate(workname, t) + ".incremental." + Extension(fsType))
  {
    var d := SnapshotDataOf(fs, run, path, workname, name, fsType, t).value;
    var fd := FormattedDate(workname, t);
    if d.fromTagIncremental.tag != "" && NoStart(d.fileTitle + "@" + fd, Extension(fsType)) {
      AsWrittenAgrees(d.fileTitle, fd, fsType);
    }
  }

  /** A record whose title begins with the extension carries, when it has a
      base, an incremental name the resolver's glob does not list. */
  lemma SnapshotDataEscapesGlob(fs: set<string>, run: seq<string> -> Captured, path: string,
                                workname: string, name: string, fsType: string, t: Instant)
    requires SnapshotDataOf(fs, run, path, workname, name, fsType, t).Ok?
    requires SnapshotDataOf(fs, run, path, workname, name, fsType, t).value.fromTagIncremental.tag != ""
    requires Contains(Title(name), Extension(fsType))
    ensures var d := SnapshotDataOf(fs, run, path, workname, name, fsType, t).value;
      !GlobMatch(d.fileNameIncremental, d.fileTitle, "." + Extension(fsType))
  {
    var ext := Extension(fsType);
    var title := Title(name);
    var fd := FormattedDate(workname, t);
    assert FileName(title, fd, ext)[..|title|] == title;
    ReplaceBreaksPrefix(FileName(title, fd, ext), title, ext, "incremental." + ext);
  }

  // ------------------------------------------------------------ round trip

  /** Text before an artifact's extension in which neither `.incremental` nor
      `.{ext}` can begin. */
  predicate PlainStem(stem: string, ext: string)
  {
    NoStart(stem, ".incremental") && NoStart(stem, "." + ext)
  }

  /** The two extensions do not contain `.incremental`. */
  lemma ExtensionsKeepIncremental(fsType: string)
    ensures Replace("." + Extension(fsType), ".incremental", "") == "." + Extension(fsType)
  {
    if fsType == "zfs" {
      Backup.DropIncremental();
    } else {
      var g := ['.'] + "gz";
      NoStartByFirstChar("gz", ".incremental");
      NoStartCons('.', "gz", ".incremental", 1);
      NoStartByFirstChar("btrfs", ".incremental");
      NoStartConcat("btrfs", g, ".incremental");
      NoStartCons('.', "btrfs" + g, ".incremental", 1);
      assert ['.'] + ("btrfs" + g) == ".btrfs.gz";
      ReplaceAbsent(".btrfs.gz", ".incremental", "");
    }
  }

  /** Removing `.incremental` and then `.{ext}` from what follows the `@`
      leaves the date. */
  lemma DateOfName(fd: string, fsType: string, incremental: bool)
    requires PlainStem(fd, Extension(fsType))
    ensures var ext := Extension(fsType);
      var tail := if incremental then ".incremental." + ext else "." + ext;
      Replace(Replace(fd + tail, ".incremental", ""), "." + ext, "") == fd
  {
    var ext := Extension(fsType);
    var dotExt := "." + ext;
    ExtensionsKeepIncremental(fsType);
    if incremental {
      assert ".incremental." + ext == ".incremental" + dotExt;
      ReplaceAfter(fd, ".incremental" + dotExt, ".incremental", "");
      ReplaceLeading(".incremental", dotExt, "");
      assert "" + dotExt == dotExt;
    } else {
      ReplaceAfter(fd, dotExt, ".incremental", "");
    }
    ReplaceAfter(fd, dotExt, dotExt, "");
    ReplaceLeading(dotExt, "", "");
    assert dotExt + "" == dotExt;
    assert fd + "" == fd;
  }

  /** The tag the resolver reads back from an artifact named by
      `get_snapshot_data`, full or incremental, is the date the artifact was
      named with, so the snapshot name it answers is the `tag` the record
      was created with. This needs a directory and title without `@`, and a
      date in which `.incremental` and `.{ext}` cannot begin. */
  lemma TagRoundTrip(dir: string, title: string, name: string, fd: string, fsType: string, incremental: bool)
    requires '@' !in Sep(dir) + title && '@' !in fd && '/' !in title
    requires PlainStem(fd, Extension(fsType))
    ensures var ext := Extension(fsType);
      var n := if incremental then IncrementalName(title, fd, ext) else FileName(title, fd, ext);
      && TagIn(Join(dir, n), ext) == Some(fd)
      && name + "@" + TagIn(Join(dir, n), ext).value == name + "@" + fd
  {
    var ext := Extension(fsType);
    var tail := if incremental then ".incremental." + ext else "." + ext;
    var n := if incremental then IncrementalName(title, fd, ext) else FileName(title, fd, ext);
    assert n == title + "@" + (fd + tail);
    Backup.JoinTitled(dir, title, fd + tail);
    assert Join(dir, n) == (Sep(dir) + title) + "@" + (fd + tail);
    assert '@' !in tail by {
      assert '@' !in ext;
    }
    Backup.AfterTheAt(Sep(dir) + title, fd + tail);
    DateOfName(fd, fsType, incremental);
  }

  // ------------------------------------------------------------- findings

  /** For a title that begins with the extension, the name as written does
      not begin with the title, so the glob `{title}*.{extension}` never
      lists it and later runs never base a backup on it. */
  lemma AsWrittenEscapesGlob(fsType: string, rest: string, fd: string)
    ensures var ext := Extension(fsType);
      !GlobMatch(Backup.IncrementalNameAsWritten(FileName(ext + rest, fd, ext), ext), ext + rest, "." + ext)
  {
    var ext := Extension(fsType);
    var title := ext + rest;
    assert FileName(title, fd, ext) == ext + (rest + "@" + fd + "." + ext);
    ReplaceLeading(ext, rest + "@" + fd + "." + ext, "incremental." + ext);
    var n := Backup.IncrementalNameAsWritten(FileName(title, fd, ext), ext);
    assert n[0] == 'i';
    assert title[0] == ext[0];
  }

  /** Where the extension cannot begin in the title or the date, the name as
      written is the intended one. */
  lemma AsWrittenAgrees(title: string, fd: string, fsType: string)
    requires NoStart(title + "@" + fd, Extension(fsType))
    ensures var ext := Extension(fsType);
      Backup.IncrementalNameAsWritten(FileName(title, fd, ext), ext) == IncrementalName(title, fd, ext)
  {
    var ext := Extension(fsType);
    var stem := title + "@" + fd;
    assert FileName(title, fd, ext) == stem + ("." + ext);
    assert IncrementalName(title, fd, ext) == stem + ("." + ("incremental." + ext));
    PrefixExtension(stem, ext);
  }

  /** The replace of one extension that ends the text, after a stem in which
      it cannot begin. */
  lemma PrefixExtension(stem: string, ext: string)
    requires |ext| > 0 && ext[0] != '.' && NoStart(stem, ext)
    ensures Replace(stem + ("." + ext), ext, "incremental." + ext) == stem + ("." + ("incremental." + ext))
  {
    var rep := "incremental." + ext;
    ReplaceAfter(stem, "." + ext, ext, rep);
    assert "." + ext == ['.'] + ext;
    ReplaceSkip('.', ext, ext, rep);
    ReplaceLeading(ext, [], rep);
    assert ext + [] == ext;
    assert Replace([], ext, rep) == [];
    assert rep + [] == rep;
  }

  /** The intended names are listed by the resolver's glob. */
  lemma NamesMatchGlob(title: string, fd: string, fsType: string)
    ensures var ext := Extension(fsType);
      && GlobMatch(FileName(title, fd, ext), title, "." + ext)
      && GlobMatch(IncrementalName(title, fd, ext), title, "." + ext)
  {
    var ext := Extension(fsType);
    assert FileName(title, fd, ext)[|title|] == '@';
    assert IncrementalName(title, fd, ext)[|title|] == '@';
    assert FileName(title, fd, ext)[..|title|] == title;
    assert IncrementalName(title, fd, ext)[..|title|] == title;
  }
}
