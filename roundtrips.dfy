/** How the writer in `backup.py` and the reader in `restore.py` meet: the
    sidecar an incremental send writes is the file restore looks for, and
    the base it names becomes the artifact restore replays first. */
module RoundTrips {
  import opened Common
  import opened Text
  import opened OsPath
  import opened Resolver
  import opened Naming
  import opened Backup
  import opened BackupJob
  import opened Restore

  lemma IncrementalNoBtrfs()
    ensures NoStart(".incremental", ".btrfs.gz")
  {
    NoStartByFirstChar("incremental", ".btrfs.gz");
    NoStartCons('.', "incremental", ".btrfs.gz", 1);
    assert ['.'] + "incremental" == ".incremental";
  }

  /** For an incremental artifact, the sidecar restore reads is the one the
      send step wrote. */
  lemma SidecarNamesAgree(stem: string)
    requires PlainStem(stem) && NoStart(stem, ".btrfs.gz")
    ensures SidecarPathOf(stem + ".incremental.zfs.gz") == SidecarOf(stem + ".incremental.zfs.gz")
    ensures SidecarOf(stem + ".incremental.zfs.gz") == stem + ".incremental.txt"
  {
    SidecarOfIncremental(stem);
    IncrementalNoExtension();
    IncrementalNoBtrfs();
    NoStartConcat(stem, ".incremental", ".zfs.gz");
    NoStartConcat(stem, ".incremental", ".btrfs.gz");
    SidecarPathOfArtifact(stem + ".incremental", false);
    assert stem + ".incremental" + ".zfs.gz" == stem + ".incremental.zfs.gz";
    assert stem + ".incremental" + ".txt" == stem + ".incremental.txt";
  }

  /** The shape of the names the round trip needs: the artifact is
      `{stem}.incremental.zfs.gz` in a directory named without a trailing
      slash, and the base is a file of that directory whose path has no
      white space at either end. */
  predicate Placed(s: SnapshotData, stem: string)
  {
    var dir := s.directory;
    var base := s.fromTagIncremental.fileName;
    && PlainStem(stem) && NoStart(stem, ".btrfs.gz")
    && DestOf(s, true) == stem + ".incremental.zfs.gz"
    && dir != [] && dir[|dir| - 1] != '/'
    && '/' !in s.fileNameIncremental
    && InDir(base, dir)
    && !IsSpace(base[0]) && !IsSpace(base[|base| - 1])
  }

  /** After an incremental send, restore takes the base the resolver chose as
      the new artifact's parent: the full path stored in the sidecar comes
      back as the same file of the same directory. */
  lemma RestoreFindsBase(d: Disk, s: SnapshotData, stem: string)
    requires Placed(s, stem)
    ensures ParentOf(AfterSend(d, s, true).text, DestOf(s, true)) == Some(s.fromTagIncremental.fileName)
  {
    var dir := s.directory;
    var base := s.fromTagIncremental.fileName;
    var m := base[|Sep(dir)|..];
    assert base == Sep(dir) + m;
    assert m[0] != '/';
    assert Join(dir, m) == base;
    BasenameOfJoin(dir, m);
    SidecarNamesAgree(stem);
    SidecarHoldsBase(d, s, true, stem);
    ParentIsSibling(AfterSend(d, s, true).text, dir, s.fileNameIncremental, base, m);
  }

  /** The send changes no file's text except its marker, its sidecar and its
      artifact. */
  lemma SendKeepsOtherText(d: Disk, s: SnapshotData, x: string)
    requires x != MarkerOf(DestOf(s, true)) && x != SidecarOf(DestOf(s, true)) && x != DestOf(s, true)
    ensures x in AfterSend(d, s, true).text <==> x in d.text
    ensures x in d.text ==> AfterSend(d, s, true).text[x] == d.text[x]
  {
  }

  /** Two file systems that agree on an artifact's sidecar agree on its parent. */
  lemma SameSidecarSameParent(t1: map<string, string>, t2: map<string, string>, g: string)
    requires SidecarPathOf(g) in t1 <==> SidecarPathOf(g) in t2
    requires SidecarPathOf(g) in t1 ==> t1[SidecarPathOf(g)] == t2[SidecarPathOf(g)]
    ensures ParentOf(t1, g) == ParentOf(t2, g)
  {
  }

  /** The send changes the parent of no artifact whose sidecar it leaves alone. */
  lemma SendKeepsParents(d: Disk, s: SnapshotData, c: seq<string>)
    requires forall g :: g in c ==>
      SidecarPathOf(g) != MarkerOf(DestOf(s, true)) && SidecarPathOf(g) != SidecarOf(DestOf(s, true))
      && SidecarPathOf(g) != DestOf(s, true)
    ensures forall i :: 0 <= i < |c| ==> ParentOf(AfterSend(d, s, true).text, c[i]) == ParentOf(d.text, c[i])
  {
    forall i | 0 <= i < |c|
      ensures ParentOf(AfterSend(d, s, true).text, c[i]) == ParentOf(d.text, c[i])
    {
      assert c[i] in c;
      SendKeepsOtherText(d, s, SidecarPathOf(c[i]));
      SameSidecarSameParent(AfterSend(d, s, true).text, d.text, c[i]);
    }
  }

  /** A chain stays a chain under a relation that agrees on its parents, and
      grows by a file whose parent is its newest element. */
  lemma LinkedGrows(p1: string -> Option<string>, p2: string -> Option<string>, c: seq<string>, x: string)
    requires Linked(p1, c)
    requires forall i :: 0 <= i < |c| ==> p2(c[i]) == p1(c[i])
    requires p2(x) == Some(c[|c| - 1])
    ensures Linked(p2, c + [x])
  {
    var c' := c + [x];
    forall i | 0 < i < |c'|
      ensures p2(c'[i]) == Some(c'[i - 1])
    {
      if i < |c| {
        assert c'[i] == c[i] && c'[i - 1] == c[i - 1];
      }
    }
  }

  /** Adding a file whose parent is `b`, under a relation that agrees on the
      parents along `b`'s chain, adds one element to the chain. */
  lemma ChainGrows(p1: string -> Option<string>, p2: string -> Option<string>, b: string, x: string, k: nat)
    requires Rooted(p1, b, k)
    requires forall i :: 0 <= i < |Chain(p1, b, k)| ==> p2(Chain(p1, b, k)[i]) == p1(Chain(p1, b, k)[i])
    requires p2(x) == Some(b)
    ensures Rooted(p2, x, k + 1) && Chain(p2, x, k + 1) == Chain(p1, b, k) + [x]
  {
    var c := Chain(p1, b, k);
    ChainLinks(p1, b, k);
    LinkedGrows(p1, p2, c, x);
    ChainUnique(p2, c + [x], k + 1);
    assert (c + [x])[|c|] == x;
  }

  /** An incremental send grows the chain restore walks by exactly the new
      artifact: if the base was rooted in `k` hops and the send touches none
      of the sidecars along its chain, the new artifact is rooted in `k + 1`
      and its chain is the base's chain followed by the new artifact. */
  lemma ChainExtends(d: Disk, s: SnapshotData, stem: string, k: nat)
    requires Placed(s, stem)
    requires Rooted(Parents(d.text), s.fromTagIncremental.fileName, k)
    requires forall g :: g in Chain(Parents(d.text), s.fromTagIncremental.fileName, k) ==>
      SidecarPathOf(g) != MarkerOf(DestOf(s, true)) && SidecarPathOf(g) != SidecarOf(DestOf(s, true))
      && SidecarPathOf(g) != DestOf(s, true)
    ensures Rooted(Parents(AfterSend(d, s, true).text), DestOf(s, true), k + 1)
    ensures Chain(Parents(AfterSend(d, s, true).text), DestOf(s, true), k + 1)
         == Chain(Parents(d.text), s.fromTagIncremental.fileName, k) + [DestOf(s, true)]
  {
    var c := Chain(Parents(d.text), s.fromTagIncremental.fileName, k);
    SendKeepsParents(d, s, c);
    RestoreFindsBase(d, s, stem);
    ChainGrows(Parents(d.text), Parents(AfterSend(d, s, true).text), s.fromTagIncremental.fileName, DestOf(s, true), k);
  }
}
