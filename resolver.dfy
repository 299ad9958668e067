/** The scan shared by both versions of `from_tag_incremental`: list the
    candidate artifacts of a volume with a glob, sort them in place in
    descending string order, and walk them from the top, stopping at the first
    one that decides the answer. What each candidate decides differs between
    the two scripts and is passed in as `judge`. */
module Resolver {
  import opened Common
  import opened Text
  import opened OsPath

  /** The dictionary `{'tag': ..., 'file_name': ...}` the resolver returns. */
  datatype Base = Base(tag: string, fileName: string)

  /** `{'tag': '', 'file_name': ''}`: no usable base, send a full backup. */
  const NO_BASE := Base("", "")

  /** What the loop body decides for one candidate: go on to the next one,
      return the empty result, return this candidate with a tag, or leave
      through an exception that the body does not catch. */
  datatype Verdict = Skip | Stop | Use(tag: string) | Raise(error: string)

  // ---------------------------------------------------------------- glob

  /** `name` matches the glob pattern `{prefix}*{suffix}`; as in `glob`, a
      leading `*` does not match a name that starts with a dot. */
  predicate GlobMatch(name: string, prefix: string, suffix: string)
  {
    && StartsWith(name, prefix)
    && EndsWith(name, suffix)
    && |prefix| + |suffix| <= |name|
    && (name != [] && name[0] == '.' ==> prefix != [])
  }

  /** `p` is `os.path.join(dir, name)` for a name with no slash. */
  predicate InDir(p: string, dir: string)
  {
    StartsWith(p, Sep(dir)) && |p| > |Sep(dir)| && '/' !in p[|Sep(dir)|..]
  }

  /** `p` names a file of `dir` that the glob `{prefix}*{suffix}` matches. */
  predicate Matches(p: string, dir: string, prefix: string, suffix: string)
  {
    InDir(p, dir) && GlobMatch(p[|Sep(dir)|..], prefix, suffix)
  }

  /** The paths `glob(os.path.join(dir, prefix + '*' + suffix))` returns,
      where `fs` is the set of paths of the files that exist. */
  function Candidates(fs: set<string>, dir: string, prefix: string, suffix: string): set<string>
  {
    set p | p in fs && Matches(p, dir, prefix, suffix)
  }

  /** Looking at one more file adds it to the candidates exactly when it matches. */
  lemma CandidatesGrow(fs: set<string>, p: string, dir: string, prefix: string, suffix: string)
    requires p !in fs
    ensures Candidates(fs + {p}, dir, prefix, suffix) ==
      Candidates(fs, dir, prefix, suffix) + (if Matches(p, dir, prefix, suffix) then {p} else {})
  {
  }

  /** `glob` itself: collects the matching paths in the order the directory
      yields them, which the model leaves open. */
  method ListCandidates(fs: set<string>, dir: string, prefix: string, suffix: string)
    returns (files: array<string>)
    ensures fresh(files)
    ensures multiset(files[..]) == multiset(Candidates(fs, dir, prefix, suffix))
  {
    var found: seq<string> := [];
    var rest := fs;
    while rest != {}
      invariant rest <= fs
      invariant multiset(found) == multiset(Candidates(fs - rest, dir, prefix, suffix))
      decreases rest
    {
      var p :| p in rest;
      assert fs - (rest - {p}) == (fs - rest) + {p};
      CandidatesGrow(fs - rest, p, dir, prefix, suffix);
      if Matches(p, dir, prefix, suffix) {
        found := found + [p];
      }
      rest := rest - {p};
    }
    assert fs - rest == fs;
    files := new string[|found|](i requires 0 <= i < |found| => found[i]);
    assert files[..] == found;
  }

  // ------------------------------------------------------------- sorting

  /** Every element is at least as large as every later one (Python's order). */
  predicate Descending(s: seq<string>)
  {
    forall i, j :: 0 <= i < j < |s| ==> !Below(s[i], s[j])
  }

  predicate IsMax(m: string, c: set<string>)
  {
    forall x :: x in c ==> !Below(m, x)
  }

  lemma {:induction false} MaxExists(c: set<string>)
    requires c != {}
    ensures exists m :: m in c && IsMax(m, c)
    decreases |c|
  {
    var y :| y in c;
    if c != {y} {
      MaxExists(c - {y});
      var m :| m in c - {y} && IsMax(m, c - {y});
      if Below(m, y) {
        forall x | x in c
          ensures !Below(y, x)
        {
          if x != y && Below(y, x) {
            BelowTransitive(m, y, x);
          }
          BelowIrreflexive(y);
        }
        assert IsMax(y, c);
      } else {
        assert IsMax(m, c);
      }
    } else {
      BelowIrreflexive(y);
      assert IsMax(y, c);
    }
  }

  lemma PrependMax(m: string, c: set<string>, rest: seq<string>)
    requires m in c && IsMax(m, c)
    requires Descending(rest) && multiset(rest) == multiset(c - {m})
    ensures Descending([m] + rest) && multiset([m] + rest) == multiset(c)
  {
    var s := [m] + rest;
    forall i, j | 0 <= i < j < |s|
      ensures !Below(s[i], s[j])
    {
      if i > 0 {
        assert s[i] == rest[i - 1] && s[j] == rest[j - 1];
      } else {
        assert s[j] == rest[j - 1];
        assert rest[j - 1] in multiset(rest);
      }
    }
    assert c == (c - {m}) + {m};
  }

  /** The candidates in the order `files.sort(reverse=True)` leaves them:
      the largest first, then the order of the rest. */
  ghost function Ordered(c: set<string>): seq<string>
    decreases |c|
  {
    if c == {} then []
    else
      MaxExists(c);
      var m :| m in c && IsMax(m, c);
      [m] + Ordered(c - {m})
  }

  /** That order is descending and holds every candidate once. */
  lemma {:induction false} OrderedSorts(c: set<string>)
    ensures Descending(Ordered(c)) && multiset(Ordered(c)) == multiset(c)
    decreases |c|
  {
    if c != {} {
      MaxExists(c);
      var m := Ordered(c)[0];
      assert m in c && IsMax(m, c) && Ordered(c) == [m] + Ordered(c - {m});
      OrderedSorts(c - {m});
      PrependMax(m, c, Ordered(c - {m}));
    }
  }

  /** A descending arrangement of a collection of strings is unique. */
  lemma {:induction false} DescendingUnique(s: seq<string>, t: seq<string>)
    requires Descending(s) && Descending(t) && multiset(s) == multiset(t)
    ensures s == t
    decreases |s|
  {
    if s == [] {
      assert |t| == |multiset(t)| == 0;
    } else {
      assert |t| == |multiset(t)| == |s|;
      HeadsAgree(s, t);
      TailsAlike(s, t);
      DescendingUnique(s[1..], t[1..]);
      assert s == [s[0]] + s[1..] && t == [t[0]] + t[1..];
    }
  }

  /** Past a common first element, two descending arrangements of one
      collection are descending arrangements of one collection. */
  lemma TailsAlike(s: seq<string>, t: seq<string>)
    requires s != [] && t != [] && s[0] == t[0]
    requires Descending(s) && Descending(t) && multiset(s) == multiset(t)
    ensures Descending(s[1..]) && Descending(t[1..]) && multiset(s[1..]) == multiset(t[1..])
  {
    assert s == [s[0]] + s[1..] && t == [t[0]] + t[1..];
    assert multiset(s[1..]) == multiset(s) - multiset([s[0]]);
    assert multiset(t[1..]) == multiset(t) - multiset([t[0]]);
  }

  /** Two descending arrangements of one collection start with the same string. */
  lemma HeadsAgree(s: seq<string>, t: seq<string>)
    requires s != [] && t != []
    requires Descending(s) && Descending(t) && multiset(s) == multiset(t)
    ensures s[0] == t[0]
  {
    assert s[0] in multiset(t);
    var j :| 0 <= j < |t| && t[j] == s[0];
    assert t[0] in multiset(s);
    var i :| 0 <= i < |s| && s[i] == t[0];
    assert !Below(t[0], s[0]) by {
      if j > 0 {
        assert !Below(t[0], t[j]);
      } else {
        BelowIrreflexive(t[0]);
      }
    }
    assert !Below(s[0], t[0]) by {
      if i > 0 {
        assert !Below(s[0], s[i]);
      } else {
        BelowIrreflexive(s[0]);
      }
    }
    BelowAntisymmetric(s[0], t[0]);
  }

  /** The largest candidate is examined first. */
  lemma OrderedStartsWithMax(c: set<string>, m: string)
    requires m in c && IsMax(m, c)
    ensures Ordered(c) != [] && Ordered(c)[0] == m
  {
    var s := Ordered(c);
    OrderedSorts(c);
    assert m in multiset(s);
    var i :| 0 <= i < |s| && s[i] == m;
    assert s[0] in multiset(c);
    assert !Below(s[0], m) by {
      if i > 0 {
        assert !Below(s[0], s[i]);
      } else {
        BelowIrreflexive(m);
      }
    }
    BelowAntisymmetric(s[0], m);
  }

  /** The index of a largest element of `files[from..]`. */
  method MaxIndex(files: array<string>, from: nat) returns (m: nat)
    requires from < files.Length
    ensures from <= m < files.Length
    ensures forall k :: from <= k < files.Length ==> !Below(files[m], files[k])
  {
    m := from;
    BelowIrreflexive(files[from]);
    var j := from + 1;
    while j < files.Length
      invariant from <= m < j <= files.Length
      invariant forall k :: from <= k < j ==> !Below(files[m], files[k])
    {
      if Below(files[m], files[j]) {
        forall k | from <= k < j
          ensures !Below(files[j], files[k])
        {
          if Below(files[j], files[k]) {
            BelowTransitive(files[m], files[j], files[k]);
          }
        }
        BelowIrreflexive(files[j]);
        m := j;
      }
      j := j + 1;
    }
  }

  /** The first `i` elements are in place for a descending order: descending
      among themselves and none below a later element. */
  predicate DescendingUpTo(s: seq<string>, i: int)
  {
    && (forall p, q :: 0 <= p < q < i && q < |s| ==> !Below(s[p], s[q]))
    && (forall p, q :: 0 <= p < i <= q < |s| ==> !Below(s[p], s[q]))
  }

  /** Swapping a largest remaining element into position `i` puts one more
      element in place and keeps the elements. */
  lemma SwapLargest(s: seq<string>, i: int, m: int)
    requires 0 <= i <= m < |s| && DescendingUpTo(s, i)
    requires forall k :: i <= k < |s| ==> !Below(s[m], s[k])
    ensures DescendingUpTo(s[i := s[m]][m := s[i]], i + 1)
    ensures multiset(s[i := s[m]][m := s[i]]) == multiset(s)
  {
    var t := s[i := s[m]][m := s[i]];
    forall p, q | 0 <= p < i + 1 <= q < |t|
      ensures !Below(t[p], t[q])
    {
      if p < i {
        assert t[p] == s[p];
        assert t[q] == s[q] || t[q] == s[i];
      } else {
        assert t[q] == s[q] || t[q] == s[i];
      }
    }
  }

  /** `files.sort(reverse=True)`, in place (a selection sort). */
  method SortDescending(files: array<string>)
    modifies files
    ensures Descending(files[..])
    ensures multiset(files[..]) == multiset(old(files[..]))
  {
    var i := 0;
    while i < files.Length
      invariant 0 <= i <= files.Length
      invariant DescendingUpTo(files[..], i)
      invariant multiset(files[..]) == multiset(old(files[..]))
    {
      var m := MaxIndex(files, i);
      ghost var before := files[..];
      SwapLargest(before, i, m);
      files[i], files[m] := files[m], files[i];
      assert files[..] == before[i := before[m]][m := before[i]];
      i := i + 1;
    }
  }

  /** Every element is at most as large as every later one. */
  predicate Ascending(s: seq<string>)
  {
    forall i, j :: 0 <= i < j < |s| ==> !Below(s[j], s[i])
  }

  /** The index of a smallest element of `files[from..]`. */
  method MinIndex(files: array<string>, from: nat) returns (m: nat)
    requires from < files.Length
    ensures from <= m < files.Length
    ensures forall k :: from <= k < files.Length ==> !Below(files[k], files[m])
  {
    m := from;
    BelowIrreflexive(files[from]);
    var j := from + 1;
    while j < files.Length
      invariant from <= m < j <= files.Length
      invariant forall k :: from <= k < j ==> !Below(files[k], files[m])
    {
      if Below(files[j], files[m]) {
        forall k | from <= k < j
          ensures !Below(files[k], files[j])
        {
          if Below(files[k], files[j]) {
            BelowTransitive(files[k], files[j], files[m]);
          }
        }
        BelowIrreflexive(files[j]);
        m := j;
      }
      j := j + 1;
    }
  }

  /** The first `i` elements are in place for an ascending order. */
  predicate AscendingUpTo(s: seq<string>, i: int)
  {
    && (forall p, q :: 0 <= p < q < i && q < |s| ==> !Below(s[q], s[p]))
    && (forall p, q :: 0 <= p < i <= q < |s| ==> !Below(s[q], s[p]))
  }

  /** Swapping a smallest remaining element into position `i` puts one more
      element in place and keeps the elements. */
  lemma SwapSmallest(s: seq<string>, i: int, m: int)
    requires 0 <= i <= m < |s| && AscendingUpTo(s, i)
    requires forall k :: i <= k < |s| ==> !Below(s[k], s[m])
    ensures AscendingUpTo(s[i := s[m]][m := s[i]], i + 1)
    ensures multiset(s[i := s[m]][m := s[i]]) == multiset(s)
  {
    var t := s[i := s[m]][m := s[i]];
    forall p, q | 0 <= p < i + 1 <= q < |t|
      ensures !Below(t[q], t[p])
    {
      if p < i {
        assert t[p] == s[p];
        assert t[q] == s[q] || t[q] == s[i];
      } else {
        assert t[q] == s[q] || t[q] == s[i];
      }
    }
  }

  /** `files.sort()`, in place (a selection sort). */
  method SortAscending(files: array<string>)
    modifies files
    ensures Ascending(files[..])
    ensures multiset(files[..]) == multiset(old(files[..]))
  {
    var i := 0;
    while i < files.Length
      invariant 0 <= i <= files.Length
      invariant AscendingUpTo(files[..], i)
      invariant multiset(files[..]) == multiset(old(files[..]))
    {
      var m := MinIndex(files, i);
      ghost var before := files[..];
      SwapSmallest(before, i, m);
      files[i], files[m] := files[m], files[i];
      assert files[..] == before[i := before[m]][m := before[i]];
      i := i + 1;
    }
  }

  /** `s` back to front. */
  function Reversed(s: seq<string>): (r: seq<string>)
    ensures |r| == |s|
    ensures forall i :: 0 <= i < |s| ==> r[i] == s[|s| - 1 - i]
  {
    if s == [] then [] else Reversed(s[1..]) + [s[0]]
  }

  lemma {:induction false} ReversedSameElements(s: seq<string>)
    ensures multiset(Reversed(s)) == multiset(s)
  {
    if s != [] {
      ReversedSameElements(s[1..]);
      assert s == [s[0]] + s[1..];
    }
  }

  /** An ascending list read back to front is descending. */
  lemma ReversedAscending(s: seq<string>)
    requires Ascending(s)
    ensures Descending(Reversed(s)) && multiset(Reversed(s)) == multiset(s)
  {
    ReversedSameElements(s);
    var r := Reversed(s);
    forall i, j | 0 <= i < j < |r|
      ensures !Below(r[i], r[j])
    {
      assert r[i] == s[|s| - 1 - i] && r[j] == s[|s| - 1 - j];
    }
  }

  /** `files.reverse()`, in place. */
  method Reverse(files: array<string>)
    modifies files
    ensures files[..] == Reversed(old(files[..]))
  {
    var i, j := 0, files.Length - 1;
    while i < j
      invariant 0 <= i <= files.Length && j == files.Length - 1 - i
      invariant i > j ==> i == j + 1
      invariant forall k :: 0 <= k < i || j < k < files.Length ==> files[k] == old(files[files.Length - 1 - k])
      invariant forall k :: i <= k <= j ==> files[k] == old(files[k])
    {
      files[i], files[j] := files[j], files[i];
      i, j := i + 1, j - 1;
    }
  }

  // ---------------------------------------------------------------- scan

  /** The answer the loop gives for a list of candidates: that of the first
      candidate whose verdict is not `Skip`, the empty result if there is none. */
  function Scan(files: seq<string>, judge: string -> Verdict): Result<Base>
  {
    if files == [] then Ok(NO_BASE)
    else match judge(files[0])
      case Skip => Scan(files[1..], judge)
      case Stop => Ok(NO_BASE)
      case Use(tag) => Ok(Base(tag, files[0]))
      case Raise(e) => Err(e)
  }

  /** The index of the first candidate that decides, `|files|` if none does. */
  function Decisive(files: seq<string>, judge: string -> Verdict): (k: nat)
    ensures k <= |files|
    ensures forall j :: 0 <= j < k ==> judge(files[j]) == Skip
    ensures k < |files| ==> judge(files[k]) != Skip
  {
    if files == [] || judge(files[0]) != Skip then 0
    else 1 + Decisive(files[1..], judge)
  }

  function Answer(v: Verdict, file: string): Result<Base>
  {
    match v
    case Skip => Ok(NO_BASE)
    case Stop => Ok(NO_BASE)
    case Use(tag) => Ok(Base(tag, file))
    case Raise(e) => Err(e)
  }

  /** The scan answers with the verdict of the first deciding candidate. */
  lemma {:induction false} ScanIsFirstDecision(files: seq<string>, judge: string -> Verdict)
    ensures var k := Decisive(files, judge);
      Scan(files, judge) == if k == |files| then Ok(NO_BASE) else Answer(judge(files[k]), files[k])
  {
    if files != [] && judge(files[0]) == Skip {
      ScanIsFirstDecision(files[1..], judge);
    }
  }

  /** Candidates after a deciding one are never examined. */
  lemma {:induction false} ScanStopsAtDecision(files: seq<string>, judge: string -> Verdict, k: nat)
    requires k < |files| && judge(files[k]) != Skip
    ensures Scan(files, judge) == Scan(files[..k + 1], judge)
  {
    if judge(files[0]) == Skip {
      assert files[1..][..k] == files[..k + 1][1..];
      ScanStopsAtDecision(files[1..], judge, k - 1);
    }
  }

  /** A candidate is chosen only after every earlier one was skipped, and only
      if it is one of the candidates. */
  lemma ScanChoice(files: seq<string>, judge: string -> Verdict)
    requires Scan(files, judge).Ok? && Scan(files, judge).value != NO_BASE
    ensures var k := Decisive(files, judge);
      k < |files| && judge(files[k]) == Use(Scan(files, judge).value.tag)
      && Scan(files, judge).value.fileName == files[k]
  {
    ScanIsFirstDecision(files, judge);
  }

  /** The loop of `from_tag_incremental` over the sorted candidates, with its
      early returns. */
  method FirstUsable(files: array<string>, judge: string -> Verdict) returns (r: Result<Base>)
    ensures r == Scan(files[..], judge)
  {
    var i := 0;
    while i < files.Length
      invariant 0 <= i <= files.Length
      invariant Scan(files[i..], judge) == Scan(files[..], judge)
    {
      assert files[i..][1..] == files[i + 1..];
      match judge(files[i]) {
        case Skip =>
        case Stop => return Ok(NO_BASE);
        case Use(tag) => return Ok(Base(tag, files[i]));
        case Raise(e) => return Err(e);
      }
      i := i + 1;
    }
    return Ok(NO_BASE);
  }

  /** What the resolver answers for the files `fs`: the scan of the
      candidates in descending order. */
  ghost function Resolution(fs: set<string>, dir: string, prefix: string, suffix: string,
                            judge: string -> Verdict): Result<Base>
  {
    Scan(Ordered(Candidates(fs, dir, prefix, suffix)), judge)
  }

  /** With no candidate file the answer is the empty result. */
  lemma NoCandidatesNoBase(fs: set<string>, dir: string, prefix: string, suffix: string,
                           judge: string -> Verdict)
    requires Candidates(fs, dir, prefix, suffix) == {}
    ensures Resolution(fs, dir, prefix, suffix, judge) == Ok(NO_BASE)
  {
    OrderedSorts({});
    assert |Ordered({})| == |multiset(Ordered({}))| == 0;
  }

  /** A descending arrangement of a set holds each element once. */
  lemma OrderedDistinct(c: set<string>, i: int, j: int)
    requires 0 <= i < j < |Ordered(c)|
    ensures Ordered(c)[i] != Ordered(c)[j]
  {
    var s := Ordered(c);
    OrderedSorts(c);
    assert s == s[..j] + s[j..];
    assert s[..j][i] == s[i] && s[j..][0] == s[j];
    assert multiset(s)[s[j]] == multiset(s[..j])[s[j]] + multiset(s[j..])[s[j]];
    assert multiset(s[j..])[s[j]] >= 1;
    assert multiset(c)[s[j]] <= 1;
    assert s[j] !in multiset(s[..j]);
  }

  /** Candidates that are all skipped can be dropped from the front of the scan. */
  lemma {:induction false} ScanSkipsPrefix(files: seq<string>, judge: string -> Verdict, i: nat)
    requires i <= |files|
    requires forall j :: 0 <= j < i ==> judge(files[j]) == Skip
    ensures Scan(files, judge) == Scan(files[i..], judge)
  {
    if i > 0 {
      assert files[1..][i - 1..] == files[i..];
      ScanSkipsPrefix(files[1..], judge, i - 1);
    }
  }

  /** A candidate that decides, with every larger candidate skipped, gives the
      answer: the candidates below it play no part. */
  lemma DecidedBy(fs: set<string>, dir: string, prefix: string, suffix: string,
                  judge: string -> Verdict, f: string)
    requires f in Candidates(fs, dir, prefix, suffix) && judge(f) != Skip
    requires forall g :: g in Candidates(fs, dir, prefix, suffix) && Below(f, g) ==> judge(g) == Skip
    ensures Resolution(fs, dir, prefix, suffix, judge) == Answer(judge(f), f)
  {
    DecidedAmong(Candidates(fs, dir, prefix, suffix), judge, f);
  }

  /** `DecidedBy` for any set of candidates. */
  lemma DecidedAmong(c: set<string>, judge: string -> Verdict, f: string)
    requires f in c && judge(f) != Skip
    requires forall g :: g in c && Below(f, g) ==> judge(g) == Skip
    ensures Scan(Ordered(c), judge) == Answer(judge(f), f)
  {
    var s := Ordered(c);
    OrderedSorts(c);
    assert f in multiset(s);
    var i :| 0 <= i < |s| && s[i] == f;
    forall j | 0 <= j < i
      ensures judge(s[j]) == Skip
    {
      assert s[j] in multiset(c);
      OrderedDistinct(c, j, i);
      BelowTotal(s[j], f);
    }
    ScanSkipsPrefix(s, judge, i);
    assert s[i..][0] == f;
  }

  /** In a descending list, a larger element comes earlier. */
  lemma LargerComesFirst(s: seq<string>, k: int, j: int)
    requires Descending(s) && 0 <= k < |s| && 0 <= j < |s| && Below(s[k], s[j])
    ensures j < k
  {
    BelowIrreflexive(s[k]);
    if j > k {
      assert false;
    }
  }

  /** A non-empty answer names a candidate and the tag its verdict gave; every
      larger candidate was skipped. */
  lemma ResolvedCandidate(fs: set<string>, dir: string, prefix: string, suffix: string,
                          judge: string -> Verdict)
    requires Resolution(fs, dir, prefix, suffix, judge).Ok?
    requires Resolution(fs, dir, prefix, suffix, judge).value != NO_BASE
    ensures var b := Resolution(fs, dir, prefix, suffix, judge).value;
      && b.fileName in Candidates(fs, dir, prefix, suffix)
      && judge(b.fileName) == Use(b.tag)
      && forall g :: g in Candidates(fs, dir, prefix, suffix) && Below(b.fileName, g) ==> judge(g) == Skip
  {
    ChosenAmong(Candidates(fs, dir, prefix, suffix), judge);
  }

  /** `ResolvedCandidate` for any set of candidates. */
  lemma ChosenAmong(c: set<string>, judge: string -> Verdict)
    requires Scan(Ordered(c), judge).Ok? && Scan(Ordered(c), judge).value != NO_BASE
    ensures var b := Scan(Ordered(c), judge).value;
      && b.fileName in c
      && judge(b.fileName) == Use(b.tag)
      && forall g :: g in c && Below(b.fileName, g) ==> judge(g) == Skip
  {
    var s := Ordered(c);
    OrderedSorts(c);
    ScanChoice(s, judge);
    var k := Decisive(s, judge);
    assert s[k] in multiset(c);
    forall g | g in c && Below(s[k], g)
      ensures judge(g) == Skip
    {
      assert g in multiset(s);
      var j :| 0 <= j < |s| && s[j] == g;
      LargerComesFirst(s, k, j);
    }
  }
}
