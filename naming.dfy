/** The names both backup scripts give to a volume's artifacts: the volume
    title, the date stamp `strftime("{workname}_%Y-%m-%d_T%H-%M-%S")` writes,
    and the record `get_snapshot_data` returns. */
module Naming {
  import opened Text
  import opened Resolver

  // --------------------------------------------------------------- title

  /** `name.replace('/', '--')`: the dataset name made fit for a file name. */
  function Title(name: string): (t: string)
    ensures '/' !in t
  {
    ReplaceRemovesChar(name, '/', "--");
    Replace(name, "/", "--")
  }

  /** A name without a slash is its own title. */
  lemma TitleOfPlainName(name: string)
    requires '/' !in name
    ensures Title(name) == name
  {
    NoStartByFirstChar(name, "/");
    ReplaceAbsent(name, "/", "--");
  }

  /** The title of a child dataset is the parent's title, `--`, and the title
      of the rest of the path. */
  lemma TitleOfChild(parent: string, child: string)
    requires '/' !in parent
    ensures Title(parent + "/" + child) == parent + "--" + Title(child)
  {
    NoStartByFirstChar(parent, "/");
    assert parent + "/" + child == parent + ("/" + child);
    ReplaceAfter(parent, "/" + child, "/", "--");
    ReplaceLeading("/", child, "--");
  }

  // ---------------------------------------------------------------- date

  /** What `datetime.now()` reads: a calendar date and a time of day. */
  datatype DateTime = DateTime(year: int, month: int, day: int, hour: int, minute: int, second: int)
  {
    /** The ranges of Python's `datetime`, with four-digit years. */
    predicate Valid()
    {
      && 1000 <= year <= 9999 && 1 <= month <= 12 && 1 <= day <= 31
      && 0 <= hour < 24 && 0 <= minute < 60 && 0 <= second < 60
    }

    /** The fields from the year down to the second, as the stamp writes them. */
    function Fields(): seq<int>
    {
      [year, month, day, hour, minute, second]
    }
  }

  /** A time `datetime.now()` can read. */
  type Instant = t: DateTime | t.Valid() witness DateTime(2000, 1, 1, 0, 0, 0)

  /** `t` comes strictly before `u` (the fields compared from the year down). */
  predicate Earlier(t: DateTime, u: DateTime)
  {
    exists k :: 0 <= k < 6 && t.Fields()[..k] == u.Fields()[..k] && t.Fields()[k] < u.Fields()[k]
  }

  function Pow10(n: nat): (p: nat)
    ensures p >= 1
  {
    if n == 0 then 1 else 10 * Pow10(n - 1)
  }

  predicate IsDigit(ch: char)
  {
    '0' <= ch <= '9'
  }

  function Digit(d: int): (ch: char)
    requires 0 <= d < 10
    ensures IsDigit(ch)
  {
    ('0' as int + d) as char
  }

  /** `n` in decimal on exactly `w` digits, with leading zeros (`%Y`, `%m`, ...). */
  function Digits(n: nat, w: nat): (s: string)
    requires n < Pow10(w)
    ensures |s| == w
    ensures forall i :: 0 <= i < |s| ==> IsDigit(s[i])
  {
    if w == 0 then []
    else Digits(n / 10, w - 1) + [Digit(n % 10)]
  }

  /** A smaller number has the smaller fixed-width decimal form. */
  lemma {:induction false} DigitsOrder(a: nat, b: nat, w: nat)
    requires a < b < Pow10(w)
    ensures Below(Digits(a, w), Digits(b, w))
  {
    if a / 10 == b / 10 {
      assert a % 10 < b % 10;
      BelowCommonPrefix(Digits(a / 10, w - 1), [Digit(a % 10)], [Digit(b % 10)]);
    } else {
      DigitsOrder(a / 10, b / 10, w - 1);
      BelowSameLength(Digits(a / 10, w - 1), [Digit(a % 10)], Digits(b / 10, w - 1), [Digit(b % 10)]);
    }
  }

  /** `%Y-%m-%d_T%H-%M-%S`. */
  function Stamp(t: DateTime): (s: string)
    requires t.Valid()
    ensures |s| == 20
    ensures forall i :: 0 <= i < |s| ==> IsDigit(s[i]) || s[i] in "-_T"
  {
    Digits(t.year, 4) + "-" + Digits(t.month, 2) + "-" + Digits(t.day, 2)
    + "_T" + Digits(t.hour, 2) + "-" + Digits(t.minute, 2) + "-" + Digits(t.second, 2)
  }

  /** The stamp as six pieces: each field's digits behind its separator. */
  function Pieces(t: DateTime): (ps: seq<string>)
    requires t.Valid()
    ensures |ps| == 6
  {
    [Digits(t.year, 4), "-" + Digits(t.month, 2), "-" + Digits(t.day, 2),
     "_T" + Digits(t.hour, 2), "-" + Digits(t.minute, 2), "-" + Digits(t.second, 2)]
  }

  function Glue(ps: seq<string>): string
  {
    if ps == [] then [] else ps[0] + Glue(ps[1..])
  }

  lemma StampIsGlue(t: DateTime)
    requires t.Valid()
    ensures Stamp(t) == Glue(Pieces(t))
  {
    var ps := Pieces(t);
    assert Glue(ps[5..]) == ps[5];
    assert Glue(ps[4..]) == ps[4] + ps[5];
    assert Glue(ps[3..]) == ps[3] + ps[4] + ps[5];
    assert Glue(ps[2..]) == ps[2] + ps[3] + ps[4] + ps[5];
    assert Glue(ps[1..]) == ps[1] + ps[2] + ps[3] + ps[4] + ps[5];
    assert Glue(ps) == ps[0] + ps[1] + ps[2] + ps[3] + ps[4] + ps[5];
  }

  lemma {:induction false} GlueLength(ps: seq<string>, qs: seq<string>)
    requires |ps| == |qs|
    requires forall i :: 0 <= i < |ps| ==> |ps[i]| == |qs[i]|
    ensures |Glue(ps)| == |Glue(qs)|
    decreases |ps|
  {
    if ps != [] {
      GlueLength(ps[1..], qs[1..]);
    }
  }

  /** Two glued sequences of pieces of equal lengths that agree before the
      `k`-th piece, which is smaller in `ps`, compare as that piece. */
  lemma {:induction false} GlueOrder(ps: seq<string>, qs: seq<string>, k: nat)
    requires |ps| == |qs| && k < |ps|
    requires forall i :: 0 <= i < |ps| ==> |ps[i]| == |qs[i]|
    requires ps[..k] == qs[..k] && Below(ps[k], qs[k])
    ensures Below(Glue(ps), Glue(qs))
    decreases |ps|
  {
    if k == 0 {
      BelowSameLength(ps[0], Glue(ps[1..]), qs[0], Glue(qs[1..]));
    } else {
      assert ps[0] == ps[..k][0] == qs[..k][0] == qs[0];
      assert ps[1..][..k - 1] == ps[..k][1..];
      assert qs[1..][..k - 1] == qs[..k][1..];
      GlueOrder(ps[1..], qs[1..], k - 1);
      BelowCommonPrefix(ps[0], Glue(ps[1..]), Glue(qs[1..]));
    }
  }

  /** A later time gets a larger stamp, so the descending order the resolver
      sorts by puts the most recent artifact first. */
  lemma StampOrder(t: DateTime, u: DateTime)
    requires t.Valid() && u.Valid() && Earlier(t, u)
    ensures Below(Stamp(t), Stamp(u))
  {
    var k :| 0 <= k < 6 && t.Fields()[..k] == u.Fields()[..k] && t.Fields()[k] < u.Fields()[k];
    var ps, qs := Pieces(t), Pieces(u);
    forall i | 0 <= i < k
      ensures ps[i] == qs[i]
    {
      assert t.Fields()[..k][i] == u.Fields()[..k][i];
    }
    assert ps[..k] == qs[..k];
    var w := [4, 2, 2, 2, 2, 2][k];
    var sep := ["", "-", "-", "_T", "-", "-"][k];
    DigitsOrder(t.Fields()[k], u.Fields()[k], w);
    assert ps[k] == sep + Digits(t.Fields()[k], w) && qs[k] == sep + Digits(u.Fields()[k], w);
    BelowCommonPrefix(sep, Digits(t.Fields()[k], w), Digits(u.Fields()[k], w));
    GlueOrder(ps, qs, k);
    StampIsGlue(t);
    StampIsGlue(u);
  }

  /** `strftime(f"{workname}_%Y-%m-%d_T%H-%M-%S")`. */
  function FormattedDate(workname: string, t: DateTime): (fd: string)
    requires t.Valid()
    ensures |fd| == |workname| + 21
    ensures fd[..|workname|] == workname
  {
    workname + "_" + Stamp(t)
  }

  /** No dot, no slash and no `@` is added to the work name by the date. */
  lemma FormattedDateAddsNoSeparator(workname: string, t: DateTime, c: char)
    requires t.Valid() && !IsDigit(c) && c !in "-_T"
    ensures c !in FormattedDate(workname, t)[|workname|..]
  {
    assert FormattedDate(workname, t)[|workname|..] == "_" + Stamp(t);
  }

  /** The names of two backups of one volume compare as their times do,
      whatever file name extension follows the date. */
  lemma LaterBackupSortsHigher(stem: string, workname: string, t: DateTime, u: DateTime,
                               ext1: string, ext2: string)
    requires t.Valid() && u.Valid() && Earlier(t, u)
    ensures Below(stem + FormattedDate(workname, t) + ext1, stem + FormattedDate(workname, u) + ext2)
  {
    StampOrder(t, u);
    BelowSameLength(Stamp(t), ext1, Stamp(u), ext2);
    var p := stem + workname + "_";
    assert stem + FormattedDate(workname, t) + ext1 == p + (Stamp(t) + ext1);
    assert stem + FormattedDate(workname, u) + ext2 == p + (Stamp(u) + ext2);
    BelowCommonPrefix(p, Stamp(t) + ext1, Stamp(u) + ext2);
  }

  // ------------------------------------------------------------- record

  /** The dictionary `get_snapshot_data` returns. */
  datatype SnapshotData = SnapshotData(
    fileTitle: string,
    tag: string,
    fileName: string,
    fileNameIncremental: string,
    fromTagIncremental: Base,
    directory: string)
}
