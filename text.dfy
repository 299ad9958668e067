/** The Python string operations the backup scripts rely on, written out on
    `string` (a sequence of Unicode code points, as Python 3's `str`). */
module Text {

  predicate StartsWith(s: string, p: string)
  {
    |p| <= |s| && s[..|p|] == p
  }

  predicate EndsWith(s: string, p: string)
  {
    |p| <= |s| && s[|s| - |p|..] == p
  }

  /** What `s.replace("", rep)` gives: `rep` before, between and after every character. */
  function Interleave(s: string, rep: string): (r: string)
    ensures |r| == |s| + (|s| + 1) * |rep|
  {
    if s == [] then rep else rep + [s[0]] + Interleave(s[1..], rep)
  }

  /** Python's `s.replace(pat, rep)`: every non-overlapping occurrence of
      `pat`, found scanning from the left, is replaced by `rep`. */
  function Replace(s: string, pat: string, rep: string): string
    decreases |s|
  {
    if |pat| == 0 then Interleave(s, rep)
    else if StartsWith(s, pat) then rep + Replace(s[|pat|..], pat, rep)
    else if s == [] then []
    else [s[0]] + Replace(s[1..], pat, rep)
  }

  /** `t` could be the beginning of an occurrence of `pat`, whatever text follows `t`. */
  predicate Overlaps(t: string, pat: string)
  {
    StartsWith(t, pat) || StartsWith(pat, t)
  }

  /** No occurrence of `pat` can begin inside `p`, whatever text follows `p`. */
  predicate NoStart(p: string, pat: string)
  {
    forall k :: 0 <= k < |p| ==> !Overlaps(p[k..], pat)
  }

  lemma OverlapsExtended(t: string, u: string, pat: string)
    requires Overlaps(t + u, pat)
    ensures Overlaps(t, pat)
  {
    if |t| >= |pat| {
      assert (t + u)[..|pat|] == t[..|pat|];
    } else if |t + u| >= |pat| {
      assert pat[..|t|] == (t + u)[..|pat|][..|t|] == t;
    } else {
      assert pat[..|t|] == pat[..|t + u|][..|t|] == t;
    }
  }

  lemma {:induction false} NoStartByFirstChar(p: string, pat: string)
    requires |pat| > 0 && pat[0] !in p
    ensures NoStart(p, pat)
  {
    forall k | 0 <= k < |p|
      ensures !Overlaps(p[k..], pat)
    {
      assert p[k..][0] == p[k] != pat[0];
    }
  }

  lemma NoStartConcat(a: string, b: string, pat: string)
    requires NoStart(a, pat) && NoStart(b, pat)
    ensures NoStart(a + b, pat)
  {
    forall k | 0 <= k < |a + b|
      ensures !Overlaps((a + b)[k..], pat)
    {
      if k < |a| {
        assert (a + b)[k..] == a[k..] + b;
        if Overlaps(a[k..] + b, pat) {
          OverlapsExtended(a[k..], b, pat);
        }
      } else {
        assert (a + b)[k..] == b[k - |a|..];
      }
    }
  }

  /** Texts that differ at a position both have cannot overlap. */
  lemma DiffersAt(t: string, pat: string, k: nat)
    requires k < |t| && k < |pat| && t[k] != pat[k]
    ensures !Overlaps(t, pat)
  {
    if |pat| <= |t| {
      assert t[..|pat|][k] == t[k];
    } else {
      assert pat[..|t|][k] == pat[k];
    }
  }

  /** Extends `NoStart` by one character in front, given a position where the
      extended text and the pattern differ. */
  lemma NoStartCons(c: char, p: string, pat: string, k: nat)
    requires NoStart(p, pat)
    requires k < |[c] + p| && k < |pat| && ([c] + p)[k] != pat[k]
    ensures NoStart([c] + p, pat)
  {
    DiffersAt([c] + p, pat, k);
    assert ([c] + p)[0..] == [c] + p;
    forall k | 0 < k < |[c] + p|
      ensures !Overlaps(([c] + p)[k..], pat)
    {
      assert ([c] + p)[k..] == p[k - 1..];
    }
  }

  lemma NoStartSuffix(a: string, b: string, pat: string)
    requires NoStart(a + b, pat)
    ensures NoStart(b, pat)
  {
    forall k | 0 <= k < |b|
      ensures !Overlaps(b[k..], pat)
    {
      assert b[k..] == (a + b)[|a| + k..];
    }
  }

  /** Replacing in `p + s` leaves `p` alone when no occurrence can begin inside `p`. */
  lemma {:induction false} ReplaceAfter(p: string, s: string, pat: string, rep: string)
    requires |pat| > 0 && NoStart(p, pat)
    ensures Replace(p + s, pat, rep) == p + Replace(s, pat, rep)
    decreases |p|
  {
    if p == [] {
      assert p + s == s;
    } else {
      assert p[0..] == p;
      assert !Overlaps(p, pat);
      if StartsWith(p + s, pat) {
        OverlapsExtended(p, s, pat);
      }
      assert (p + s)[1..] == p[1..] + s;
      forall k | 0 <= k < |p[1..]|
        ensures !Overlaps(p[1..][k..], pat)
      {
        assert p[1..][k..] == p[k + 1..];
      }
      ReplaceAfter(p[1..], s, pat, rep);
    }
  }

  /** A text that begins with the pattern begins with the replacement. */
  lemma ReplaceLeading(pat: string, s: string, rep: string)
    requires |pat| > 0
    ensures Replace(pat + s, pat, rep) == rep + Replace(s, pat, rep)
  {
    assert (pat + s)[..|pat|] == pat;
    assert (pat + s)[|pat|..] == s;
  }

  /** A text whose first character cannot begin the pattern keeps that character. */
  lemma ReplaceSkip(c: char, s: string, pat: string, rep: string)
    requires |pat| > 0 && (c != pat[0] || |pat| > 1 + |s|)
    ensures Replace([c] + s, pat, rep) == [c] + Replace(s, pat, rep)
  {
    assert ([c] + s)[1..] == s;
    if |pat| <= 1 + |s| {
      assert ([c] + s)[..|pat|][0] != pat[0];
    }
  }

  /** One occurrence of the pattern between a part it cannot start in and a
      part the replacement leaves alone. */
  lemma ReplaceMiddle(a: string, pat: string, b: string, rep: string)
    requires |pat| > 0 && NoStart(a, pat) && Replace(b, pat, rep) == b
    ensures Replace(a + (pat + b), pat, rep) == a + (rep + b)
  {
    ReplaceAfter(a, pat + b, pat, rep);
    ReplaceLeading(pat, b, rep);
  }

  lemma ReplaceAbsent(s: string, pat: string, rep: string)
    requires |pat| > 0 && NoStart(s, pat)
    ensures Replace(s, pat, rep) == s
  {
    ReplaceAfter(s, [], pat, rep);
    assert s + [] == s;
  }

  /** A character absent from the text and from the replacement stays absent. */
  lemma {:induction false} ReplaceKeepsAbsent(s: string, pat: string, rep: string, c: char)
    requires |pat| > 0 && c !in s && c !in rep
    ensures c !in Replace(s, pat, rep)
    decreases |s|
  {
    if StartsWith(s, pat) {
      ReplaceKeepsAbsent(s[|pat|..], pat, rep, c);
    } else if s != [] {
      ReplaceKeepsAbsent(s[1..], pat, rep, c);
    }
  }

  /** Replacing a single character by text without it removes every occurrence. */
  lemma {:induction false} ReplaceRemovesChar(s: string, c: char, rep: string)
    requires c !in rep
    ensures c !in Replace(s, [c], rep)
    decreases |s|
  {
    if StartsWith(s, [c]) {
      ReplaceRemovesChar(s[1..], c, rep);
    } else if s != [] {
      assert s[0] != c;
      ReplaceRemovesChar(s[1..], c, rep);
    }
  }

  /** A replacement at least as long as the pattern never shortens the text. */
  lemma {:induction false} ReplaceNotShorter(s: string, pat: string, rep: string)
    requires |rep| >= |pat|
    ensures |Replace(s, pat, rep)| >= |s|
    decreases |s|
  {
    if |pat| == 0 {
    } else if StartsWith(s, pat) {
      ReplaceNotShorter(s[|pat|..], pat, rep);
    } else if s != [] {
      ReplaceNotShorter(s[1..], pat, rep);
    }
  }

  /** Python's `s.split(c)` for a one-character separator. */
  function Split(s: string, c: char): (parts: seq<string>)
    ensures |parts| >= 1
    decreases |s|
  {
    if s == [] then [[]]
    else if s[0] == c then [[]] + Split(s[1..], c)
    else
      var rest := Split(s[1..], c);
      [[s[0]] + rest[0]] + rest[1..]
  }

  /** `s.split(c)[1]` exists exactly when `c` occurs in `s`. */
  lemma {:induction false} SplitHasSecond(s: string, c: char)
    ensures |Split(s, c)| >= 2 <==> c in s
    decreases |s|
  {
    if s != [] && s[0] != c {
      SplitHasSecond(s[1..], c);
      assert c in s <==> c in s[1..] by {
        assert s == [s[0]] + s[1..];
      }
    }
  }

  lemma {:induction false} SplitWithout(s: string, c: char)
    requires c !in s
    ensures Split(s, c) == [s]
    decreases |s|
  {
    if s != [] {
      SplitWithout(s[1..], c);
      assert [s[0]] + s[1..] == s;
    }
  }

  /** The first field is everything before the first separator. */
  lemma {:induction false} SplitAtFirst(a: string, c: char, b: string)
    requires c !in a
    ensures Split(a + [c] + b, c) == [a] + Split(b, c)
    decreases |a|
  {
    if a == [] {
      assert a + [c] + b == [c] + b;
      assert ([c] + b)[1..] == b;
    } else {
      assert (a + [c] + b)[1..] == a[1..] + [c] + b;
      SplitAtFirst(a[1..], c, b);
      assert [a[0]] + a[1..] == a;
    }
  }

  /** The characters Python's `str.split()` and `str.strip()` treat as white space. */
  predicate IsSpace(ch: char)
  {
    var n := ch as int;
    (9 <= n <= 13) || (28 <= n <= 32) || n == 0x85 || n == 0xA0 || n == 0x1680
    || (0x2000 <= n <= 0x200A) || n == 0x2028 || n == 0x2029 || n == 0x202F
    || n == 0x205F || n == 0x3000
  }

  /** Length of the run of non-space characters at the start of `s`. */
  function TokenLength(s: string): (n: nat)
    ensures n <= |s|
    ensures forall i :: 0 <= i < n ==> !IsSpace(s[i])
    ensures n < |s| ==> IsSpace(s[n])
  {
    if s == [] || IsSpace(s[0]) then 0 else 1 + TokenLength(s[1..])
  }

  /** Python's `s.split()`: the maximal runs of non-space characters, in order. */
  function Words(s: string): (ws: seq<string>)
    ensures forall i :: 0 <= i < |ws| ==> |ws[i]| > 0
    ensures forall i, j :: 0 <= i < |ws| && 0 <= j < |ws[i]| ==> !IsSpace(ws[i][j])
    decreases |s|
  {
    if s == [] then []
    else if IsSpace(s[0]) then Words(s[1..])
    else
      var n := TokenLength(s);
      [s[..n]] + Words(s[n..])
  }

  function LStrip(s: string): string
  {
    if s != [] && IsSpace(s[0]) then LStrip(s[1..]) else s
  }

  function RStrip(s: string): string
  {
    if s != [] && IsSpace(s[|s| - 1]) then RStrip(s[..|s| - 1]) else s
  }

  /** Python's `s.strip()`. */
  function Strip(s: string): string
  {
    RStrip(LStrip(s))
  }

  /** Text with no white space at either end is left alone by `strip()`. */
  lemma StripUnchanged(s: string)
    requires s != [] ==> !IsSpace(s[0]) && !IsSpace(s[|s| - 1])
    ensures Strip(s) == s
  {
  }

  function LowerChar(ch: char): char
  {
    if 'A' <= ch <= 'Z' then (ch as int + 32) as char else ch
  }

  /** Python's `s.lower()` on the ASCII letters. Python also lowers the
      non-ASCII letters; only two of them lower to ASCII (`İ` to `i` plus a
      combining dot, the Kelvin sign to `k`), and no filter word of the
      listing (`legacy`, `tmp`, `yes`, `swap`, `name`) holds an `i` or a `k`,
      so a field passes those filters here exactly when it does in Python. */
  function Lower(s: string): (r: string)
    ensures |r| == |s|
    ensures forall i :: 0 <= i < |s| ==> r[i] == LowerChar(s[i])
  {
    seq(|s|, i requires 0 <= i < |s| => LowerChar(s[i]))
  }

  /** Python's `pat in s`. */
  predicate Contains(s: string, pat: string)
    decreases |s|
  {
    StartsWith(s, pat) || (s != [] && Contains(s[1..], pat))
  }

  /** Replacing `pat` by a text that starts differently breaks every prefix
      of `s` that contains `pat`: the first occurrence is rewritten. */
  lemma {:induction false} ReplaceBreaksPrefix(s: string, t: string, pat: string, rep: string)
    requires |pat| > 0 && |rep| > 0 && rep[0] != pat[0]
    requires StartsWith(s, t) && Contains(t, pat)
    ensures !StartsWith(Replace(s, pat, rep), t)
    decreases |s|
  {
    ContainsNotShorter(t, pat);
    if StartsWith(s, pat) {
      assert t[0] == s[0] == pat[0];
      assert Replace(s, pat, rep)[0] == rep[0];
    } else {
      assert s[1..][..|t| - 1] == t[1..];
      ReplaceBreaksPrefix(s[1..], t[1..], pat, rep);
      assert Replace(s, pat, rep) == [s[0]] + Replace(s[1..], pat, rep);
    }
  }

  lemma {:induction false} ContainsNotShorter(s: string, pat: string)
    requires Contains(s, pat)
    ensures |pat| <= |s|
    decreases |s|
  {
    if !StartsWith(s, pat) {
      ContainsNotShorter(s[1..], pat);
    }
  }

  /** `pat` occurs in `s` starting at index `k`. */
  predicate OccursAt(s: string, pat: string, k: int)
  {
    0 <= k && k + |pat| <= |s| && s[k..k + |pat|] == pat
  }

  /** `Contains` agrees with "some slice of `s` equals `pat`". */
  lemma {:induction false} ContainsIsSomeSlice(s: string, pat: string)
    ensures Contains(s, pat) <==> exists k :: OccursAt(s, pat, k)
    decreases |s|
  {
    if StartsWith(s, pat) {
      assert OccursAt(s, pat, 0);
    } else if s == [] {
    } else {
      ContainsIsSomeSlice(s[1..], pat);
      if exists k :: OccursAt(s, pat, k) {
        var k :| OccursAt(s, pat, k);
        assert k != 0;
        assert s[1..][k - 1..k - 1 + |pat|] == s[k..k + |pat|];
        assert OccursAt(s[1..], pat, k - 1);
      }
      if exists k :: OccursAt(s[1..], pat, k) {
        var k :| OccursAt(s[1..], pat, k);
        assert s[1..][k..k + |pat|] == s[k + 1..k + 1 + |pat|];
        assert OccursAt(s, pat, k + 1);
      }
    }
  }

  /** Python's `a < b` on strings: code point by code point, a proper prefix first. */
  predicate Below(a: string, b: string)
    decreases |a|
  {
    if a == [] then b != []
    else if b == [] then false
    else if a[0] == b[0] then Below(a[1..], b[1..])
    else a[0] < b[0]
  }

  lemma {:induction false} BelowIrreflexive(a: string)
    ensures !Below(a, a)
    decreases |a|
  {
    if a != [] {
      BelowIrreflexive(a[1..]);
    }
  }

  lemma {:induction false} BelowTransitive(a: string, b: string, c: string)
    requires Below(a, b) && Below(b, c)
    ensures Below(a, c)
    decreases |a|
  {
    if a != [] && b != [] && c != [] && a[0] == b[0] && b[0] == c[0] {
      BelowTransitive(a[1..], b[1..], c[1..]);
    }
  }

  lemma {:induction false} BelowTotal(a: string, b: string)
    requires a != b
    ensures Below(a, b) || Below(b, a)
    decreases |a|
  {
    if a != [] && b != [] && a[0] == b[0] {
      assert a == [a[0]] + a[1..] && b == [b[0]] + b[1..];
      BelowTotal(a[1..], b[1..]);
    }
  }

  /** Two strings neither of which is below the other are equal. */
  lemma BelowAntisymmetric(a: string, b: string)
    requires !Below(a, b) && !Below(b, a)
    ensures a == b
  {
    if a != b {
      BelowTotal(a, b);
    }
  }

  /** A common prefix does not change which of two strings is smaller. */
  lemma {:induction false} BelowCommonPrefix(p: string, a: string, b: string)
    ensures Below(p + a, p + b) <==> Below(a, b)
    decreases |p|
  {
    if p == [] {
      assert p + a == a && p + b == b;
    } else {
      assert (p + a)[1..] == p[1..] + a && (p + b)[1..] == p[1..] + b;
      BelowCommonPrefix(p[1..], a, b);
    }
  }

  /** Between strings of equal length, the order of the beginnings decides,
      whatever follows them. */
  lemma {:induction false} BelowSameLength(a: string, x: string, b: string, y: string)
    requires |a| == |b| && Below(a, b)
    ensures Below(a + x, b + y)
    decreases |a|
  {
    assert (a + x)[0] == a[0] && (b + y)[0] == b[0];
    if a[0] == b[0] {
      assert (a + x)[1..] == a[1..] + x && (b + y)[1..] == b[1..] + y;
      BelowSameLength(a[1..], x, b[1..], y);
    }
  }

  /** `a` and `b` agree before index `k` and `a` has the smaller character at `k`. */
  predicate SmallerAt(a: string, b: string, k: int)
  {
    0 <= k < |a| && k < |b| && a[..k] == b[..k] && a[k] < b[k]
  }

  lemma SmallerAtTail(a: string, b: string, k: int)
    requires a != [] && b != [] && a[0] == b[0]
    ensures SmallerAt(a, b, k + 1) <==> SmallerAt(a[1..], b[1..], k)
  {
    if 0 <= k < |a[1..]| && k < |b[1..]| {
      assert a[..k + 1] == [a[0]] + a[1..][..k];
      assert b[..k + 1] == [b[0]] + b[1..][..k];
    }
  }

  /** `Below` is the textbook lexicographic order: `a` is a proper prefix of
      `b`, or the first position where they differ holds a smaller character. */
  lemma {:induction false} BelowIsLexicographic(a: string, b: string)
    ensures Below(a, b) <==> (|a| < |b| && b[..|a|] == a) || (exists k :: SmallerAt(a, b, k))
    decreases |a|
  {
    if a == [] || b == [] {
    } else if a[0] == b[0] {
      BelowIsLexicographic(a[1..], b[1..]);
      assert !SmallerAt(a, b, 0);
      if exists k :: SmallerAt(a, b, k) {
        var k :| SmallerAt(a, b, k);
        SmallerAtTail(a, b, k - 1);
      }
      if exists k :: SmallerAt(a[1..], b[1..], k) {
        var k :| SmallerAt(a[1..], b[1..], k);
        SmallerAtTail(a, b, k);
      }
      if |a| < |b| {
        assert b[..|a|] == [b[0]] + b[1..][..|a[1..]|];
        assert a == [a[0]] + a[1..];
      }
    } else {
      assert SmallerAt(a, b, 0) <==> a[0] < b[0];
      forall k | 0 < k
        ensures !SmallerAt(a, b, k)
      {
        if 0 < k < |a| && k < |b| {
          assert a[..k][0] != b[..k][0];
        }
      }
      if |a| < |b| {
        assert b[..|a|][0] != a[0];
      }
    }
  }
}
