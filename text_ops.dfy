/** Text helpers: ordinal case-insensitive comparison and the ';'-separated
    list format shared by target-framework lists and Assets flags. */
module TextOps {

  const Separator: char := ';'

  /** Upper-casing of one character, for the ASCII letters. */
  function Upper(c: char): char {
    if 'a' <= c <= 'z' then (c as int - 32) as char else c
  }

  function FoldCase(s: string): (r: string)
    ensures |r| == |s|
    ensures forall i :: 0 <= i < |s| ==> r[i] == Upper(s[i])
  {
    seq(|s|, i requires 0 <= i < |s| => Upper(s[i]))
  }

  /** `StringComparison.OrdinalIgnoreCase` equality. */
  predicate EqualsIgnoreCase(a: string, b: string) {
    FoldCase(a) == FoldCase(b)
  }

  lemma EqualsIgnoreCaseReflexive(a: string)
    ensures EqualsIgnoreCase(a, a)
  {
  }

  /** The ASCII white space `Enum.TryParse` skips around a name. */
  predicate IsBlank(c: char) {
    c == ' ' || c == '\t' || c == '\n' || c == '\r' || c == '\U{B}' || c == '\U{C}'
  }

  /** Drops the leading blanks. */
  function TrimStart(s: string): string {
    if s != [] && IsBlank(s[0]) then TrimStart(s[1..]) else s
  }

  /** Drops the trailing blanks. */
  function TrimEnd(s: string): string {
    if s != [] && IsBlank(s[|s| - 1]) then TrimEnd(s[..|s| - 1]) else s
  }

  /** `TrimStart` keeps a suffix, drops only blanks, and stops at a non-blank. */
  lemma {:induction false} TrimStartSuffix(s: string)
    ensures |TrimStart(s)| <= |s| && TrimStart(s) == s[|s| - |TrimStart(s)|..]
    ensures forall k :: 0 <= k < |s| - |TrimStart(s)| ==> IsBlank(s[k])
    ensures TrimStart(s) != [] ==> !IsBlank(TrimStart(s)[0])
  {
    if s != [] && IsBlank(s[0]) {
      TrimStartSuffix(s[1..]);
      forall k | 1 <= k < |s| - |TrimStart(s)|
        ensures IsBlank(s[k])
      {
        assert s[k] == s[1..][k - 1];
      }
    }
  }

  /** `TrimEnd` keeps a prefix, drops only blanks, and stops at a non-blank. */
  lemma {:induction false} TrimEndPrefix(s: string)
    ensures |TrimEnd(s)| <= |s| && TrimEnd(s) == s[..|TrimEnd(s)|]
    ensures forall k :: |TrimEnd(s)| <= k < |s| ==> IsBlank(s[k])
    ensures TrimEnd(s) != [] ==> !IsBlank(TrimEnd(s)[|TrimEnd(s)| - 1])
  {
    if s != [] && IsBlank(s[|s| - 1]) {
      TrimEndPrefix(s[..|s| - 1]);
      forall k | |TrimEnd(s)| <= k < |s| - 1
        ensures IsBlank(s[k])
      {
        assert s[k] == s[..|s| - 1][k];
      }
    }
  }

  /** `Trim` with the ASCII blanks: the text between the first and the last
      character that is not blank. */
  function TrimBlanks(s: string): string {
    TrimEnd(TrimStart(s))
  }

  /** Text with no blank at either end is its own trimmed form. */
  lemma TrimUnblanked(s: string)
    requires s != [] ==> !IsBlank(s[0]) && !IsBlank(s[|s| - 1])
    ensures TrimBlanks(s) == s
  {
  }

  /** Trimming removes blanks only: the result is a slice of the text with
      nothing but blanks around it, and no blank at either of its ends. */
  lemma {:induction false} TrimBlanksSlice(s: string)
    ensures var r, i := TrimBlanks(s), |s| - |TrimStart(s)|;
      0 <= i && i + |r| <= |s| && r == s[i..i + |r|] &&
      (forall k :: 0 <= k < i ==> IsBlank(s[k])) && (forall k :: i + |r| <= k < |s| ==> IsBlank(s[k]))
    ensures TrimBlanks(s) != [] ==> !IsBlank(TrimBlanks(s)[0]) && !IsBlank(TrimBlanks(s)[|TrimBlanks(s)| - 1])
  {
    TrimStartSuffix(s);
    var t := TrimStart(s);
    TrimEndPrefix(t);
    var r := TrimEnd(t);
    var i := |s| - |t|;
    assert r == s[i..i + |r|];
    forall k | i + |r| <= k < |s|
      ensures IsBlank(s[k])
    {
      assert s[k] == t[k - i];
    }
    if r != [] {
      assert r[0] == t[0];
    }
  }

  /** Every segment between separators, in order; a text without separators
      is one segment, the empty text is one empty segment. Defined from the
      end, the way a left-to-right scan discovers it. */
  function Split(s: string): (r: seq<string>)
    ensures |r| >= 1
    decreases |s|
  {
    if s == [] then [[]]
    else
      var p := Split(s[..|s| - 1]);
      if s[|s| - 1] == Separator then p + [[]]
      else p[..|p| - 1] + [p[|p| - 1] + [s[|s| - 1]]]
  }

  /** The segments a scan reports: all of `Split`, except a final empty one
      (a trailing separator or the empty text adds no element). */
  function Segments(s: string): seq<string> {
    var p := Split(s);
    if p[|p| - 1] == [] then p[..|p| - 1] else p
  }

  /** Parts joined with one separator between neighbours. */
  function Join(parts: seq<string>): string
    decreases |parts|
  {
    if |parts| == 0 then []
    else if |parts| == 1 then parts[0]
    else Join(parts[..|parts| - 1]) + [Separator] + parts[|parts| - 1]
  }

  predicate NoSeparator(s: string) {
    forall i :: 0 <= i < |s| ==> s[i] != Separator
  }

  lemma {:induction false} SplitWithoutSeparator(s: string)
    requires NoSeparator(s)
    ensures Split(s) == [s]
    decreases |s|
  {
    if s != [] {
      SplitWithoutSeparator(s[..|s| - 1]);
      assert s[..|s| - 1] + [s[|s| - 1]] == s;
    }
  }

  /** `Split` read one character at a time from the left. */
  lemma SplitSnoc(s: string, c: char)
    ensures var p := Split(s);
      Split(s + [c]) == if c == Separator then p + [[]] else p[..|p| - 1] + [p[|p| - 1] + [c]]
  {
    assert (s + [c])[..|s|] == s;
  }

  /** A separator cuts the list in two. */
  lemma {:induction false} SplitAppend(s: string, t: string)
    ensures Split(s + [Separator] + t) == Split(s) + Split(t)
    decreases |t|
  {
    if t == [] {
      SplitSnoc(s, Separator);
      assert s + [Separator] + t == s + [Separator];
    } else {
      var t', c := t[..|t| - 1], t[|t| - 1];
      assert t == t' + [c];
      SplitAppend(s, t');
      assert s + [Separator] + t == (s + [Separator] + t') + [c];
      SplitSnoc(s + [Separator] + t', c);
      SplitSnoc(t', c);
      SplitAppendStep(Split(s), Split(t'), Split(s + [Separator] + t'), Split(s + [Separator] + t), Split(t), c);
    }
  }

  lemma SplitAppendStep(a: seq<string>, q: seq<string>, pq: seq<string>, u: seq<string>, t: seq<string>, c: char)
    requires |q| >= 1 && pq == a + q
    requires u == if c == Separator then pq + [[]] else pq[..|pq| - 1] + [pq[|pq| - 1] + [c]]
    requires t == if c == Separator then q + [[]] else q[..|q| - 1] + [q[|q| - 1] + [c]]
    ensures u == a + t
  {
    if c != Separator {
      assert pq[..|pq| - 1] == a + q[..|q| - 1];
    }
  }

  /** Splitting a joined list gives the parts back when no part holds a separator. */
  lemma {:induction false} SplitJoin(parts: seq<string>)
    requires |parts| >= 1
    requires forall i :: 0 <= i < |parts| ==> NoSeparator(parts[i])
    ensures Split(Join(parts)) == parts
    decreases |parts|
  {
    if |parts| == 1 {
      SplitWithoutSeparator(parts[0]);
    } else {
      var init := parts[..|parts| - 1];
      SplitJoin(init);
      SplitAppend(Join(init), parts[|parts| - 1]);
      SplitWithoutSeparator(parts[|parts| - 1]);
      assert init + [parts[|parts| - 1]] == parts;
    }
  }

  /** The list format round-trips: separator-free parts whose last part is
      non-empty come back from `Segments` exactly. */
  lemma SegmentsJoin(parts: seq<string>)
    requires |parts| >= 1 && parts[|parts| - 1] != []
    requires forall i :: 0 <= i < |parts| ==> NoSeparator(parts[i])
    ensures Segments(Join(parts)) == parts
  {
    SplitJoin(parts);
  }

  /** A trailing separator adds no element: the segments of `s;` are all of
      the segments of `s`, including an empty last one. */
  lemma TrailingSeparator(s: string)
    ensures Segments(s + [Separator]) == Split(s)
  {
    assert (s + [Separator])[..|s|] == s;
  }

  /** Two or more parts are joined with at least one separator. */
  lemma {:induction false} JoinHasSeparator(parts: seq<string>)
    requires |parts| >= 2
    ensures !NoSeparator(Join(parts))
  {
    var j := Join(parts[..|parts| - 1]);
    assert Join(parts)[|j|] == Separator;
  }

  lemma {:induction false} JoinWithoutSeparator(parts: seq<string>)
    requires forall i :: 0 <= i < |parts| ==> NoSeparator(parts[i])
    requires |parts| <= 1
    ensures NoSeparator(Join(parts))
  {
  }

  // ---------------------------------------------------------------- scanning

  /** The segments a left-to-right scan has reported after reading `i`
      characters: every segment closed by a separator so far, and also the
      last segment once its final (non-separator) character is read. */
  function Scanned(s: string, i: nat): seq<string>
    requires i <= |s|
  {
    var p := Split(s[..i]);
    if i == |s| && i > 0 && s[i - 1] != Separator then p else p[..|p| - 1]
  }

  /** After the whole text the scan has reported exactly its segments. */
  lemma ScannedAll(s: string)
    ensures Scanned(s, |s|) == Segments(s)
  {
    assert s[..|s|] == s;
    if |s| > 0 {
      SplitSnoc(s[..|s| - 1], s[|s| - 1]);
      assert s[..|s| - 1] + [s[|s| - 1]] == s;
    }
  }

  /** One step of the scan, where the open segment started at `start`. */
  lemma ScanStep(s: string, i: nat, start: nat)
    requires start <= i < |s|
    requires Split(s[..i])[|Split(s[..i])| - 1] == s[start..i]
    ensures s[i] == Separator ==>
      Scanned(s, i + 1) == Scanned(s, i) + [s[start..i]] &&
      (i + 1 < |s| ==> Split(s[..i + 1])[|Split(s[..i + 1])| - 1] == s[i + 1..i + 1])
    ensures s[i] != Separator && i == |s| - 1 ==> Scanned(s, i + 1) == Scanned(s, i) + [s[start..]]
    ensures s[i] != Separator && i < |s| - 1 ==>
      Scanned(s, i + 1) == Scanned(s, i) &&
      Split(s[..i + 1])[|Split(s[..i + 1])| - 1] == s[start..i + 1]
  {
    var p := Split(s[..i]);
    assert s[..i + 1] == s[..i] + [s[i]];
    SplitSnoc(s[..i], s[i]);
    if s[i] == Separator {
      ScanStepAtSeparator(s, i, start, p);
    } else {
      ScanStepInSegment(s, i, start, p);
    }
  }

  lemma ScanStepAtSeparator(s: string, i: nat, start: nat, p: seq<string>)
    requires start <= i < |s| && s[i] == Separator
    requires p == Split(s[..i]) && p[|p| - 1] == s[start..i]
    requires Split(s[..i + 1]) == p + [[]]
    ensures Scanned(s, i + 1) == Scanned(s, i) + [s[start..i]]
    ensures Split(s[..i + 1])[|Split(s[..i + 1])| - 1] == s[i + 1..i + 1]
  {
    assert p == p[..|p| - 1] + [s[start..i]];
  }

  lemma ScanStepInSegment(s: string, i: nat, start: nat, p: seq<string>)
    requires start <= i < |s| && s[i] != Separator
    requires p == Split(s[..i]) && p[|p| - 1] == s[start..i]
    requires Split(s[..i + 1]) == p[..|p| - 1] + [p[|p| - 1] + [s[i]]]
    ensures i == |s| - 1 ==> Scanned(s, i + 1) == Scanned(s, i) + [s[start..]]
    ensures i < |s| - 1 ==>
      Scanned(s, i + 1) == Scanned(s, i) &&
      Split(s[..i + 1])[|Split(s[..i + 1])| - 1] == s[start..i + 1]
  {
    var q := Split(s[..i + 1]);
    assert s[start..i] + [s[i]] == s[start..i + 1];
    assert q[|q| - 1] == s[start..i + 1];
    if i + 1 == |s| {
      assert s[start..] == s[start..i + 1];
    } else {
      assert q[..|q| - 1] == p[..|p| - 1];
    }
  }

  /** What the scan has reported is never taken back. */
  lemma ScannedGrows(s: string, i: nat)
    requires i < |s|
    ensures Scanned(s, i) <= Scanned(s, i + 1)
  {
    assert s[..i + 1] == s[..i] + [s[i]];
    SplitSnoc(s[..i], s[i]);
  }

  lemma {:induction false} ScannedPrefix(s: string, i: nat)
    requires i <= |s|
    ensures Scanned(s, i) <= Segments(s)
    decreases |s| - i
  {
    if i == |s| {
      ScannedAll(s);
    } else {
      ScannedGrows(s, i);
      ScannedPrefix(s, i + 1);
    }
  }
}
