/** The Python `str` operations the core is built from, over `string`
    (`seq<char>`): `find`, `split`, `join`, single-character `lstrip` and
    `rstrip`, `endswith` and `splitlines`. */
module Strings {
  import opened Wrappers

  /** `pat` occurs in `s` starting at index `i`. */
  predicate OccursAt(s: string, pat: string, i: int) {
    0 <= i && i + |pat| <= |s| && s[i..i + |pat|] == pat
  }

  predicate Contains(s: string, pat: string) {
    exists i :: 0 <= i <= |s| && OccursAt(s, pat, i)
  }

  /** Python's `s.endswith(suffix)`. */
  predicate EndsWith(s: string, suffix: string) {
    |suffix| <= |s| && s[|s| - |suffix|..] == suffix
  }

  /** A one-character pattern occurs exactly where that character is. */
  lemma OccursAtChar(s: string, c: char, i: int)
    ensures OccursAt(s, [c], i) <==> 0 <= i < |s| && s[i] == c
  {
    if 0 <= i < |s| {
      assert s[i..i + 1] == [s[i]];
    }
  }

  lemma ContainsChar(s: string, c: char)
    ensures Contains(s, [c]) <==> c in s
  {
    if c in s {
      var i :| 0 <= i < |s| && s[i] == c;
      OccursAtChar(s, c, i);
    }
    if Contains(s, [c]) {
      var i :| OccursAt(s, [c], i);
      OccursAtChar(s, c, i);
    }
  }

  /** An occurrence inside a prefix is an occurrence in the whole string. */
  lemma OccursInPrefix(s: string, pat: string, n: nat, i: int)
    requires n <= |s|
    requires OccursAt(s[..n], pat, i)
    ensures OccursAt(s, pat, i)
  {
    assert s[..n][i..i + |pat|] == s[i..i + |pat|];
  }

  /** The first occurrence of `pat` in `s` at or after index `from`
      (Python's `s.find(pat, from)`, with `None` for `-1`). */
  function Find(s: string, pat: string, from: nat): (r: Option<nat>)
    requires from <= |s|
    ensures r.Some? ==> from <= r.value && OccursAt(s, pat, r.value)
    ensures r.Some? ==> forall j :: from <= j < r.value ==> !OccursAt(s, pat, j)
    ensures r.None? ==> forall j :: from <= j ==> !OccursAt(s, pat, j)
    decreases |s| - from
  {
    if from + |pat| > |s| then None
    else if s[from..from + |pat|] == pat then Some(from)
    else Find(s, pat, from + 1)
  }

  /** Python's `sep.join(parts)`. */
  function Join(parts: seq<string>, sep: string): string
  {
    if |parts| == 0 then ""
    else if |parts| == 1 then parts[0]
    else parts[0] + sep + Join(parts[1..], sep)
  }

  /** Python's `s.split(sep)` for a non-empty separator: `s` is cut at every
      occurrence of `sep`, found left to right without overlaps. The pieces
      joined with `sep` give `s` back, no piece contains `sep`, and there is
      more than one piece exactly when `sep` occurs in `s`. */
  function Split(s: string, sep: string): (parts: seq<string>)
    requires |sep| > 0
    ensures |parts| >= 1
    ensures Join(parts, sep) == s
    ensures forall k :: 0 <= k < |parts| ==> !Contains(parts[k], sep)
    ensures |parts| == 1 <==> !Contains(s, sep)
    decreases |s|
  {
    match Find(s, sep, 0)
    case None => [s]
    case Some(i) =>
      var rest := Split(s[i + |sep|..], sep);
      SplitStep(s, sep, i, rest);
      [s[..i]] + rest
  }

  /** One step of `Split`: the piece before the first occurrence, then the
      pieces of the remainder. */
  lemma SplitStep(s: string, sep: string, i: nat, rest: seq<string>)
    requires |sep| > 0 && Find(s, sep, 0) == Some(i)
    requires |rest| >= 1 && Join(rest, sep) == s[i + |sep|..]
    requires forall k :: 0 <= k < |rest| ==> !Contains(rest[k], sep)
    ensures Join([s[..i]] + rest, sep) == s
    ensures forall k :: 0 <= k < |rest| + 1 ==> !Contains(([s[..i]] + rest)[k], sep)
    ensures Contains(s, sep)
  {
    JoinCons(s[..i], rest, sep);
    AroundOccurrence(s, sep, i);
    SplitStepPieces(s, sep, i, rest);
  }

  lemma SplitStepPieces(s: string, sep: string, i: nat, rest: seq<string>)
    requires |sep| > 0 && Find(s, sep, 0) == Some(i)
    requires forall k :: 0 <= k < |rest| ==> !Contains(rest[k], sep)
    ensures forall k :: 0 <= k < |rest| + 1 ==> !Contains(([s[..i]] + rest)[k], sep)
  {
    var parts := [s[..i]] + rest;
    NothingBeforeFirst(s, sep, i);
    forall k | 0 <= k < |parts|
      ensures !Contains(parts[k], sep)
    {
      if k == 0 {
        assert parts[0] == s[..i];
      } else {
        assert parts[k] == rest[k - 1];
      }
    }
  }

  lemma AroundOccurrence(s: string, pat: string, i: nat)
    requires OccursAt(s, pat, i)
    ensures s == s[..i] + pat + s[i + |pat|..]
  {
    assert s == s[..i] + s[i..i + |pat|] + s[i + |pat|..];
  }

  lemma JoinCons(a: string, rest: seq<string>, sep: string)
    requires |rest| >= 1
    ensures Join([a] + rest, sep) == a + sep + Join(rest, sep)
  {
    assert ([a] + rest)[1..] == rest;
  }

  /** No occurrence lies wholly before the first one. */
  lemma NothingBeforeFirst(s: string, sep: string, i: nat)
    requires |sep| > 0 && Find(s, sep, 0) == Some(i)
    ensures !Contains(s[..i], sep)
  {
    forall j | 0 <= j <= i && OccursAt(s[..i], sep, j)
      ensures false
    {
      OccursInPrefix(s, sep, i, j);
    }
  }

  /** The first piece of a split is everything before the first occurrence
      of the separator. */
  lemma SplitFirstPiece(s: string, sep: string, i: nat)
    requires |sep| > 0 && i <= |s|
    requires Find(s, sep, 0) == Some(i)
    ensures Split(s, sep)[0] == s[..i]
    ensures Split(s, sep)[1..] == Split(s[i + |sep|..], sep)
  {
  }

  /** A text with no occurrence of the separator splits into itself. */
  lemma SplitNone(s: string, sep: string)
    requires |sep| > 0 && !Contains(s, sep)
    ensures Split(s, sep) == [s]
  {
  }

  /** The second piece of a split is the text between the first occurrence
      of the separator and the next one (or the end), whatever follows. */
  lemma SecondPiece(s: string, sep: string, a: string, b: string, c: string)
    requires |sep| > 0 && s == a + sep + b + c
    requires forall i :: 0 <= i < |a| + |sep| + |b| && OccursAt(s, sep, i) ==> i == |a|
    requires c == "" || OccursAt(c, sep, 0)
    ensures |Split(s, sep)| >= 2 && Split(s, sep)[1] == b
  {
    Reassociate(a, sep, b, c);
    SplitAfterFirst(s, sep, a, b + c);
    var n := |a| + |sep|;
    forall j | 0 <= j < |b| && OccursAt(b + c, sep, j)
      ensures false
    {
      OccursInSuffix(s, sep, n, j);
    }
    FirstPieceOf(b + c, sep, b, c);
  }

  lemma Reassociate(a: string, sep: string, b: string, c: string)
    ensures a + sep + b + c == a + sep + (b + c)
  {
  }

  /** After an occurrence with none before it, the split goes on with the
      pieces of the rest. */
  lemma SplitAfterFirst(s: string, sep: string, a: string, rest: string)
    requires |sep| > 0 && s == a + sep + rest
    requires forall i :: 0 <= i < |a| ==> !OccursAt(s, sep, i)
    ensures s[|a| + |sep|..] == rest
    ensures Split(s, sep) == [a] + Split(rest, sep)
  {
    Around(a, sep, rest);
    FindFirst(s, sep, |a|);
    SplitFirstPiece(s, sep, |a|);
    assert s[..|a|] == a;
  }

  /** The first piece of `b + c` is `b` when the separator does not start
      inside `b` and `c` is empty or starts with it. */
  lemma FirstPieceOf(t: string, sep: string, b: string, c: string)
    requires |sep| > 0 && t == b + c
    requires forall j :: 0 <= j < |b| ==> !OccursAt(t, sep, j)
    requires c == "" || OccursAt(c, sep, 0)
    ensures Split(t, sep)[0] == b
  {
    if c == "" {
      assert t == b;
      assert Split(t, sep) == [b];
    } else {
      assert t[|b|..|b| + |sep|] == c[..|sep|];
      FindFirst(t, sep, |b|);
      SplitFirstPiece(t, sep, |b|);
      assert t[..|b|] == b;
    }
  }

  /** The parts of `a + sep + rest` around the separator. */
  lemma Around(a: string, sep: string, rest: string)
    ensures OccursAt(a + sep + rest, sep, |a|)
    ensures (a + sep + rest)[|a| + |sep|..] == rest
  {
    var s := a + sep + rest;
    assert s[|a|..|a| + |sep|] == sep;
  }

  /** An occurrence with none before it is the one `Find` returns. */
  lemma FindFirst(s: string, sep: string, i: nat)
    requires OccursAt(s, sep, i)
    requires forall j :: 0 <= j < i ==> !OccursAt(s, sep, j)
    ensures Find(s, sep, 0) == Some(i)
  {
    var f := Find(s, sep, 0);
    assert f.Some?;
    assert !(f.value < i);
  }

  /** The text after position `n` holds an occurrence only where the whole
      text does. */
  lemma OccursInSuffix(s: string, pat: string, n: nat, j: int)
    requires n <= |s| && OccursAt(s[n..], pat, j)
    ensures OccursAt(s, pat, n + j)
  {
    assert s[n..][j..j + |pat|] == s[n + j..n + j + |pat|];
  }

  /** Splitting on a character undoes joining with it, provided no piece
      contains that character. */
  lemma {:induction false} SplitJoinChar(parts: seq<string>, c: char)
    requires |parts| >= 1
    requires forall k :: 0 <= k < |parts| ==> c !in parts[k]
    ensures Split(Join(parts, [c]), [c]) == parts
    decreases |parts|
  {
    var s := Join(parts, [c]);
    if |parts| == 1 {
      ContainsChar(parts[0], c);
      assert !Contains(s, [c]);
    } else {
      var rest := Join(parts[1..], [c]);
      assert s == parts[0] + [c] + rest;
      NoCharBefore(s, parts[0], c);
      SplitAfterFirst(s, [c], parts[0], rest);
      SplitJoinChar(parts[1..], c);
    }
  }

  /** A text that starts with a piece free of `c` holds no `c` before the
      piece ends. */
  lemma NoCharBefore(s: string, a: string, c: char)
    requires |a| <= |s| && s[..|a|] == a && c !in a
    ensures forall i :: 0 <= i < |a| ==> !OccursAt(s, [c], i)
  {
    forall i | 0 <= i < |a|
      ensures !OccursAt(s, [c], i)
    {
      OccursAtChar(s, c, i);
      assert s[i] == a[i];
    }
  }

  /** Python's `s.lstrip(c)` for a single character: every leading `c` is
      removed, and nothing else. */
  function LStrip(s: string, c: char): (r: string)
    ensures |r| <= |s| && r == s[|s| - |r|..]
    ensures forall i :: 0 <= i < |s| - |r| ==> s[i] == c
    ensures |r| > 0 ==> r[0] != c
    decreases |s|
  {
    if |s| > 0 && s[0] == c then LStrip(s[1..], c) else s
  }

  /** Python's `s.rstrip(c)` for a single character: every trailing `c` is
      removed, and nothing else. */
  function RStrip(s: string, c: char): (r: string)
    ensures |r| <= |s| && r == s[..|r|]
    ensures forall i :: |r| <= i < |s| ==> s[i] == c
    ensures |r| > 0 ==> r[|r| - 1] != c
    decreases |s|
  {
    if |s| > 0 && s[|s| - 1] == c then RStrip(s[..|s| - 1], c) else s
  }

  /** Stripping the trailing `c`s off `x + tail` gives `x` back when `tail`
      is made of `c`s only and `x` does not end with `c`. */
  lemma RStripExact(x: string, tail: string, c: char)
    requires forall i :: 0 <= i < |tail| ==> tail[i] == c
    requires |x| > 0 ==> x[|x| - 1] != c
    ensures RStrip(x + tail, c) == x
  {
    var s := x + tail;
    var r := RStrip(s, c);
    assert forall i :: 0 <= i < |x| ==> s[i] == x[i];
    assert forall i :: |x| <= i < |s| ==> s[i] == tail[i - |x|];
    assert r == s[..|x|] == x;
  }

  /** Stripping the leading `c`s off `lead + x` gives `x` back when `lead`
      is made of `c`s only and `x` does not start with `c`. */
  lemma LStripExact(lead: string, x: string, c: char)
    requires forall i :: 0 <= i < |lead| ==> lead[i] == c
    requires |x| > 0 ==> x[0] != c
    ensures LStrip(lead + x, c) == x
  {
    var s := lead + x;
    var r := LStrip(s, c);
    assert forall i :: 0 <= i < |lead| ==> s[i] == lead[i];
    assert forall i :: |lead| <= i < |s| ==> s[i] == x[i - |lead|];
    assert r == s[|lead|..] == x;
  }

  /** Joining one more piece appends the separator and that piece. */
  lemma {:induction false} JoinSnoc(parts: seq<string>, p: string, sep: string)
    requires |parts| >= 1
    ensures Join(parts + [p], sep) == Join(parts, sep) + sep + p
  {
    if |parts| > 1 {
      assert (parts + [p])[1..] == parts[1..] + [p];
      JoinSnoc(parts[1..], p, sep);
    } else {
      assert (parts + [p])[1..] == [p];
    }
  }

  /** A join ends with its last piece. */
  lemma {:induction false} JoinEndsWithLast(parts: seq<string>, sep: string)
    requires |parts| >= 1
    ensures EndsWith(Join(parts, sep), parts[|parts| - 1])
  {
    if |parts| > 1 {
      JoinEndsWithLast(parts[1..], sep);
      var rest := Join(parts[1..], sep);
      var last := parts[|parts| - 1];
      assert last == parts[1..][|parts[1..]| - 1];
      var s := Join(parts, sep);
      assert s == parts[0] + sep + rest;
      assert s[|s| - |last|..] == rest[|rest| - |last|..];
    }
  }

  /** The characters Python's `str.splitlines` ends a line at; the pair
      `"\r\n"` counts as a single boundary. */
  predicate IsLineBoundary(c: char) {
    || c == '\n' || c == '\r' || c == '\U{0B}' || c == '\U{0C}'
    || c == '\U{1C}' || c == '\U{1D}' || c == '\U{1E}'
    || c == '\U{85}' || c == '\U{2028}' || c == '\U{2029}'
  }

  predicate IsSingleLine(s: string) {
    forall i :: 0 <= i < |s| ==> !IsLineBoundary(s[i])
  }

  /** Index of the first line boundary at or after `from`, or `|s|`. */
  function NextBoundary(s: string, from: nat): (r: nat)
    requires from <= |s|
    ensures from <= r <= |s|
    ensures forall j :: from <= j < r ==> !IsLineBoundary(s[j])
    ensures r < |s| ==> IsLineBoundary(s[r])
    decreases |s| - from
  {
    if from == |s| || IsLineBoundary(s[from]) then from else NextBoundary(s, from + 1)
  }

  /** Python's `s.splitlines()`: the lines of `s` without their boundaries;
      a final boundary does not open an extra empty line, and the empty text
      has no lines at all. */
  function SplitLines(s: string): (lines: seq<string>)
    ensures |lines| == 0 <==> |s| == 0
    ensures forall k :: 0 <= k < |lines| ==> IsSingleLine(lines[k])
    decreases |s|
  {
    if |s| == 0 then []
    else
      var i := NextBoundary(s, 0);
      if i == |s| then [s]
      else
        var width := if s[i] == '\r' && i + 1 < |s| && s[i + 1] == '\n' then 2 else 1;
        [s[..i]] + SplitLines(s[i + width..])
  }

  /** Joining single-line pieces with a single-line separator gives a
      single line. */
  lemma {:induction false} JoinSingleLine(parts: seq<string>, sep: string)
    requires IsSingleLine(sep)
    requires forall k :: 0 <= k < |parts| ==> IsSingleLine(parts[k])
    ensures IsSingleLine(Join(parts, sep))
  {
    if |parts| > 1 {
      JoinSingleLine(parts[1..], sep);
      var rest := Join(parts[1..], sep);
      var s := parts[0] + sep + rest;
      forall i | 0 <= i < |s|
        ensures !IsLineBoundary(s[i])
      {
        if i < |parts[0]| {
          assert s[i] == parts[0][i];
        } else if i < |parts[0]| + |sep| {
          assert s[i] == sep[i - |parts[0]|];
        } else {
          assert s[i] == rest[i - |parts[0]| - |sep|];
        }
      }
    }
  }

  /** The text of a file holding `lines`, each ended by `"\n"`. */
  function Terminated(lines: seq<string>): string
  {
    if |lines| == 0 then "" else lines[0] + "\n" + Terminated(lines[1..])
  }

  /** `splitlines` recovers the lines of a newline-terminated text. */
  lemma {:induction false} SplitLinesTerminated(lines: seq<string>)
    requires forall k :: 0 <= k < |lines| ==> IsSingleLine(lines[k])
    ensures SplitLines(Terminated(lines)) == lines
  {
    if |lines| > 0 {
      SplitLinesTerminated(lines[1..]);
      SplitLinesFront(lines[0], Terminated(lines[1..]));
    }
  }

  /** A single line ended by `"\n"` in front of a text is its first line. */
  lemma SplitLinesFront(line: string, rest: string)
    requires IsSingleLine(line)
    ensures SplitLines(line + "\n" + rest) == [line] + SplitLines(rest)
  {
    SplitLinesFrontEnd(line, "\n", rest);
  }

  /** What may end a line: `"\r\n"` or a single boundary character. */
  predicate IsLineEnd(end: string) {
    end == "\r\n" || (|end| == 1 && IsLineBoundary(end[0]))
  }

  /** A single line and its end in front of a text make its first line,
      unless a lone `"\r"` end would pair up with a `"\n"` after it. */
  lemma SplitLinesFrontEnd(line: string, end: string, rest: string)
    requires IsSingleLine(line) && IsLineEnd(end)
    requires end == "\r" && |rest| > 0 ==> rest[0] != '\n'
    ensures SplitLines(line + end + rest) == [line] + SplitLines(rest)
  {
    var s := line + end + rest;
    var n := |line|;
    assert s[n] == end[0];
    assert forall j :: 0 <= j < n ==> s[j] == line[j];
    assert NextBoundary(s, 0) == n;
    assert s[..n] == line;
    if end == "\r\n" {
      assert s[n + 1] == '\n';
    } else if end == "\r" && |rest| > 0 {
      assert s[n + 1] == rest[0];
    }
    assert s[n + |end|..] == rest;
  }

  /** The text of `lines`, each followed by its end. */
  function JoinLines(lines: seq<string>, ends: seq<string>): string
    requires |ends| == |lines|
  {
    if |lines| == 0 then "" else lines[0] + ends[0] + JoinLines(lines[1..], ends[1..])
  }

  /** `ends` can end `lines` in a text that `splitlines` reads back: the
      lines hold no boundary, each end but the last is a line end, the last
      line is ended or else not empty, and a lone `"\r"` end is not followed
      by an empty line ended by `"\n"` (the two would make one `"\r\n"`). */
  predicate LinesEnded(lines: seq<string>, ends: seq<string>) {
    && |ends| == |lines|
    && (forall k :: 0 <= k < |lines| ==> IsSingleLine(lines[k]))
    && (forall k :: 0 <= k < |ends| - 1 ==> IsLineEnd(ends[k]))
    && (|ends| > 0 ==> IsLineEnd(ends[|ends| - 1]) || (ends[|ends| - 1] == "" && lines[|lines| - 1] != ""))
    && (forall k :: 0 <= k < |ends| - 1 && ends[k] == "\r" ==> lines[k + 1] != "" || ends[k + 1] != "\n")
  }

  /** Dropping the first line and its end keeps the lines well ended. */
  lemma LinesEndedTail(lines: seq<string>, ends: seq<string>)
    requires LinesEnded(lines, ends) && |lines| > 0
    ensures LinesEnded(lines[1..], ends[1..])
  {
    var tl, te := lines[1..], ends[1..];
    assert forall k :: 0 <= k < |tl| ==> tl[k] == lines[k + 1];
    assert forall k :: 0 <= k < |te| ==> te[k] == ends[k + 1];
  }

  /** The text after a line and its end does not start with `"\n"` when
      that end is a lone `"\r"`. */
  lemma NoNewlineAfterReturn(lines: seq<string>, ends: seq<string>)
    requires LinesEnded(lines, ends) && |lines| > 1 && ends[0] == "\r"
    ensures var rest := JoinLines(lines[1..], ends[1..]); |rest| > 0 ==> rest[0] != '\n'
  {
    var rest := JoinLines(lines[1..], ends[1..]);
    assert rest == lines[1] + ends[1] + JoinLines(lines[2..], ends[2..]);
    if lines[1] != "" {
      assert rest[0] == lines[1][0];
    } else if ends[1] != "" {
      assert rest[0] == ends[1][0];
    }
  }

  /** `splitlines` recovers any lines from their text, whatever boundaries
      end them, a last line without an end included. */
  lemma {:induction false} SplitLinesJoin(lines: seq<string>, ends: seq<string>)
    requires LinesEnded(lines, ends)
    ensures SplitLines(JoinLines(lines, ends)) == lines
  {
    if |lines| > 0 {
      var rest := JoinLines(lines[1..], ends[1..]);
      if ends[0] == "" {
        assert |lines| == 1 && JoinLines(lines, ends) == lines[0];
        SplitLinesSingle(lines[0]);
      } else {
        if |lines| > 1 {
          LinesEndedTail(lines, ends);
          SplitLinesJoin(lines[1..], ends[1..]);
          if ends[0] == "\r" {
            NoNewlineAfterReturn(lines, ends);
          }
        }
        SplitLinesFrontEnd(lines[0], ends[0], rest);
      }
    }
  }

  /** A non-empty single line is its only line. */
  lemma SplitLinesSingle(line: string)
    requires IsSingleLine(line) && line != ""
    ensures SplitLines(line) == [line]
  {
    assert NextBoundary(line, 0) == |line|;
  }

  /** Every text is its lines, each followed by the end `splitlines` cut it
      at: together with `SplitLinesJoin`, the lines are exactly the pieces
      between line ends. */
  lemma SplitLinesCover(s: string)
    ensures exists ends :: LinesEnded(SplitLines(s), ends) && JoinLines(SplitLines(s), ends) == s
  {
    var ends := LineEndsOf(s);
  }

  /** The ends `splitlines` cuts `s` at, one per line. */
  lemma {:induction false} LineEndsOf(s: string) returns (ends: seq<string>)
    ensures LinesEnded(SplitLines(s), ends) && JoinLines(SplitLines(s), ends) == s
    decreases |s|
  {
    if |s| == 0 {
      return [];
    }
    var i := NextBoundary(s, 0);
    if i == |s| {
      return [""];
    }
    var width := if s[i] == '\r' && i + 1 < |s| && s[i + 1] == '\n' then 2 else 1;
    var line, end, rest := s[..i], s[i..i + width], s[i + width..];
    var more := LineEndsOf(rest);
    ends := [end] + more;
    assert SplitLines(s) == [line] + SplitLines(rest);
    CutEnd(s, i, width);
    FirstLineCut(s, line, end, rest, more);
  }

  /** A first line and its end in front of the well-ended lines of the
      rest of the text. */
  lemma FirstLineCut(s: string, line: string, end: string, rest: string, more: seq<string>)
    requires s == line + end + rest && SplitLines(s) == [line] + SplitLines(rest)
    requires IsSingleLine(line) && IsLineEnd(end)
    requires end == "\r" && |rest| > 0 ==> rest[0] != '\n'
    requires LinesEnded(SplitLines(rest), more) && JoinLines(SplitLines(rest), more) == rest
    ensures LinesEnded(SplitLines(s), [end] + more)
    ensures JoinLines(SplitLines(s), [end] + more) == s
  {
    LinesEndedCons(line, end, SplitLines(rest), more);
  }

  /** A text is its three slices at `i` and `j`. */
  lemma Slices3(s: string, i: nat, j: nat)
    requires i <= j <= |s|
    ensures s == s[..i] + s[i..j] + s[j..]
  {
    assert s[..i] + s[i..j] == s[..j];
  }

  /** Cut at its first boundary, a text is a single line, a line end, and
      the rest, which does not start with `"\n"` after a lone `"\r"`. */
  lemma CutEnd(s: string, i: nat, width: nat)
    requires i == NextBoundary(s, 0) < |s|
    requires width == if s[i] == '\r' && i + 1 < |s| && s[i + 1] == '\n' then 2 else 1
    ensures s == s[..i] + s[i..i + width] + s[i + width..]
    ensures IsSingleLine(s[..i])
    ensures IsLineEnd(s[i..i + width])
    ensures s[i..i + width] == "\r" && i + width < |s| ==> s[i + width..][0] != '\n'
  {
    Slices3(s, i, i + width);
    assert forall k :: 0 <= k < i ==> s[..i][k] == s[k];
    LineEndAt(s[i..i + width], s[i]);
  }

  /** One or two characters starting with a boundary, the second a `"\n"`
      after `"\r"`, end a line. */
  lemma LineEndAt(e: string, c: char)
    requires IsLineBoundary(c) && 1 <= |e| <= 2 && e[0] == c
    requires |e| == 2 ==> c == '\r' && e[1] == '\n'
    ensures IsLineEnd(e)
  {
    if |e| == 2 {
      assert e == "\r\n";
    }
  }

  /** A line and its end in front of well-ended lines keep them well
      ended, provided a lone `"\r"` end is not followed by `"\n"`. */
  lemma LinesEndedCons(line: string, end: string, lines: seq<string>, ends: seq<string>)
    requires IsSingleLine(line) && IsLineEnd(end) && LinesEnded(lines, ends)
    requires end == "\r" && |JoinLines(lines, ends)| > 0 ==> JoinLines(lines, ends)[0] != '\n'
    ensures LinesEnded([line] + lines, [end] + ends)
    ensures JoinLines([line] + lines, [end] + ends) == line + end + JoinLines(lines, ends)
  {
    var ls, es := [line] + lines, [end] + ends;
    assert ls[1..] == lines && es[1..] == ends;
    assert forall k :: 1 <= k < |ls| ==> ls[k] == lines[k - 1];
    assert forall k :: 1 <= k < |es| ==> es[k] == ends[k - 1];
  }
}
