/** The GRIB2 `.idx` parser (`parse_idx`): index text, one GRIB message per
    line in the form `seq:start_byte:d=run:param:level:descriptor[:]`, becomes a
    map level -> parameter -> byte range of that message in the GRIB file. */
module Grib {
  import opened Wrappers
  import opened Strings
  import opened Decimal

  /** Bytes of the GRIB file from `start` up to the next message's start
      `end`, or to the end of the file when `end` is `None`. */
  datatype ByteRange = ByteRange(start: int, end: Option<int>)

  /** level -> parameter -> byte range. The source stores each range under a
      `"byte_range"` key of a one-entry dict; that wrapper is left implicit. */
  type IndexMap = map<string, map<string, ByteRange>>

  /** The three fields of an index line the parser keeps. */
  datatype IdxRecord = IdxRecord(start: int, param: string, level: string)

  /** Why a single line is rejected: it does not split into exactly six
      fields (a `ValueError` from the tuple unpacking), or its second field
      is not an integer (a `ValueError` from `int`). */
  datatype LineError = WrongFieldCount(fields: nat) | StartNotInteger(field: string)

  /** The error that aborts a whole parse: the 0-based number of the line it
      was raised on, and why. */
  datatype IdxError = IdxError(line: nat, cause: LineError)

  const FieldsPerLine: nat := 6

  /** One line: trailing colons stripped, split on `:` into exactly six
      fields, the second read as an integer. */
  function ParseLine(line: string): Result<IdxRecord, LineError>
  {
    var fields := Split(RStrip(line, ':'), ":");
    if |fields| != FieldsPerLine then Failure(WrongFieldCount(|fields|))
    else match ParseInt(fields[1])
      case None => Failure(StartNotInteger(fields[1]))
      case Some(start) => Success(IdxRecord(start, fields[3], fields[4]))
  }

  /** An index line as upstream writes it: six fields joined by `:`,
      optionally ended by one more `:`. */
  function FormatLine(fields: seq<string>, trailingColon: bool): string
    requires |fields| == FieldsPerLine
  {
    Join(fields, ":") + (if trailingColon then ":" else "")
  }

  /** A line written from six colon-free fields with a non-empty last field
      and an integer second field parses back to that integer and the
      fourth and fifth fields, with or without the trailing colon. */
  lemma ParseFormattedLine(fields: seq<string>, trailingColon: bool, start: int)
    requires |fields| == FieldsPerLine
    requires forall k :: 0 <= k < |fields| ==> ':' !in fields[k]
    requires fields[1] == IntToDecimal(start)
    requires fields[5] != ""
    ensures ParseLine(FormatLine(fields, trailingColon)) == Success(IdxRecord(start, fields[3], fields[4]))
  {
    var joined := Join(fields, ":");
    var tail := if trailingColon then ":" else "";
    JoinEndsWithLast(fields, ":");
    assert joined[|joined| - 1] == fields[5][|fields[5]| - 1];
    RStripExact(joined, tail, ':');
    SplitJoinChar(fields, ':');
    ParseIntDecimal(start);
  }

  /** Stripping trailing colons merges an empty last field into the one
      before it, so a line whose descriptor is empty never has six fields. */
  lemma EmptyDescriptorRejected(fields: seq<string>, trailingColon: bool)
    requires |fields| == FieldsPerLine
    requires forall k :: 0 <= k < |fields| ==> ':' !in fields[k]
    requires fields[4] != "" && fields[5] == ""
    ensures ParseLine(FormatLine(fields, trailingColon)) == Failure(WrongFieldCount(5))
  {
    var line := FormatLine(fields, trailingColon);
    var five := fields[..5];
    var tail := if trailingColon then "::" else ":";
    JoinDropEmptyLast(fields, ":");
    assert line == Join(five, ":") + tail;
    JoinEndsWithLast(five, ":");
    var joined := Join(five, ":");
    assert joined[|joined| - 1] == fields[4][|fields[4]| - 1];
    RStripExact(joined, tail, ':');
    SplitJoinChar(five, ':');
  }

  /** Joining six pieces whose last is empty is joining the first five and
      appending the separator. */
  lemma JoinDropEmptyLast(fields: seq<string>, sep: string)
    requires |fields| == FieldsPerLine && fields[5] == ""
    ensures Join(fields, sep) == Join(fields[..5], sep) + sep
  {
    assert fields == fields[..5] + [fields[5]];
    JoinSnoc(fields[..5], fields[5], sep);
  }

  /** The range line `i` of `recs` is given: from its own start to the start
      of the line after it, or unbounded for the last line. */
  function RangeOf(recs: seq<IdxRecord>, i: nat): ByteRange
    requires i < |recs|
  {
    ByteRange(recs[i].start, if i + 1 < |recs| then Some(recs[i + 1].start) else None)
  }

  predicate SameKey(a: IdxRecord, b: IdxRecord) {
    a.level == b.level && a.param == b.param
  }

  /** No line before line `i` has line `i`'s level and parameter. */
  predicate IsFirstOfKey(recs: seq<IdxRecord>, i: nat)
    requires i < |recs|
  {
    forall j :: 0 <= j < i ==> !SameKey(recs[j], recs[i])
  }

  predicate HasEntry(m: IndexMap, level: string, param: string) {
    level in m && param in m[level]
  }

  /** Every level of `m` is the level of some line. */
  ghost predicate LevelsOccur(m: IndexMap, recs: seq<IdxRecord>) {
    forall level :: level in m ==> exists i :: 0 <= i < |recs| && recs[i].level == level
  }

  /** Every (level, parameter) pair of `m` is the pair of some line. */
  ghost predicate PairsOccur(m: IndexMap, recs: seq<IdxRecord>) {
    forall level, param :: HasEntry(m, level, param) ==>
      exists i :: 0 <= i < |recs| && recs[i].level == level && recs[i].param == param
  }

  /** Every line's (level, parameter) pair has an entry in `m`. */
  predicate PairsPresent(m: IndexMap, recs: seq<IdxRecord>) {
    forall i :: 0 <= i < |recs| ==> HasEntry(m, recs[i].level, recs[i].param)
  }

  /** Each pair's entry is the range of the first line carrying that pair. */
  predicate FirstRangesStored(m: IndexMap, recs: seq<IdxRecord>)
    requires PairsPresent(m, recs)
  {
    forall i :: 0 <= i < |recs| && IsFirstOfKey(recs, i) ==>
      m[recs[i].level][recs[i].param] == RangeOf(recs, i)
  }

  /** `m` is the index of the lines `recs`: its levels and (level, parameter)
      pairs are exactly those occurring in `recs`, and each pair maps to the
      range of the FIRST line carrying it (the reverse scan writes the
      earliest line last). */
  ghost predicate Describes(m: IndexMap, recs: seq<IdxRecord>) {
    && LevelsOccur(m, recs)
    && PairsOccur(m, recs)
    && PairsPresent(m, recs)
    && FirstRangesStored(m, recs)
  }

  /** `idx_dict[level][param] = range` on the nested defaultdict: the entry
      is created or replaced, and every other entry stays as it was. */
  function Insert(m: IndexMap, level: string, param: string, range: ByteRange): (m': IndexMap)
    ensures HasEntry(m', level, param) && m'[level][param] == range
    ensures m'.Keys == m.Keys + {level}
    ensures forall l, p :: l != level || p != param ==>
      (HasEntry(m', l, p) <==> HasEntry(m, l, p)) && (HasEntry(m, l, p) ==> m'[l][p] == m[l][p])
  {
    var inner := if level in m then m[level] else map[];
    m[level := inner[param := range]]
  }

  /** The range the reverse scan gives a line put in front of `recs`: it
      ends where the old first line starts. */
  function FrontRange(rec: IdxRecord, recs: seq<IdxRecord>): ByteRange {
    ByteRange(rec.start, if |recs| == 0 then None else Some(recs[0].start))
  }

  /** One step of the reverse scan: putting a new line in front of `recs`
      and inserting its range turns an index of `recs` into an index of the
      longer sequence. */
  lemma DescribesCons(m: IndexMap, recs: seq<IdxRecord>, rec: IdxRecord)
    requires Describes(m, recs)
    ensures Describes(Insert(m, rec.level, rec.param, FrontRange(rec, recs)), [rec] + recs)
  {
    var m' := Insert(m, rec.level, rec.param, FrontRange(rec, recs));
    LevelsOccurCons(m, recs, rec);
    PairsOccurCons(m, recs, rec);
    PairsPresentCons(m, recs, rec);
    FirstRangesCons(m, recs, rec);
  }

  lemma LevelsOccurCons(m: IndexMap, recs: seq<IdxRecord>, rec: IdxRecord)
    requires LevelsOccur(m, recs)
    ensures LevelsOccur(Insert(m, rec.level, rec.param, FrontRange(rec, recs)), [rec] + recs)
  {
    var m' := Insert(m, rec.level, rec.param, FrontRange(rec, recs));
    var recs' := [rec] + recs;
    forall level | level in m'
      ensures exists i :: 0 <= i < |recs'| && recs'[i].level == level
    {
      if level != rec.level {
        var i :| 0 <= i < |recs| && recs[i].level == level;
        assert recs'[i + 1] == recs[i];
      } else {
        assert recs'[0].level == level;
      }
    }
  }

  lemma PairsOccurCons(m: IndexMap, recs: seq<IdxRecord>, rec: IdxRecord)
    requires PairsOccur(m, recs)
    ensures PairsOccur(Insert(m, rec.level, rec.param, FrontRange(rec, recs)), [rec] + recs)
  {
    var m' := Insert(m, rec.level, rec.param, FrontRange(rec, recs));
    var recs' := [rec] + recs;
    forall level, param | HasEntry(m', level, param)
      ensures exists i :: 0 <= i < |recs'| && recs'[i].level == level && recs'[i].param == param
    {
      if level != rec.level || param != rec.param {
        assert HasEntry(m, level, param);
        var i :| 0 <= i < |recs| && recs[i].level == level && recs[i].param == param;
        assert recs'[i + 1] == recs[i];
      } else {
        assert recs'[0].level == level && recs'[0].param == param;
      }
    }
  }

  lemma PairsPresentCons(m: IndexMap, recs: seq<IdxRecord>, rec: IdxRecord)
    requires PairsPresent(m, recs)
    ensures PairsPresent(Insert(m, rec.level, rec.param, FrontRange(rec, recs)), [rec] + recs)
  {
    var m' := Insert(m, rec.level, rec.param, FrontRange(rec, recs));
    var recs' := [rec] + recs;
    forall i | 0 <= i < |recs'|
      ensures HasEntry(m', recs'[i].level, recs'[i].param)
    {
      if i > 0 {
        assert recs'[i] == recs[i - 1];
      }
    }
  }

  lemma FirstRangesCons(m: IndexMap, recs: seq<IdxRecord>, rec: IdxRecord)
    requires PairsPresent(m, recs) && FirstRangesStored(m, recs)
    ensures PairsPresent(Insert(m, rec.level, rec.param, FrontRange(rec, recs)), [rec] + recs)
    ensures FirstRangesStored(Insert(m, rec.level, rec.param, FrontRange(rec, recs)), [rec] + recs)
  {
    PairsPresentCons(m, recs, rec);
    var m' := Insert(m, rec.level, rec.param, FrontRange(rec, recs));
    var recs' := [rec] + recs;
    forall i | 0 <= i < |recs'| && IsFirstOfKey(recs', i)
      ensures m'[recs'[i].level][recs'[i].param] == RangeOf(recs', i)
    {
      if i > 0 {
        FirstOfKeyTail(recs, rec, i);
      }
    }
  }

  /** A first line of its key after the new front line is a first line of
      its key in the old lines, with a key other than the front line's and
      the same range. */
  lemma FirstOfKeyTail(recs: seq<IdxRecord>, rec: IdxRecord, i: nat)
    requires 0 < i <= |recs| && IsFirstOfKey([rec] + recs, i)
    ensures ([rec] + recs)[i] == recs[i - 1] && !SameKey(rec, recs[i - 1])
    ensures IsFirstOfKey(recs, i - 1) && RangeOf([rec] + recs, i) == RangeOf(recs, i - 1)
  {
    var recs' := [rec] + recs;
    assert recs'[i] == recs[i - 1];
    assert !SameKey(recs'[0], recs'[i]);
    forall j | 0 <= j < i - 1
      ensures !SameKey(recs[j], recs[i - 1])
    {
      assert recs'[j + 1] == recs[j];
    }
  }

  /** Every line has a first line with the same level and parameter. */
  lemma {:induction false} FirstOfKeyExists(recs: seq<IdxRecord>, i: nat) returns (f: nat)
    requires i < |recs|
    ensures f <= i && SameKey(recs[f], recs[i]) && IsFirstOfKey(recs, f)
    decreases i
  {
    if IsFirstOfKey(recs, i) {
      f := i;
    } else {
      var j :| 0 <= j < i && SameKey(recs[j], recs[i]);
      f := FirstOfKeyExists(recs, j);
    }
  }

  /** Two first lines of the same key are the same line. */
  lemma FirstOfKeyUnique(recs: seq<IdxRecord>, f1: nat, f2: nat)
    requires f1 < |recs| && f2 < |recs| && SameKey(recs[f1], recs[f2])
    requires IsFirstOfKey(recs, f1) && IsFirstOfKey(recs, f2)
    ensures f1 == f2
  {
  }

  /** Every entry of an index is the range of the first line of its key. */
  lemma EntryIsFirstRange(m: IndexMap, recs: seq<IdxRecord>, level: string, param: string)
    returns (f: nat)
    requires Describes(m, recs) && HasEntry(m, level, param)
    ensures f < |recs| && recs[f].level == level && recs[f].param == param
    ensures IsFirstOfKey(recs, f) && m[level][param] == RangeOf(recs, f)
  {
    var i :| 0 <= i < |recs| && recs[i].level == level && recs[i].param == param;
    f := FirstOfKeyExists(recs, i);
  }

  /** An entry of one index of `recs` is an entry, with the same range, of
      any other. */
  lemma SameEntry(m1: IndexMap, m2: IndexMap, recs: seq<IdxRecord>, level: string, param: string)
    requires Describes(m1, recs) && Describes(m2, recs) && HasEntry(m1, level, param)
    ensures HasEntry(m2, level, param) && m1[level][param] == m2[level][param]
  {
    var f1 := EntryIsFirstRange(m1, recs, level, param);
    assert HasEntry(m2, recs[f1].level, recs[f1].param);
    var f2 := EntryIsFirstRange(m2, recs, level, param);
    FirstOfKeyUnique(recs, f1, f2);
  }

  /** The lines determine their index: two maps that both describe `recs`
      are equal, so the parse is deterministic. */
  lemma DescribesUnique(m1: IndexMap, m2: IndexMap, recs: seq<IdxRecord>)
    requires Describes(m1, recs) && Describes(m2, recs)
    ensures m1 == m2
  {
    forall level | level in m1
      ensures level in m2 && m1[level] == m2[level]
    {
      SameLevel(m1, m2, recs, level);
    }
    forall level | level in m2
      ensures level in m1
    {
      SameLevel(m2, m1, recs, level);
    }
  }

  /** A level of one index of `recs` is a level, with the same entries, of
      any other. */
  lemma SameLevel(m1: IndexMap, m2: IndexMap, recs: seq<IdxRecord>, level: string)
    requires Describes(m1, recs) && Describes(m2, recs) && level in m1
    ensures level in m2 && m1[level] == m2[level]
  {
    LevelShared(m1, m2, recs, level);
    EntriesShared(m1, m2, recs, level);
    EntriesShared(m2, m1, recs, level);
  }

  lemma LevelShared(m1: IndexMap, m2: IndexMap, recs: seq<IdxRecord>, level: string)
    requires Describes(m1, recs) && Describes(m2, recs) && level in m1
    ensures level in m2
  {
    var k :| 0 <= k < |recs| && recs[k].level == level;
    assert HasEntry(m2, recs[k].level, recs[k].param);
  }

  lemma EntriesShared(m1: IndexMap, m2: IndexMap, recs: seq<IdxRecord>, level: string)
    requires Describes(m1, recs) && Describes(m2, recs) && level in m1 && level in m2
    ensures forall param :: param in m1[level] ==> param in m2[level] && m1[level][param] == m2[level][param]
  {
    forall param | param in m1[level]
      ensures param in m2[level] && m1[level][param] == m2[level][param]
    {
      SameEntry(m1, m2, recs, level, param);
    }
  }

  predicate AllLinesParse(lines: seq<string>) {
    forall i :: 0 <= i < |lines| ==> ParseLine(lines[i]).Success?
  }

  /** The records of lines that all parse. */
  function Records(lines: seq<string>): (recs: seq<IdxRecord>)
    requires AllLinesParse(lines)
    ensures |recs| == |lines|
    ensures forall i :: 0 <= i < |lines| ==> ParseLine(lines[i]) == Success(recs[i])
  {
    seq(|lines|, i requires 0 <= i < |lines| => ParseLine(lines[i]).value)
  }

  /** The lines from `i` on parse to `recs`, in order. */
  predicate ParsedFrom(lines: seq<string>, i: nat, recs: seq<IdxRecord>) {
    && i <= |lines| && |recs| == |lines| - i
    && forall j :: i <= j < |lines| ==> ParseLine(lines[j]) == Success(recs[j - i])
  }

  /** A line that parses, put in front of a parsed suffix, extends it. */
  lemma ParsedFromCons(lines: seq<string>, i: nat, recs: seq<IdxRecord>, rec: IdxRecord)
    requires 0 < i && ParsedFrom(lines, i, recs) && ParseLine(lines[i - 1]) == Success(rec)
    ensures ParsedFrom(lines, i - 1, [rec] + recs)
  {
    var recs' := [rec] + recs;
    forall j | i - 1 <= j < |lines|
      ensures ParseLine(lines[j]) == Success(recs'[j - (i - 1)])
    {
      if j >= i {
        assert recs'[j - (i - 1)] == recs[j - i];
      }
    }
  }

  /** A whole parsed text gives exactly its records. */
  lemma ParsedAll(lines: seq<string>, recs: seq<IdxRecord>)
    requires ParsedFrom(lines, 0, recs)
    ensures AllLinesParse(lines) && recs == Records(lines)
  {
    forall j | 0 <= j < |lines|
      ensures ParseLine(lines[j]).Success?
    {
      assert ParseLine(lines[j]) == Success(recs[j - 0]);
    }
    var all := Records(lines);
    forall j | 0 <= j < |lines|
      ensures recs[j] == all[j]
    {
      assert ParseLine(lines[j]) == Success(recs[j - 0]);
    }
  }

  /** `parse_idx`: the lines of `idx` are scanned last to first, each gets the
      range from its own start to the start of the line after it (unbounded
      for the last line), and the first malformed line met in that order
      aborts the whole parse with no partial map. */
  method ParseIdx(idx: string) returns (r: Result<IndexMap, IdxError>)
    ensures r.Success? <==> AllLinesParse(SplitLines(idx))
    ensures r.Success? ==> Describes(r.value, Records(SplitLines(idx)))
    ensures r.Failure? ==>
      var lines := SplitLines(idx);
      && r.error.line < |lines|
      && ParseLine(lines[r.error.line]) == Failure(r.error.cause)
      && forall j :: r.error.line < j < |lines| ==> ParseLine(lines[j]).Success?
    ensures idx == "" ==> r == Success(map[])
  {
    var lines := SplitLines(idx);
    var m: IndexMap := map[];
    var prevStart: Option<int> := None;
    ghost var scanned: seq<IdxRecord> := [];
    var i := |lines|;
    while i > 0
      invariant 0 <= i <= |lines|
      invariant ParsedFrom(lines, i, scanned)
      invariant prevStart == if |scanned| == 0 then None else Some(scanned[0].start)
      invariant Describes(m, scanned)
    {
      i := i - 1;
      var parsed := ParseLine(lines[i]);
      if parsed.Failure? {
        ScanStops(lines, i, scanned, parsed.error);
        return Failure(IdxError(i, parsed.error));
      }
      var rec := parsed.value;
      ScanStep(lines, i, scanned, m, rec);
      m := Insert(m, rec.level, rec.param, ByteRange(rec.start, prevStart));
      scanned := [rec] + scanned;
      prevStart := Some(rec.start);
    }
    ParsedAll(lines, scanned);
    if idx == "" {
      DescribesNothing(m);
    }
    return Success(m);
  }

  /** A line that does not parse ends the scan: the lines after it did
      parse, and not every line does. */
  lemma ScanStops(lines: seq<string>, i: nat, recs: seq<IdxRecord>, e: LineError)
    requires i < |lines| && ParsedFrom(lines, i + 1, recs) && ParseLine(lines[i]) == Failure(e)
    ensures !AllLinesParse(lines)
    ensures forall j :: i < j < |lines| ==> ParseLine(lines[j]).Success?
  {
    forall j | i < j < |lines|
      ensures ParseLine(lines[j]).Success?
    {
      assert ParseLine(lines[j]) == Success(recs[j - (i + 1)]);
    }
  }

  /** A line that parses extends the scanned suffix and its index by one. */
  lemma ScanStep(lines: seq<string>, i: nat, recs: seq<IdxRecord>, m: IndexMap, rec: IdxRecord)
    requires i < |lines| && ParsedFrom(lines, i + 1, recs) && ParseLine(lines[i]) == Success(rec)
    requires Describes(m, recs)
    ensures ParsedFrom(lines, i, [rec] + recs)
    ensures Describes(Insert(m, rec.level, rec.param, FrontRange(rec, recs)), [rec] + recs)
  {
    ParsedFromCons(lines, i + 1, recs, rec);
    DescribesCons(m, recs, rec);
  }

  /** Only the empty index describes no lines. */
  lemma DescribesNothing(m: IndexMap)
    requires Describes(m, [])
    ensures m == map[]
  {
    assert forall level :: level !in m;
  }

  /** No two lines share a level and a parameter. */
  predicate DistinctKeys(recs: seq<IdxRecord>) {
    forall i, j :: 0 <= i < j < |recs| ==> !SameKey(recs[i], recs[j])
  }

  /** When no (level, parameter) pair repeats, as in a well-formed index,
      the ranges chain: each line's entry ends exactly where the next line's
      entry starts, and the last line's entry is unbounded, also when it is
      the only line. */
  lemma RangesChain(m: IndexMap, recs: seq<IdxRecord>)
    requires Describes(m, recs)
    requires DistinctKeys(recs)
    ensures forall i :: 0 <= i < |recs| - 1 ==>
      m[recs[i].level][recs[i].param].end == Some(m[recs[i + 1].level][recs[i + 1].param].start)
    ensures |recs| > 0 ==> m[recs[|recs| - 1].level][recs[|recs| - 1].param].end == None
  {
    forall i | 0 <= i < |recs| - 1
      ensures m[recs[i].level][recs[i].param].end == Some(m[recs[i + 1].level][recs[i + 1].param].start)
    {
      DistinctEntry(m, recs, i);
      DistinctEntry(m, recs, i + 1);
    }
    if |recs| > 0 {
      DistinctEntry(m, recs, |recs| - 1);
    }
  }

  /** Without repeated keys every line is the first of its key. */
  lemma DistinctEntry(m: IndexMap, recs: seq<IdxRecord>, i: nat)
    requires Describes(m, recs) && DistinctKeys(recs) && i < |recs|
    ensures m[recs[i].level][recs[i].param] == RangeOf(recs, i)
  {
    assert IsFirstOfKey(recs, i);
  }

  /** No field of an example line holds a colon or a line boundary. */
  predicate PlainFields(f: seq<string>) {
    forall k :: 0 <= k < |f| ==> ':' !in f[k] && IsSingleLine(f[k])
  }

  /** Letters, digits, spaces and `=`: what the example fields are made of. */
  predicate PlainChar(c: char) {
    ('a' <= c <= 'z') || ('A' <= c <= 'Z') || ('0' <= c <= '9') || c == ' ' || c == '='
  }

  /** A field of plain characters holds no colon and no line boundary. */
  lemma PlainField(s: string)
    requires forall i :: 0 <= i < |s| ==> PlainChar(s[i])
    ensures ':' !in s && IsSingleLine(s)
  {
  }

  lemma PlainFields0()
    ensures PlainFields(ExampleFields0)
  {
    PlainField("1");
    PlainField("0");
    PlainField("d=2023040812");
    PlainField("PRMSL");
    PlainField("mean sea level");
    PlainField("anl");
  }

  lemma PlainFields1()
    ensures PlainFields(ExampleFields1)
  {
    PlainField("2");
    PlainField("1005022");
    PlainField("d=2023040812");
    PlainField("CLMR");
    PlainField("1 hybrid level");
    PlainField("anl");
  }

  lemma PlainFields2()
    ensures PlainFields(ExampleFields2)
  {
    PlainField("3");
    PlainField("1115513");
    PlainField("d=2023040812");
    PlainField("ICMR");
    PlainField("1 hybrid level");
    PlainField("anl");
  }

  /** `str(1005022)`, digit by digit. */
  lemma Decimal1005022()
    ensures IntToDecimal(1005022) == "1005022"
  {
    assert NatToDecimal(100) == "100";
    assert NatToDecimal(10050) == "10050";
  }

  /** `str(1115513)`, digit by digit. */
  lemma Decimal1115513()
    ensures IntToDecimal(1115513) == "1115513"
  {
    assert NatToDecimal(111) == "111";
    assert NatToDecimal(11155) == "11155";
  }

  /** The three lines of the example in the `parse_idx` docstring. */
  const ExampleFields0: seq<string> := ["1", "0", "d=2023040812", "PRMSL", "mean sea level", "anl"]
  const ExampleFields1: seq<string> := ["2", "1005022", "d=2023040812", "CLMR", "1 hybrid level", "anl"]
  const ExampleFields2: seq<string> := ["3", "1115513", "d=2023040812", "ICMR", "1 hybrid level", "anl"]

  /** The lines of the example as upstream writes them, trailing colon
      included. */
  const ExampleLines: seq<string> := [
    FormatLine(ExampleFields0, true), FormatLine(ExampleFields1, true), FormatLine(ExampleFields2, true)]

  /** The example as an index file: each line ended by a newline. */
  const ExampleIdx: string := Terminated(ExampleLines)

  const ExampleRecords: seq<IdxRecord> := [
    IdxRecord(0, "PRMSL", "mean sea level"),
    IdxRecord(1005022, "CLMR", "1 hybrid level"),
    IdxRecord(1115513, "ICMR", "1 hybrid level")]

  const ExampleIndex: IndexMap := map[
    "mean sea level" := map["PRMSL" := ByteRange(0, Some(1005022))],
    "1 hybrid level" := map["CLMR" := ByteRange(1005022, Some(1115513)),
                            "ICMR" := ByteRange(1115513, None)]]

  lemma ExampleLine0()
    ensures ParseLine(ExampleLines[0]) == Success(ExampleRecords[0])
  {
    PlainFields0();
    ParseFormattedLine(ExampleFields0, true, 0);
  }

  lemma ExampleLine1()
    ensures ParseLine(ExampleLines[1]) == Success(ExampleRecords[1])
  {
    Decimal1005022();
    PlainFields1();
    ParseFormattedLine(ExampleFields1, true, 1005022);
  }

  lemma ExampleLine2()
    ensures ParseLine(ExampleLines[2]) == Success(ExampleRecords[2])
  {
    Decimal1115513();
    PlainFields2();
    ParseFormattedLine(ExampleFields2, true, 1115513);
  }

  lemma ExampleLevelsOccur()
    ensures LevelsOccur(ExampleIndex, ExampleRecords)
  {
    assert ExampleRecords[0].level == "mean sea level";
    assert ExampleRecords[1].level == "1 hybrid level";
  }

  lemma ExamplePairsOccur()
    ensures PairsOccur(ExampleIndex, ExampleRecords)
  {
    var recs := ExampleRecords;
    assert recs[0].level == "mean sea level" && recs[0].param == "PRMSL";
    assert recs[1].level == "1 hybrid level" && recs[1].param == "CLMR";
    assert recs[2].level == "1 hybrid level" && recs[2].param == "ICMR";
  }

  lemma ExampleFirstRanges()
    ensures PairsPresent(ExampleIndex, ExampleRecords)
    ensures FirstRangesStored(ExampleIndex, ExampleRecords)
  {
    assert IsFirstOfKey(ExampleRecords, 1) && IsFirstOfKey(ExampleRecords, 2);
  }

  /** The map of the docstring describes the example's records. */
  lemma ExampleDescribed()
    ensures Describes(ExampleIndex, ExampleRecords)
  {
    ExampleLevelsOccur();
    ExamplePairsOccur();
    ExampleFirstRanges();
  }

  lemma ExampleSingleLines()
    ensures forall k :: 0 <= k < |ExampleLines| ==> IsSingleLine(ExampleLines[k])
  {
    PlainFields0();
    PlainFields1();
    PlainFields2();
    FormattedLineSingle(ExampleFields0);
    FormattedLineSingle(ExampleFields1);
    FormattedLineSingle(ExampleFields2);
  }

  /** A line written from single-line fields is a single line. */
  lemma FormattedLineSingle(fields: seq<string>)
    requires |fields| == FieldsPerLine
    requires forall k :: 0 <= k < |fields| ==> IsSingleLine(fields[k])
    ensures IsSingleLine(FormatLine(fields, true))
  {
    JoinSingleLine(fields, ":");
  }

  /** The docstring example parses, and the only index it can yield is
      `{"mean sea level": {"PRMSL": (0, 1005022)}, "1 hybrid level":
      {"CLMR": (1005022, 1115513), "ICMR": (1115513, None)}}`. */
  lemma ExampleParses()
    ensures AllLinesParse(SplitLines(ExampleIdx))
    ensures forall m :: Describes(m, Records(SplitLines(ExampleIdx))) ==> m == ExampleIndex
  {
    ExampleSingleLines();
    SplitLinesTerminated(ExampleLines);
    ExampleLinesParse();
    ExampleIndexOnly();
  }

  /** The example's lines parse to its records. */
  lemma ExampleLinesParse()
    ensures AllLinesParse(ExampleLines) && Records(ExampleLines) == ExampleRecords
  {
    ExampleLine0();
    ExampleLine1();
    ExampleLine2();
    ParsedThree(ExampleLines, ExampleRecords);
  }

  /** Three facts about three lines, as one quantified fact. */
  lemma PointwiseThree(lines: seq<string>, recs: seq<IdxRecord>)
    requires |lines| == 3 && |recs| == 3
    requires ParseLine(lines[0]) == Success(recs[0])
    requires ParseLine(lines[1]) == Success(recs[1])
    requires ParseLine(lines[2]) == Success(recs[2])
    ensures forall i :: 0 <= i < 3 ==> ParseLine(lines[i]) == Success(recs[i])
  {
    forall i | 0 <= i < 3
      ensures ParseLine(lines[i]) == Success(recs[i])
    {
      if i == 0 {
      } else if i == 1 {
      } else {
        assert i == 2;
      }
    }
  }

  /** Three lines that each parse give their three records. */
  lemma ParsedThree(lines: seq<string>, recs: seq<IdxRecord>)
    requires |lines| == 3 && |recs| == 3
    requires ParseLine(lines[0]) == Success(recs[0])
    requires ParseLine(lines[1]) == Success(recs[1])
    requires ParseLine(lines[2]) == Success(recs[2])
    ensures AllLinesParse(lines) && Records(lines) == recs
  {
    PointwiseThree(lines, recs);
    var all := Records(lines);
    assert forall i :: 0 <= i < 3 ==> all[i] == recs[i];
  }

  /** The docstring's map is the only index of the example's records. */
  lemma ExampleIndexOnly()
    ensures forall m :: Describes(m, ExampleRecords) ==> m == ExampleIndex
  {
    ExampleDescribed();
    forall m | Describes(m, ExampleRecords)
      ensures m == ExampleIndex
    {
      DescribesUnique(m, ExampleIndex, ExampleRecords);
    }
  }
}
