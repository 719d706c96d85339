/** GFS model runs on the NOAA open-data S3 bucket: the key prefix and
    listing URL of a run, the latest run that can exist at a given instant,
    the filter that keeps forecast keys, and the search for the newest
    complete run among the last three. Instants are integer seconds since
    1970-01-01T00:00:00Z. */
module Gfs {
  import opened Wrappers
  import opened Strings
  import opened Decimal
  import opened Calendar

  /** A run starts every six hours. */
  const ModelHourInterval: nat := 6
  /** A complete run has this many forecast files. */
  const NumExpectedForecasts: nat := 209
  const S3Bucket: string := "noaa-gfs-bdp-pds"
  /** How many runs, newest first, the search looks at. */
  const MaxRunsToTry: nat := 3
  /** A run is assumed to start appearing two hours after its nominal time. */
  const EstimatedModelDelay: nat := 2 * SecondsPerHour

  const RunSpacing: nat := ModelHourInterval * SecondsPerHour

  // ---------------------------------------------------------------------
  // Key prefix and listing URL

  /** `build_s3_grib_file_prefix`: the S3 key prefix of a run's 0.25-degree
      GRIB2 files, `gfs.YYYYMMDD/HH/atmos/gfs.tHHz.pgrb2.0p25`; minutes and
      seconds of `run` play no part. Reading the prefix back gives the
      run's date and hour, for every year. */
  function GribFilePrefix(run: DateTime): (p: string)
    ensures PrefixRange(run) ==> ParsePrefix(p) == Some(RunHour(run))
  {
    var p := "gfs." + IntToDecimal(run.year) + ZeroPad2(run.month) + ZeroPad2(run.day)
      + "/" + ZeroPad2(run.hour) + "/atmos/gfs.t" + ZeroPad2(run.hour) + "z.pgrb2.0p25";
    PrefixReadsBack(run, p);
    p
  }

  /** The part of the listing URL before the prefix. */
  const ListObjectsBase: string := "https://" + S3Bucket + ".s3.amazonaws.com/?list-type=2&prefix="

  /** `build_url`: the S3 ListObjectsV2 request for the keys of a run. */
  function ListObjectsUrl(run: DateTime): string
  {
    ListObjectsBase + GribFilePrefix(run)
  }

  /** `s` with the literal `lit` removed from its front, if it starts so. */
  function DropLiteral(s: string, lit: string): (r: Option<string>)
    ensures r.Some? <==> |lit| <= |s| && s[..|lit|] == lit
    ensures r.Some? ==> s == lit + r.value
  {
    if |lit| <= |s| && s[..|lit|] == lit then Some(s[|lit|..]) else None
  }

  /** `s` with the literal `lit` removed from its end, if it ends so. */
  function DropSuffix(s: string, lit: string): (r: Option<string>)
    ensures r.Some? <==> |lit| <= |s| && s[|s| - |lit|..] == lit
    ensures r.Some? ==> s == r.value + lit
  {
    if |lit| <= |s| && s[|s| - |lit|..] == lit then Some(s[..|s| - |lit|]) else None
  }

  /** The rest of `s` and the number written by its last `n` characters,
      when they are all digits. */
  function TakeLastDigits(s: string, n: nat): (r: Option<(string, nat)>)
    ensures r.Some? <==> n <= |s| && AllDigits(s[|s| - n..])
    ensures r.Some? ==> s == r.value.0 + s[|s| - n..] && r.value.1 == DigitsValue(s[|s| - n..])
  {
    if n <= |s| && AllDigits(s[|s| - n..]) then Some((s[..|s| - n], DigitsValue(s[|s| - n..]))) else None
  }

  /** Reads the run back out of a prefix, from its end: the fixed-width
      hour, day and month fields first, then the year, whatever its width.
      The inverse of `GribFilePrefix`, with minutes and seconds zero. */
  function ParsePrefix(p: string): Option<DateTime>
  {
    var r8 :- DropSuffix(p, "z.pgrb2.0p25");
    var hour2 :- TakeLastDigits(r8, 2);
    var r6 :- DropSuffix(hour2.0, "/atmos/gfs.t");
    var hour :- TakeLastDigits(r6, 2);
    var r4 :- DropSuffix(hour.0, "/");
    var day :- TakeLastDigits(r4, 2);
    var month :- TakeLastDigits(day.0, 2);
    var r1 :- DropLiteral(month.0, "gfs.");
    var year :- ParseInt(r1);
    if hour2.1 == hour.1 then Some(DateTime(year, month.1, day.1, hour.1, 0, 0)) else None
  }

  /** The civil fields a prefix is made of, with two-digit month, day and
      hour; every valid calendar value has them. */
  predicate PrefixRange(run: DateTime) {
    run.month < 100 && run.day < 100 && run.hour < 100
  }

  /** `run` with minutes and seconds dropped: all a prefix can tell. */
  function RunHour(run: DateTime): DateTime {
    DateTime(run.year, run.month, run.day, run.hour, 0, 0)
  }

  /** A prefix built from the fields of `run` reads back as its date and
      hour, field by field from the end. */
  lemma PrefixReadsBack(run: DateTime, p: string)
    requires p == "gfs." + IntToDecimal(run.year) + ZeroPad2(run.month) + ZeroPad2(run.day)
      + "/" + ZeroPad2(run.hour) + "/atmos/gfs.t" + ZeroPad2(run.hour) + "z.pgrb2.0p25"
    ensures PrefixRange(run) ==> ParsePrefix(p) == Some(RunHour(run))
  {
    if !PrefixRange(run) {
      return;
    }
    var y := IntToDecimal(run.year);
    var mm := ZeroPad2(run.month);
    var dd := ZeroPad2(run.day);
    var hh := ZeroPad2(run.hour);
    var p1 := "gfs." + y;
    var p2 := p1 + mm;
    var p3 := p2 + dd;
    var p4 := p3 + "/";
    var p5 := p4 + hh;
    var p6 := p5 + "/atmos/gfs.t";
    var p7 := p6 + hh;
    DropBack(p7, "z.pgrb2.0p25");
    TakeBack(p6, hh, 2);
    DropBack(p5, "/atmos/gfs.t");
    TakeBack(p4, hh, 2);
    DropBack(p3, "/");
    TakeBack(p2, dd, 2);
    TakeBack(p1, mm, 2);
    DropFront("gfs.", y);
    ParseIntDecimal(run.year);
  }

  /** A literal at the end of a text is dropped, leaving the text. */
  lemma DropBack(front: string, lit: string)
    ensures DropSuffix(front + lit, lit) == Some(front)
  {
    assert (front + lit)[|front|..] == lit;
    assert (front + lit)[..|front|] == front;
  }

  /** `n` digits at the end of a text are read, leaving the text. */
  lemma TakeBack(front: string, digits: string, n: nat)
    requires |digits| == n && AllDigits(digits)
    ensures TakeLastDigits(front + digits, n) == Some((front, DigitsValue(digits)))
  {
    assert (front + digits)[|front|..] == digits;
    assert (front + digits)[..|front|] == front;
  }

  /** A literal in front of a text is dropped, leaving the text. */
  lemma DropFront(lit: string, rest: string)
    ensures DropLiteral(lit + rest, lit) == Some(rest)
  {
    assert (lit + rest)[..|lit|] == lit;
  }

  /** Distinct (year, month, day, hour) runs have distinct prefixes: the
      fields after the year have fixed widths. */
  lemma GribFilePrefixInjective(a: DateTime, b: DateTime)
    requires PrefixRange(a) && PrefixRange(b)
    requires GribFilePrefix(a) == GribFilePrefix(b)
    ensures RunHour(a) == RunHour(b)
  {
  }

  /** The listing URL ends with the prefix, after a fixed base, so distinct
      runs are listed by distinct requests. */
  lemma ListObjectsUrlInjective(a: DateTime, b: DateTime)
    requires PrefixRange(a) && PrefixRange(b)
    requires ListObjectsUrl(a) == ListObjectsUrl(b)
    ensures RunHour(a) == RunHour(b)
  {
    var n := |ListObjectsBase|;
    assert GribFilePrefix(a) == ListObjectsUrl(a)[n..];
    assert GribFilePrefix(b) == ListObjectsUrl(b)[n..];
    GribFilePrefixInjective(a, b);
  }

  // ---------------------------------------------------------------------
  // The latest run that can exist

  /** `calc_latest_possible_run`: two hours before `now`, the hour floored to
      a multiple of six, minutes and seconds dropped, on the same UTC date. */
  function LatestPossibleRun(now: int): (run: int)
    ensures run <= now - EstimatedModelDelay < run + RunSpacing
    ensures run % RunSpacing == 0
  {
    var adjusted := DateTimeOf(now - EstimatedModelDelay);
    FloorToRun(adjusted);
    ToEpoch(RunTimeOf(adjusted))
  }

  /** The run of the day of `dt` whose hour is `dt`'s hour floored to a
      multiple of six, minutes and seconds dropped. */
  function RunTimeOf(dt: DateTime): DateTime {
    DateTime(dt.year, dt.month, dt.day, ModelHourInterval * (dt.hour / ModelHourInterval), 0, 0)
  }

  /** Flooring the civil hour lands on the six-hour grid, at most one run
      spacing before the instant itself. */
  lemma FloorToRun(dt: DateTime)
    requires Valid(dt)
    ensures Valid(RunTimeOf(dt))
    ensures ToEpoch(RunTimeOf(dt)) <= ToEpoch(dt) < ToEpoch(RunTimeOf(dt)) + RunSpacing
    ensures ToEpoch(RunTimeOf(dt)) % RunSpacing == 0
  {
    var run := RunTimeOf(dt);
    var d := DayNumber(dt);
    var q := dt.hour / ModelHourInterval;
    assert DayNumber(run) == d;
    assert ToEpoch(run) == (d * 4 + q) * RunSpacing;
    assert ToEpoch(dt) - ToEpoch(run)
      == (dt.hour % ModelHourInterval) * SecondsPerHour + dt.minute * SecondsPerMinute + dt.second;
  }

  /** The latest possible run is the six-hour grid point at or before
      `now` minus two hours: UTC days hold exactly four runs, so flooring the
      civil hour and flooring the instant agree. */
  lemma LatestPossibleRunFloor(now: int)
    ensures LatestPossibleRun(now) == (now - EstimatedModelDelay) / RunSpacing * RunSpacing
  {
    var r := LatestPossibleRun(now);
    var t := now - EstimatedModelDelay;
    var q := r / RunSpacing;
    assert r == q * RunSpacing;
    assert q * RunSpacing <= t < (q + 1) * RunSpacing;
    assert t / RunSpacing == q;
  }

  /** The latest possible run, as a calendar value: the date of `now` minus
      two hours, an hour that is a multiple of six, minutes and seconds 0. */
  lemma LatestPossibleRunFields(now: int)
    ensures var adjusted := DateTimeOf(now - EstimatedModelDelay);
            var run := DateTimeOf(LatestPossibleRun(now));
            && run.year == adjusted.year && run.month == adjusted.month && run.day == adjusted.day
            && run.hour == adjusted.hour / ModelHourInterval * ModelHourInterval
            && run.minute == 0 && run.second == 0
  {
    var adjusted := DateTimeOf(now - EstimatedModelDelay);
    FloorToRun(adjusted);
    DateTimeOfToEpoch(RunTimeOf(adjusted));
  }

  // ---------------------------------------------------------------------
  // Forecast keys

  /** A listed key names a forecast file unless it is the analysis file
      (`.anl`) or an index file (`.idx`). */
  predicate IsForecastKey(key: string) {
    !EndsWith(key, ".anl") && !EndsWith(key, ".idx")
  }

  /** The filter of `get_forecast_keys_from_s3_list_objects_resp`: the set
      of listed keys that are forecast keys, each counted once. */
  function ForecastKeys(keys: seq<string>): (r: set<string>)
    ensures forall k :: k in r <==> k in keys && IsForecastKey(k)
  {
    if |keys| == 0 then {}
    else if IsForecastKey(keys[|keys| - 1]) then ForecastKeys(keys[..|keys| - 1]) + {keys[|keys| - 1]}
    else ForecastKeys(keys[..|keys| - 1])
  }

  /** The filter never yields more keys than were listed, and a repeated
      key does not add to the count. */
  lemma {:induction false} ForecastKeysCount(keys: seq<string>)
    ensures |ForecastKeys(keys)| <= |keys|
    ensures forall k :: k in keys ==> ForecastKeys(keys + [k]) == ForecastKeys(keys)
  {
    if |keys| > 0 {
      ForecastKeysCount(keys[..|keys| - 1]);
    }
  }

  // ---------------------------------------------------------------------
  // Searching for the latest complete run

  /** The listing of a run: the `<Key>` texts of the response to its
      listing request, or the error the request or the XML parse raised. */
  type Lister<!E> = int -> Result<seq<string>, E>

  /** The listing of each run fetched from its own URL. */
  function ListingOf<E>(fetch: string -> Result<seq<string>, E>): Lister<E>
  {
    run => fetch(ListObjectsUrl(DateTimeOf(run)))
  }

  /** The listing of `run` was fetched and holds every forecast. */
  predicate IsComplete<E>(listing: Lister<E>, run: int) {
    listing(run).Success? && |ForecastKeys(listing(run).value)| == NumExpectedForecasts
  }

  /** The listing of `run` was fetched and lacks some forecast. */
  predicate IsIncomplete<E>(listing: Lister<E>, run: int) {
    listing(run).Success? && |ForecastKeys(listing(run).value)| != NumExpectedForecasts
  }

  /** What the search ends with, and how many candidates it fetched. */
  datatype Search<+E> = Search(outcome: Result<Option<int>, E>, tried: nat)

  /** The loop of `get_latest_complete_run` over `runs`: each run is listed
      in turn; the first complete one is the answer, a failed listing aborts
      the search, and when all are incomplete the answer is `None`. No run
      after the one the search stops at is fetched. */
  function TryRuns<E>(runs: seq<int>, listing: Lister<E>): (s: Search<E>)
    ensures s.tried <= |runs| && (s.tried == 0 <==> |runs| == 0)
    ensures forall k :: 0 <= k < s.tried - 1 ==> IsIncomplete(listing, runs[k])
    ensures s.outcome == Success(None) <==>
      s.tried == |runs| && forall k :: 0 <= k < |runs| ==> IsIncomplete(listing, runs[k])
    ensures s.outcome.Success? && s.outcome.value.Some? ==>
      s.tried > 0 && s.outcome.value.value == runs[s.tried - 1] && IsComplete(listing, runs[s.tried - 1])
    ensures s.outcome.Failure? ==>
      s.tried > 0 && listing(runs[s.tried - 1]) == Failure(s.outcome.error)
  {
    if |runs| == 0 then Search(Success(None), 0)
    else match listing(runs[0])
      case Failure(e) => Search(Failure(e), 1)
      case Success(keys) =>
        if |ForecastKeys(keys)| == NumExpectedForecasts then Search(Success(Some(runs[0])), 1)
        else
          var rest := TryRuns(runs[1..], listing);
          TryRunsStep(runs, listing, rest);
          Search(rest.outcome, rest.tried + 1)
  }

  /** The search past an incomplete first run is the search of the rest,
      one fetch longer. */
  lemma TryRunsStep<E>(runs: seq<int>, listing: Lister<E>, rest: Search<E>)
    requires |runs| > 0 && IsIncomplete(listing, runs[0])
    requires rest == TryRuns(runs[1..], listing)
    ensures var s := Search(rest.outcome, rest.tried + 1);
      && s.tried <= |runs| && s.tried != 0
      && (forall k :: 0 <= k < s.tried - 1 ==> IsIncomplete(listing, runs[k]))
      && (s.outcome == Success(None) <==>
        s.tried == |runs| && forall k :: 0 <= k < |runs| ==> IsIncomplete(listing, runs[k]))
      && (s.outcome.Success? && s.outcome.value.Some? ==>
        s.outcome.value.value == runs[s.tried - 1] && IsComplete(listing, runs[s.tried - 1]))
      && (s.outcome.Failure? ==> listing(runs[s.tried - 1]) == Failure(s.outcome.error))
  {
    assert forall k :: 1 <= k < |runs| ==> runs[k] == runs[1..][k - 1];
  }

  /** The search depends only on the listings of the runs it fetched: any
      oracle that agrees on those gives the same search. */
  lemma {:induction false} TryRunsLooksNoFurther<E>(runs: seq<int>,
      listing: Lister<E>, other: Lister<E>)
    requires forall k :: 0 <= k < TryRuns(runs, listing).tried ==> other(runs[k]) == listing(runs[k])
    ensures TryRuns(runs, other) == TryRuns(runs, listing)
  {
    if |runs| > 0 && listing(runs[0]).Success? {
      var keys := listing(runs[0]).value;
      if |ForecastKeys(keys)| != NumExpectedForecasts {
        var rest := TryRuns(runs[1..], listing);
        forall k | 0 <= k < rest.tried
          ensures other(runs[1..][k]) == listing(runs[1..][k])
        {
          assert runs[1..][k] == runs[k + 1];
        }
        TryRunsLooksNoFurther(runs[1..], listing, other);
      }
    }
  }

  /** The three candidates of `get_latest_complete_run`, newest first, six
      hours apart. */
  function Candidates(latest: int): (runs: seq<int>)
    ensures |runs| == MaxRunsToTry
    ensures forall i :: 0 <= i < |runs| ==> runs[i] == latest - i * RunSpacing
  {
    seq(MaxRunsToTry, i => latest - i * RunSpacing)
  }

  /** Candidates on the six-hour grid stay on it, and each one is listed
      by a URL of its own. */
  lemma CandidatesDistinct(latest: int)
    requires latest % RunSpacing == 0
    ensures forall i :: 0 <= i < MaxRunsToTry ==> Candidates(latest)[i] % RunSpacing == 0
    ensures forall i, j ::
      (0 <= i < MaxRunsToTry && 0 <= j < MaxRunsToTry &&
       ListObjectsUrl(DateTimeOf(Candidates(latest)[i])) == ListObjectsUrl(DateTimeOf(Candidates(latest)[j])))
      ==> i == j
  {
    CandidatesOnGrid(latest);
    GridUrlsDistinct(Candidates(latest));
  }

  /** Candidates from a grid point are distinct grid points. */
  lemma CandidatesOnGrid(latest: int)
    requires latest % RunSpacing == 0
    ensures forall i :: 0 <= i < MaxRunsToTry ==> Candidates(latest)[i] % RunSpacing == 0
    ensures forall i, j :: 0 <= i < j < MaxRunsToTry ==> Candidates(latest)[i] > Candidates(latest)[j]
  {
    forall i | 0 <= i < MaxRunsToTry
      ensures Candidates(latest)[i] % RunSpacing == 0
    {
      GridStep(latest, i);
    }
  }

  /** Distinct whole-hour instants are listed by distinct URLs. */
  lemma GridUrlsDistinct(runs: seq<int>)
    requires forall i :: 0 <= i < |runs| ==> runs[i] % RunSpacing == 0
    requires forall i, j :: 0 <= i < j < |runs| ==> runs[i] > runs[j]
    ensures forall i, j ::
      (0 <= i < |runs| && 0 <= j < |runs| &&
       ListObjectsUrl(DateTimeOf(runs[i])) == ListObjectsUrl(DateTimeOf(runs[j])))
      ==> i == j
  {
    forall i, j | 0 <= i < |runs| && 0 <= j < |runs| &&
      ListObjectsUrl(DateTimeOf(runs[i])) == ListObjectsUrl(DateTimeOf(runs[j]))
      ensures i == j
    {
      GridOnTheHour(runs[i]);
      GridOnTheHour(runs[j]);
      UrlDeterminesRun(runs[i], runs[j]);
    }
  }

  /** A six-hour grid point is on a whole hour. */
  lemma GridOnTheHour(t: int)
    requires t % RunSpacing == 0
    ensures t % SecondsPerHour == 0
  {
    var q := t / RunSpacing;
    assert t == (q * ModelHourInterval) * SecondsPerHour;
  }

  /** Two whole-hour instants with the same listing URL are the same
      instant. */
  lemma UrlDeterminesRun(a: int, b: int)
    requires a % SecondsPerHour == 0 && b % SecondsPerHour == 0
    requires ListObjectsUrl(DateTimeOf(a)) == ListObjectsUrl(DateTimeOf(b))
    ensures a == b
  {
    OnTheHour(a);
    OnTheHour(b);
    ListObjectsUrlInjective(DateTimeOf(a), DateTimeOf(b));
    assert DateTimeOf(a) == DateTimeOf(b);
  }

  /** An instant on a whole hour has minutes and seconds zero, so it is its
      own `RunHour`. */
  lemma OnTheHour(t: int)
    requires t % SecondsPerHour == 0
    ensures DateTimeOf(t) == RunHour(DateTimeOf(t))
    ensures PrefixRange(DateTimeOf(t))
  {
    var secs := t % SecondsPerDay;
    assert secs % SecondsPerHour == 0;
  }

  /** The candidates searched from `latest`, as `TryRuns` reports them:
      the answer is the newest complete candidate, and every newer one was
      found incomplete. */
  lemma SearchFromLatest<E>(latest: int, listing: Lister<E>)
    ensures var s := TryRuns(Candidates(latest), listing);
      && 1 <= s.tried <= MaxRunsToTry
      && (s.outcome.Success? && s.outcome.value.Some? ==>
           s.outcome.value.value == latest - (s.tried - 1) * RunSpacing && IsComplete(listing, s.outcome.value.value))
      && (forall newer :: 0 <= newer < s.tried - 1 ==> IsIncomplete(listing, latest - newer * RunSpacing))
  {
    var runs := Candidates(latest);
    var s := TryRuns(runs, listing);
    forall newer | 0 <= newer < s.tried - 1
      ensures IsIncomplete(listing, latest - newer * RunSpacing)
    {
      assert runs[newer] == latest - newer * RunSpacing;
    }
  }

  /** `get_latest_complete_run` at instant `now`, with the listing fetch as
      a parameter: the newest complete candidate, every newer one having
      been found incomplete; `None` exactly when all three candidates were
      listed and found incomplete; a failed fetch ends the search with its
      error. */
  function LatestCompleteRun<E>(now: int, fetch: string -> Result<seq<string>, E>): (s: Search<E>)
    ensures 1 <= s.tried <= MaxRunsToTry
    ensures s.outcome.Success? && s.outcome.value.Some? ==>
      && s.outcome.value.value == Candidates(LatestPossibleRun(now))[s.tried - 1]
      && IsComplete(ListingOf(fetch), s.outcome.value.value)
    ensures forall newer :: 0 <= newer < s.tried - 1 ==>
      IsIncomplete(ListingOf(fetch), Candidates(LatestPossibleRun(now))[newer])
    ensures s.outcome == Success(None) <==>
      && s.tried == MaxRunsToTry
      && forall k :: 0 <= k < MaxRunsToTry ==> IsIncomplete(ListingOf(fetch), Candidates(LatestPossibleRun(now))[k])
    ensures s.outcome.Failure? ==>
      ListingOf(fetch)(Candidates(LatestPossibleRun(now))[s.tried - 1]) == Failure(s.outcome.error)
  {
    TryRuns(Candidates(LatestPossibleRun(now)), ListingOf(fetch))
  }

  /** A step of whole run spacings back from a grid point lands on the grid,
      at most two spacings back. */
  lemma GridStep(latest: int, k: nat)
    requires latest % RunSpacing == 0 && k < MaxRunsToTry
    ensures (latest - k * RunSpacing) % RunSpacing == 0
    ensures latest - (MaxRunsToTry - 1) * RunSpacing <= latest - k * RunSpacing <= latest
  {
    var q := latest / RunSpacing;
    assert latest - k * RunSpacing == (q - k) * RunSpacing;
  }

  /** A run found searching back from a grid point `latest` is on the grid,
      at most two spacings back. */
  lemma SearchBounds<E>(latest: int, listing: Lister<E>)
    requires latest % RunSpacing == 0
    ensures var s := TryRuns(Candidates(latest), listing);
            s.outcome.Success? && s.outcome.value.Some? ==>
              var run := s.outcome.value.value;
              run % RunSpacing == 0 && latest - (MaxRunsToTry - 1) * RunSpacing <= run <= latest
  {
    var s := TryRuns(Candidates(latest), listing);
    SearchFromLatest(latest, listing);
    if s.outcome.Success? && s.outcome.value.Some? {
      GridStep(latest, s.tried - 1);
    }
  }

  /** Every run the search can answer lies on the six-hour grid within the
      eighteen hours before `now` minus two hours. */
  lemma LatestCompleteRunBounds<E>(now: int, fetch: string -> Result<seq<string>, E>)
    ensures var s := LatestCompleteRun(now, fetch);
            s.outcome.Success? && s.outcome.value.Some? ==>
              var run := s.outcome.value.value;
              && run % RunSpacing == 0
              && now - EstimatedModelDelay - MaxRunsToTry * RunSpacing < run <= now - EstimatedModelDelay
  {
    SearchBounds(LatestPossibleRun(now), ListingOf(fetch));
  }
}
