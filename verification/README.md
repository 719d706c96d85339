# spinwx core, modelled in Dafny

spinwx serves NOAA GFS weather model data from the AWS Open Data bucket
`noaa-gfs-bdp-pds` through Spin HTTP components. This project models the
shared library those components are built on:

- `grib.py`: `parse_idx`, which turns a GRIB2 `.idx` index (one line per
  GRIB message, `seq:start_byte:d=run:param:level:descriptor[:]`) into a map
  level -> parameter -> byte range of that message.
- `gfs.py`: the S3 key prefix and ListObjectsV2 URL of a model run, the
  latest run that can exist at a given instant, the filter that keeps
  forecast keys out of a listing, and the search for the newest complete
  run among the last three.
- `spin_utils.py`: the request header pairs as a map, the path segments
  after the component route, the query string parameters read out of the
  `spin-full-url` and `spin-component-route` headers, and
  `get_request_info`, which gathers these.

The modules are:

- `Wrappers`: `Option` and `Result`.
- `Strings`: Python's `str.split`, `str.splitlines`, `lstrip` and `rstrip`
  for one character, and `Join`.
- `Decimal`: `str(n)`, `f"{n:02}"` and `int(s)`.
- `Calendar`: proleptic Gregorian UTC dates and times, converted to and from
  integer seconds since 1970-01-01T00:00:00Z. Python's `datetime`
  arithmetic is done on these instants.
- `Grib`, `Gfs`, `SpinUtils`: one per source file.

Python's exceptions are modelled as `Failure` or `None` results. The
`ValueError` of a bad index line becomes `IdxError`. The `IndexError` or
`ValueError` of a bad query string becomes `QueryError`. The listing fetch
(an HTTP request plus XML parsing) becomes a function parameter. It returns
the `<Key>` texts or an error.

## Model

| member | source | states |
|---|---|---|
| Grib.ParseIdx | spinwx/src/spinwx/grib.py:5-28 | The parse succeeds exactly when every line parses. On success, the map's levels and (level, parameter) pairs are exactly those of the lines. Each pair maps to the range of the earliest line that carries it, because the reverse scan writes that line last. A range runs from the line's start byte to the next line's start byte, and the last line's range is unbounded. On failure, the error names the last malformed line and its cause, and every later line parses. Empty text gives the empty map. |
| Grib.DescribesUnique | spinwx/src/spinwx/grib.py:22-28 | Two maps that both describe the same lines are equal. So the description `ParseIdx` promises fixes its result completely. |
| Grib.RangesChain | spinwx/src/spinwx/grib.py:23-27 | When no (level, parameter) pair repeats, each line's range ends where the next line's range starts. The last line's range is unbounded, including when it is the only line. |
| Grib.ParseFormattedLine | spinwx/src/spinwx/grib.py:25-26 | A line written from six colon-free fields parses back to its start byte, parameter and level, with or without a trailing colon. This needs a non-empty last field and the start written by `str`. |
| Grib.EmptyDescriptorRejected | spinwx/src/spinwx/grib.py:25 | An empty last field is lost when trailing colons are stripped. The line then has five fields, and unpacking it into six fails. |
| Grib.ExampleParses | spinwx/src/spinwx/grib.py:11-14 | The three lines of the docstring example all parse. The only index they can produce maps PRMSL to (0, 1005022), CLMR to (1005022, 1115513) and ICMR to (1115513, unbounded). |
| Decimal.ParseIntDecimal | spinwx/src/spinwx/grib.py:26 | Reading back the decimal text of an integer gives that integer, negative ones included. Python agrees only up to its integer string length limit, 4300 digits by default (see Left out). |
| Decimal.ParseIntDigits | spinwx/src/spinwx/grib.py:26 | A start field of digits alone, leading zeros included, reads as the number its digits denote. |
| Decimal.UnitSeparatorRejected | spinwx/src/spinwx/grib.py:26 | A number preceded by U+001F is no integer. U+001F is white space to `str.isspace` but not to `int()`. |
| Decimal.ParseIntNeedsDigit | spinwx/src/spinwx/grib.py:26 | A start field without any digit is never read as an integer. |
| Strings.Split | spinwx/src/spinwx/spin_utils.py:44 | Joining the pieces with the separator gives the text back. No piece contains the separator. There is one piece exactly when the separator does not occur. |
| Strings.SplitLines | spinwx/src/spinwx/grib.py:24 | Empty text has no lines, other text has at least one, and no line contains a line boundary. `Strings.SplitLinesJoin` and `Strings.SplitLinesCover` below tie the lines to the text. |
| Strings.SplitLinesJoin | spinwx/src/spinwx/grib.py:24 | Lines without boundaries, each followed by `"\r\n"` or one boundary character, split back into exactly those lines. This includes a last line with no end, provided it is not empty, and any mix of boundaries. The only exception is a lone `"\r"` end directly followed by `"\n"`, since the two form one `"\r\n"`. |
| Strings.SplitLinesCover | spinwx/src/spinwx/grib.py:24 | Every text is its lines, each followed by such an end. With `Strings.SplitLinesJoin`, this fixes the lines of any text. |
| Strings.SplitLinesTerminated | spinwx/src/spinwx/grib.py:24 | Single lines, each followed by a newline, split back into exactly those lines. |
| Strings.RStrip | spinwx/src/spinwx/grib.py:25 | Only trailing copies of the character are removed, all of them, and the rest is kept unchanged. |
| Strings.LStrip | spinwx/src/spinwx/spin_utils.py:29 | Only leading copies of the character are removed, all of them, and the rest is kept unchanged. |
| Gfs.GribFilePrefix | spinwx/src/spinwx/gfs.py:74-87 | Reading the prefix back from its end gives the run's year, month, day and hour, for every year, the month, day and hour having been zero-padded to two digits; minutes and seconds play no part. |
| Gfs.GribFilePrefixInjective | spinwx/src/spinwx/gfs.py:74-87 | Runs with distinct (year, month, day, hour) have distinct prefixes. |
| Gfs.ListObjectsUrlInjective | spinwx/src/spinwx/gfs.py:90-100 | Distinct runs have distinct listing URLs, since each URL is the fixed bucket listing base followed by the run's prefix. |
| Gfs.LatestPossibleRun | spinwx/src/spinwx/gfs.py:103-122 | The latest possible run is on the six-hour grid. It is at or before `now` minus two hours, and less than six hours before it. |
| Gfs.LatestPossibleRunFloor | spinwx/src/spinwx/gfs.py:112-122 | Flooring the civil hour of `now` minus two hours equals flooring that instant to a multiple of 21600 seconds. |
| Gfs.LatestPossibleRunFields | spinwx/src/spinwx/gfs.py:112-122 | The run has the UTC date of `now` minus two hours, that hour floored to a multiple of six, and zero minutes and seconds. |
| Gfs.ForecastKeys | spinwx/src/spinwx/gfs.py:33-38 | A key is in the result exactly when it was listed and ends in neither `.anl` nor `.idx`. |
| Gfs.ForecastKeysCount | spinwx/src/spinwx/gfs.py:33-40 | The result never holds more keys than were listed, and listing a key again does not change the result. |
| Gfs.Candidates | spinwx/src/spinwx/gfs.py:49-54 | There are exactly three candidates, newest first, each six hours before the one ahead of it. |
| Gfs.CandidatesDistinct | spinwx/src/spinwx/gfs.py:51-57 | Candidates taken from a grid point stay on the grid, and each has a listing URL of its own. |
| Gfs.TryRuns | spinwx/src/spinwx/gfs.py:56-71 | The search answers with the first complete run, every run before it having been found incomplete. A failed listing ends the search with that error. The answer is `None` exactly when every run was listed and found incomplete. It fetches at least one run when there is one, and never more than there are. |
| Gfs.TryRunsLooksNoFurther | spinwx/src/spinwx/gfs.py:56-70 | The search depends only on the listings of the runs it fetched. No run after the one it stops at is fetched. |
| Gfs.LatestCompleteRun | spinwx/src/spinwx/gfs.py:43-71 | Between one and three candidates are fetched. The answer is the newest complete candidate, every newer one having been found incomplete. It is `None` exactly when all three were found incomplete. A failed listing ends the search with its error. |
| Gfs.LatestCompleteRunBounds | spinwx/src/spinwx/gfs.py:43-71 | Any run the search answers is on the six-hour grid, within the eighteen hours up to `now` minus two hours. |
| Calendar.DateTimeOfToEpoch | spinwx/src/spinwx/gfs.py:116-122 | Converting a valid date and time to an instant and back gives it unchanged. |
| SpinUtils.PairsToMap | spinwx/src/spinwx/spin_utils.py:14-16 | A name is a key of the map exactly when some pair carries it. It maps to the value of the last pair with that name. |
| SpinUtils.PairsToMapLastWins | spinwx/src/spinwx/spin_utils.py:15 | For any pair, the map's value for its name is the value of that pair or of a later pair with the same name. |
| SpinUtils.ParseSpinHeaders | spinwx/src/spinwx/spin_utils.py:5-17 | The keys are exactly the header names, and for each name the last header wins. |
| SpinUtils.PathParams | spinwx/src/spinwx/spin_utils.py:20-29 | There is at least one segment, and no segment contains `/`. The segments joined by `/` give back the path with all its leading slashes removed. The first segment is empty exactly when the path is all slashes. |
| SpinUtils.PathParamsRoundTrip | spinwx/src/spinwx/spin_utils.py:29 | Slash-free segments with a non-empty first one, joined by `/` after any number of slashes, split back into those segments. |
| SpinUtils.KeyValue | spinwx/src/spinwx/spin_utils.py:47 | A pair is read exactly when it splits on `=` into two pieces. Then it is key, `=`, value, with neither containing `=`. Otherwise the error records the pair and how many pieces it split into. |
| SpinUtils.KeyValueRoundTrip | spinwx/src/spinwx/spin_utils.py:47 | `key=value` is read back as (key, value) when neither part contains `=`. |
| SpinUtils.KeyValuePairs | spinwx/src/spinwx/spin_utils.py:46-48 | The pairs are read exactly when each one is, giving one (key, value) per pair in order. Otherwise the error is that of the first pair that is not read. |
| SpinUtils.QueryText | spinwx/src/spinwx/spin_utils.py:44 | There is a query string exactly when the route occurs in the URL and a `?` occurs in the text after the route, up to the route's next occurrence. |
| SpinUtils.QueryTextBetween | spinwx/src/spinwx/spin_utils.py:44 | The query string is the text after the first `?` following the route. It stops at a second `?` or a second occurrence of the route, and whatever follows is dropped. |
| SpinUtils.ReadQuery | spinwx/src/spinwx/spin_utils.py:45-49 | A query string is read exactly when every `&`-separated pair splits on `=` into two pieces. Otherwise the error names the first pair that does not. A name is a parameter exactly when it is the key of a pair, and it holds the value of the last pair with that key. |
| SpinUtils.EmptyQueryRejected | spinwx/src/spinwx/spin_utils.py:44-47 | An empty query string, as in a URL ending in `?`, is rejected as one pair with no `=`. |
| SpinUtils.ReadQueryRoundTrip | spinwx/src/spinwx/spin_utils.py:45-49 | Pairs free of `&`, `=` and `?`, written as `key=value` and joined by `&`, read back to their map, with later keys winning. |
| SpinUtils.QueryParams | spinwx/src/spinwx/spin_utils.py:32-50 | With either header missing or empty, there are no parameters. Otherwise the result is `RouteNotInUrl` exactly when the route does not occur in the URL. When it does occur, the result is `NoQueryMark` exactly when the text between the route's first and second occurrences has no `?`. In every other case the result is that of reading the query string, which may itself fail with `BadPair`. |
| SpinUtils.QueryParamsRoundTrip | spinwx/src/spinwx/spin_utils.py:32-50 | A URL made of text, the route (occurring only there), `?` and free `key=value` pairs joined by `&` yields exactly the map of those pairs. |
| SpinUtils.GetRequestInfo | spinwx/src/spinwx/spin_utils.py:53-77 | Reading the request succeeds exactly when reading its query parameters does. The URI is passed through and the headers become a map. The path segments are present exactly when `spin-path-info` is present and non-empty, and then they are that header's segments. |

## Left out

- Grib.ParseIdx: the source stores each range under a `"byte_range"` key of a one-entry dict. The model stores the range directly.
- Grib.ParseIdx: the source's `ValueError` does not say which line was bad. The line number in `IdxError` is added by the model.
- Grib.ParseIdx: the source returns nested `defaultdict`s, so reading an absent level creates it. The model returns a plain map.
- Decimal.ParseInt: Python's `int()` also accepts the decimal digits of other scripts, such as Arabic-Indic and full-width digits. `IsDigit` accepts ASCII digits only, so such a field is read as no integer.
- Decimal.ParseInt: since Python 3.11, `int()` raises `ValueError` on a decimal text of more than 4300 digits. The limit can be changed with `sys.set_int_max_str_digits` or `PYTHONINTMAXSTRDIGITS`, and 0 turns it off. The model has no limit, so an oversized start field is read where the source raises. `Decimal.ParseIntDecimal` holds for Python only below the limit.
- Grib.ParseLine: inherits both gaps of `Decimal.ParseInt`. A start field written in other scripts' digits gives `StartNotInteger` where the source parses it. A start field longer than Python's digit limit parses where the source raises.
- Gfs.LatestPossibleRun: instants are whole seconds, so the microseconds of `now` are dropped. They play no part in the result, which has zero minutes and seconds.
- Gfs.LatestPossibleRun: years are unbounded. Outside Python's 1..9999 `datetime` range, the source raises `OverflowError`, which is not modelled.
- Gfs.LatestCompleteRun: `now` is a parameter rather than a clock read, and is always UTC.
- Gfs.LatestCompleteRun: the HTTP request and the XML parse of the listing are a function parameter that returns the `<Key>` texts or an error. A `<Key>` element with no text would make the source raise `AttributeError`. The parameter's `seq<string>` type rules that case out.
- Gfs.LatestCompleteRun: the logging of each complete or incomplete run is left out.
- SpinUtils.GetRequestInfo: the `body` field and its UTF-8 decode are left out. The decode's `UnicodeDecodeError` is not modelled.
- SpinUtils.QueryParams: Python's truthiness test on a header value is modelled only for strings: present and non-empty.
- The request handlers built on this library (`gfs_idx.py`, `gfs_grib.py`, `gfs_latest.py`, `app.py`) are not part of this model. They perform HTTP I/O and route requests.
